/** From search queries to a filter struct: a list of setter options, applied in order. */
module SearchFilters {
  import opened Text

  datatype RecordFilters = RecordFilters(
    limit: int,
    offset: int,
    name: string,
    version: string,
    skillIds: seq<nat>,
    skillNames: seq<string>,
    locatorTypes: seq<string>,
    locatorUrls: seq<string>,
    extensionNames: seq<string>,
    extensionVersions: seq<string>)

  const NO_FILTERS := RecordFilters(0, 0, "", "", [], [], [], [], [], [])

  datatype FilterOption =
    | WithLimit(limit: int)
    | WithOffset(offset: int)
    | WithName(name: string)
    | WithVersion(version: string)
    | WithSkillIds(ids: seq<nat>)
    | WithSkillNames(names: seq<string>)
    | WithLocatorTypes(types: seq<string>)
    | WithLocatorUrls(urls: seq<string>)
    | WithExtensionNames(names: seq<string>)
    | WithExtensionVersions(versions: seq<string>)
  {
    /** An option assigns its field and leaves the others. */
    function Apply(f: RecordFilters): RecordFilters {
      match this
      case WithLimit(x) => f.(limit := x)
      case WithOffset(x) => f.(offset := x)
      case WithName(x) => f.(name := x)
      case WithVersion(x) => f.(version := x)
      case WithSkillIds(x) => f.(skillIds := x)
      case WithSkillNames(x) => f.(skillNames := x)
      case WithLocatorTypes(x) => f.(locatorTypes := x)
      case WithLocatorUrls(x) => f.(locatorUrls := x)
      case WithExtensionNames(x) => f.(extensionNames := x)
      case WithExtensionVersions(x) => f.(extensionVersions := x)
    }
  }

  function ApplyAll(f: RecordFilters, options: seq<FilterOption>): RecordFilters {
    if options == [] then f else options[|options| - 1].Apply(ApplyAll(f, options[..|options| - 1]))
  }

  function Values(options: seq<Option<FilterOption>>): seq<FilterOption> {
    if options == [] then []
    else
      var rest, last := Values(options[..|options| - 1]), options[|options| - 1];
      if last.Some? then rest + [last.value] else rest
  }

  method BuildFilters(options: seq<Option<FilterOption>>) returns (r: Option<RecordFilters>)
    ensures r.None? <==> None in options
    ensures r.Some? ==> r.value == ApplyAll(NO_FILTERS, Values(options))
  {
    var cfg := NO_FILTERS;
    for i := 0 to |options|
      invariant None !in options[..i]
      invariant cfg == ApplyAll(NO_FILTERS, Values(options[..i]))
    {
      assert options[..i + 1] == options[..i] + [options[i]];
      if options[i].None? {
        return None;
      }
      var values := Values(options[..i]);
      assert options[..i + 1][..i] == options[..i];
      assert (values + [options[i].value])[..|values|] == values;
      cfg := options[i].value.Apply(cfg);
    }
    assert options[..|options|] == options;
    return Some(cfg);
  }

  // ---------------------------------------------------------------- queries

  datatype QueryType = UnspecifiedType | NameType | VersionType | SkillIdType | SkillNameType | LocatorType
      | ExtensionType | UnknownType

  datatype RecordQuery = RecordQuery(kind: QueryType, value: string)

  predicate IsDigit(c: char) {
    '0' <= c <= '9'
  }

  function DecimalValue(s: string): nat
    requires forall i :: 0 <= i < |s| ==> IsDigit(s[i])
  {
    if s == "" then 0
    else
      assert IsDigit(s[|s| - 1]);
      10 * DecimalValue(s[..|s| - 1]) + (s[|s| - 1] as int - '0' as int)
  }

  const UINT64_LIMIT := 0x1_0000_0000_0000_0000

  /** strconv.ParseUint in base 10 for 64 bits: decimal digits only, and in range. */
  function ParseUint(s: string): Option<nat> {
    if s == "" || exists i :: 0 <= i < |s| && !IsDigit(s[i]) then None
    else if DecimalValue(s) >= UINT64_LIMIT then None
    else Some(DecimalValue(s))
  }

  /** The characters strings.TrimSpace removes. */
  predicate IsSpace(c: char) {
    c in {'\t', '\n', '\U{000B}', '\U{000C}', '\r', ' ', '\U{0085}', '\U{00A0}', '\U{1680}', '\U{2028}', '\U{2029}',
          '\U{202F}', '\U{205F}', '\U{3000}'}
    || '\U{2000}' <= c <= '\U{200A}'
  }

  predicate IsBlank(s: string) {
    forall i :: 0 <= i < |s| ==> IsSpace(s[i])
  }

  /** The text before the first colon and, if there is a colon, all that follows it. */
  function SplitColon(s: string): (string, Option<string>) {
    if s == "" then ("", None)
    else if s[0] == ':' then ("", Some(s[1..]))
    else
      var (before, after) := SplitColon(s[1..]);
      ([s[0]] + before, after)
  }

  /** The part before the colon, and the part after it, if they say anything. */
  function FirstPart(value: string): Option<string> {
    if IsBlank(SplitColon(value).0) then None else Some(SplitColon(value).0)
  }

  function SecondPart(value: string): Option<string> {
    var after := SplitColon(value).1;
    if after.None? || IsBlank(after.value) then None else after
  }

  function LocatorOptions(kind: Option<string>, url: Option<string>): seq<FilterOption> {
    (if kind.Some? then [WithLocatorTypes([kind.value])] else [])
      + (if url.Some? then [WithLocatorUrls([url.value])] else [])
  }

  function ExtensionOptions(name: Option<string>, version: Option<string>): seq<FilterOption> {
    (if name.Some? then [WithExtensionNames([name.value])] else [])
      + (if version.Some? then [WithExtensionVersions([version.value])] else [])
  }

  function OptionsOf(q: RecordQuery): Option<seq<FilterOption>> {
    match q.kind
    case NameType => Some([WithName(q.value)])
    case VersionType => Some([WithVersion(q.value)])
    case SkillIdType => if ParseUint(q.value).None? then None else Some([WithSkillIds([ParseUint(q.value).value])])
    case SkillNameType => Some([WithSkillNames([q.value])])
    case LocatorType => Some(LocatorOptions(FirstPart(q.value), SecondPart(q.value)))
    case ExtensionType => Some(ExtensionOptions(FirstPart(q.value), SecondPart(q.value)))
    case UnspecifiedType => Some([])
    case UnknownType => Some([])
  }

  function OptionsOfAll(queries: seq<RecordQuery>): Option<seq<FilterOption>> {
    if queries == [] then Some([])
    else
      var rest, last := OptionsOfAll(queries[..|queries| - 1]), OptionsOf(queries[|queries| - 1]);
      if rest.None? || last.None? then None else Some(rest.value + last.value)
  }

  lemma {:induction false} FailureSticks(queries: seq<RecordQuery>, n: nat)
    requires n <= |queries| && OptionsOfAll(queries[..n]).None?
    ensures OptionsOfAll(queries).None?
    decreases |queries| - n
  {
    if n == |queries| {
      assert queries[..n] == queries;
    } else {
      assert queries[..n + 1][..n] == queries[..n];
      FailureSticks(queries, n + 1);
    }
  }

  method QueryToFilters(queries: seq<RecordQuery>) returns (r: Option<seq<FilterOption>>)
    ensures r == OptionsOfAll(queries)
  {
    var options := [];
    for i := 0 to |queries|
      invariant OptionsOfAll(queries[..i]) == Some(options)
    {
      assert queries[..i + 1][..i] == queries[..i];
      var q := queries[i];
      ghost var sofar := options;
      match q.kind {
        case UnspecifiedType =>
        case NameType => options := options + [WithName(q.value)];
        case VersionType => options := options + [WithVersion(q.value)];
        case SkillIdType =>
          var id := ParseUint(q.value);
          if id.None? {
            FailureSticks(queries, i + 1);
            return None;
          }
          options := options + [WithSkillIds([id.value])];
        case SkillNameType => options := options + [WithSkillNames([q.value])];
        case LocatorType =>
          var (before, after) := SplitColon(q.value);
          if !IsBlank(before) { options := options + [WithLocatorTypes([before])]; }
          if after.Some? && !IsBlank(after.value) { options := options + [WithLocatorUrls([after.value])]; }
        case ExtensionType =>
          var (before, after) := SplitColon(q.value);
          if !IsBlank(before) { options := options + [WithExtensionNames([before])]; }
          if after.Some? && !IsBlank(after.value) { options := options + [WithExtensionVersions([after.value])]; }
        case UnknownType =>
      }
      assert options == sofar + OptionsOf(q).value;
    }
    assert queries[..|queries|] == queries;
    return Some(options);
  }

  /** Conversion fails exactly when some skill-id query is not a 64-bit number. */
  lemma {:induction false} ConversionFails(queries: seq<RecordQuery>)
    ensures OptionsOfAll(queries).None? <==> exists i ::
               0 <= i < |queries| && queries[i].kind.SkillIdType? && ParseUint(queries[i].value).None?
    decreases |queries|
  {
    if queries != [] {
      var n := |queries| - 1;
      ConversionFails(queries[..n]);
      assert forall i :: 0 <= i < n ==> queries[..n][i] == queries[i];
    }
  }

  /** A colon split is undone by joining, and the first part has no colon. */
  lemma {:induction false} SplitColonJoins(s: string)
    ensures var (before, after) := SplitColon(s);
            Free(before, ':') && s == before + (if after.Some? then ":" + after.value else "")
  {
    if s != "" && s[0] != ':' {
      SplitColonJoins(s[1..]);
    }
  }

  lemma {:induction false} ApplyConcat(f: RecordFilters, a: seq<FilterOption>, b: seq<FilterOption>)
    ensures ApplyAll(f, a + b) == ApplyAll(ApplyAll(f, a), b)
    decreases |b|
  {
    if b == [] {
      assert a + b == a;
    } else {
      assert (a + b)[..|a + b| - 1] == a + b[..|b| - 1];
      ApplyConcat(f, a, b[..|b| - 1]);
    }
  }

  // ---------------------------------------------------------------- what the filters mean

  /** The last query that says something, by `f`, and what it says. */
  function Last<T>(queries: seq<RecordQuery>, f: RecordQuery -> Option<T>): Option<T> {
    if queries == [] then None
    else if f(queries[|queries| - 1]).Some? then f(queries[|queries| - 1])
    else Last(queries[..|queries| - 1], f)
  }

  function OneOrNone<T>(x: Option<T>): seq<T> {
    if x.Some? then [x.value] else []
  }

  function Plain(kind: QueryType): RecordQuery -> Option<string> {
    (q: RecordQuery) => if q.kind == kind then Some(q.value) else None
  }

  function BeforeColon(kind: QueryType): RecordQuery -> Option<string> {
    (q: RecordQuery) => if q.kind == kind then FirstPart(q.value) else None
  }

  function AfterColon(kind: QueryType): RecordQuery -> Option<string> {
    (q: RecordQuery) => if q.kind == kind then SecondPart(q.value) else None
  }

  function SkillNumber(): RecordQuery -> Option<nat> {
    (q: RecordQuery) => if q.kind.SkillIdType? then ParseUint(q.value) else None
  }

  function TextOf(x: Option<string>): string {
    if x.Some? then x.value else ""
  }

  /** The filters that hold, each for itself, what the last query about it says. */
  function LastSaid(queries: seq<RecordQuery>): RecordFilters {
    RecordFilters(
      0, 0,
      TextOf(Last(queries, Plain(NameType))),
      TextOf(Last(queries, Plain(VersionType))),
      OneOrNone(Last(queries, SkillNumber())),
      OneOrNone(Last(queries, Plain(SkillNameType))),
      OneOrNone(Last(queries, BeforeColon(LocatorType))),
      OneOrNone(Last(queries, AfterColon(LocatorType))),
      OneOrNone(Last(queries, BeforeColon(ExtensionType))),
      OneOrNone(Last(queries, AfterColon(ExtensionType))))
  }

  /** What one query changes. */
  function Changed(f: RecordFilters, q: RecordQuery): RecordFilters {
    RecordFilters(
      f.limit, f.offset,
      (var n := Plain(NameType)(q); if n.Some? then n.value else f.name),
      (var v := Plain(VersionType)(q); if v.Some? then v.value else f.version),
      (var x := SkillNumber()(q); if x.Some? then [x.value] else f.skillIds),
      (var x := Plain(SkillNameType)(q); if x.Some? then [x.value] else f.skillNames),
      (var x := BeforeColon(LocatorType)(q); if x.Some? then [x.value] else f.locatorTypes),
      (var x := AfterColon(LocatorType)(q); if x.Some? then [x.value] else f.locatorUrls),
      (var x := BeforeColon(ExtensionType)(q); if x.Some? then [x.value] else f.extensionNames),
      (var x := AfterColon(ExtensionType)(q); if x.Some? then [x.value] else f.extensionVersions))
  }

  lemma LastSaidStep(queries: seq<RecordQuery>)
    requires queries != []
    ensures LastSaid(queries) == Changed(LastSaid(queries[..|queries| - 1]), queries[|queries| - 1])
  {
  }

  lemma ApplyOne(f: RecordFilters, o: FilterOption)
    ensures ApplyAll(f, [o]) == o.Apply(f)
  {
    assert [o][..0] == [];
  }

  lemma ApplyTwo(f: RecordFilters, a: FilterOption, b: FilterOption)
    ensures ApplyAll(f, [a, b]) == b.Apply(a.Apply(f))
  {
    assert [a, b] == [a] + [b];
    ApplyConcat(f, [a], [b]);
    ApplyOne(f, a);
    ApplyOne(a.Apply(f), b);
  }

  lemma LocatorEffect(f: RecordFilters, kind: Option<string>, url: Option<string>)
    ensures ApplyAll(f, LocatorOptions(kind, url)) ==
            f.(locatorTypes := if kind.Some? then [kind.value] else f.locatorTypes,
               locatorUrls := if url.Some? then [url.value] else f.locatorUrls)
  {
    var options := LocatorOptions(kind, url);
    if |options| == 1 {
      ApplyOne(f, options[0]);
    } else if |options| == 2 {
      ApplyTwo(f, options[0], options[1]);
      assert options == [options[0], options[1]];
    }
  }

  lemma ExtensionEffect(f: RecordFilters, name: Option<string>, version: Option<string>)
    ensures ApplyAll(f, ExtensionOptions(name, version)) ==
            f.(extensionNames := if name.Some? then [name.value] else f.extensionNames,
               extensionVersions := if version.Some? then [version.value] else f.extensionVersions)
  {
    var options := ExtensionOptions(name, version);
    if |options| == 1 {
      ApplyOne(f, options[0]);
    } else if |options| == 2 {
      ApplyTwo(f, options[0], options[1]);
      assert options == [options[0], options[1]];
    }
  }

  lemma QueryEffect(f: RecordFilters, q: RecordQuery)
    requires OptionsOf(q).Some?
    ensures ApplyAll(f, OptionsOf(q).value) == Changed(f, q)
  {
    match q.kind
    case LocatorType => LocatorEffect(f, FirstPart(q.value), SecondPart(q.value));
    case ExtensionType => ExtensionEffect(f, FirstPart(q.value), SecondPart(q.value));
    case _ =>
      if OptionsOf(q).value != [] {
        ApplyOne(f, OptionsOf(q).value[0]);
      }
  }

  /** Applying the options one after the other gives what the last query about each filter says. */
  lemma {:induction false} LastQueryDecides(queries: seq<RecordQuery>)
    requires OptionsOfAll(queries).Some?
    ensures ApplyAll(NO_FILTERS, OptionsOfAll(queries).value) == LastSaid(queries)
    decreases |queries|
  {
    if queries != [] {
      var rest, q := queries[..|queries| - 1], queries[|queries| - 1];
      LastQueryDecides(rest);
      ApplyConcat(NO_FILTERS, OptionsOfAll(rest).value, OptionsOf(q).value);
      QueryEffect(LastSaid(rest), q);
      LastSaidStep(queries);
    }
  }

}

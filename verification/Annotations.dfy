/** OCI manifest annotations: what is written for a record, and the metadata read back from it. */
module Annotations {
  import opened Text
  import SearchFilters

  // ---------------------------------------------------------------- comma-separated names

  /** strings.TrimSpace. */
  function Trim(s: string): string {
    if s == "" then ""
    else if SearchFilters.IsSpace(s[0]) then Trim(s[1..])
    else if SearchFilters.IsSpace(s[|s| - 1]) then Trim(s[..|s| - 1])
    else s
  }

  predicate Trimmed(s: string) {
    s != "" ==> !SearchFilters.IsSpace(s[0]) && !SearchFilters.IsSpace(s[|s| - 1])
  }

  lemma {:induction false} TrimFacts(s: string, c: char)
    ensures Trimmed(Trim(s)) && |Trim(s)| <= |s|
    ensures Trim(s) == s <==> Trimmed(s)
    ensures Free(s, c) ==> Free(Trim(s), c)
    decreases |s|
  {
    if s != "" && SearchFilters.IsSpace(s[0]) {
      TrimFacts(s[1..], c);
    } else if s != "" && SearchFilters.IsSpace(s[|s| - 1]) {
      TrimFacts(s[..|s| - 1], c);
    }
  }

  /** Trimming takes off blanks at both ends, and nothing else. */
  lemma {:induction false} TrimSplits(s: string) returns (a: string, b: string)
    ensures s == a + Trim(s) + b && SearchFilters.IsBlank(a) && SearchFilters.IsBlank(b)
    decreases |s|
  {
    a, b := "", "";
    if s != "" && SearchFilters.IsSpace(s[0]) {
      a, b := TrimSplits(s[1..]);
      a := [s[0]] + a;
    } else if s != "" && SearchFilters.IsSpace(s[|s| - 1]) {
      a, b := TrimSplits(s[..|s| - 1]);
      b := b + [s[|s| - 1]];
    }
  }

  /** A text trims to nothing exactly when it is blank: what the search filters test. */
  lemma TrimBlank(s: string)
    ensures Trim(s) == "" <==> SearchFilters.IsBlank(s)
  {
    var a, b := TrimSplits(s);
    TrimFacts(s, ' ');
    if Trim(s) != "" {
      assert s[|a|] == Trim(s)[0];
    }
  }

  /** The trimmed parts that are not empty. */
  function TrimAll(parts: seq<string>): seq<string> {
    if parts == [] then []
    else
      var rest, last := TrimAll(parts[..|parts| - 1]), Trim(parts[|parts| - 1]);
      if last == "" then rest else rest + [last]
  }

  function ParseNames(value: string): seq<string> {
    if value == "" then [] else TrimAll(Split(value, ','))
  }

  method ParseCommaSeparated(value: string) returns (result: seq<string>)
    ensures result == ParseNames(value)
  {
    if value == "" {
      return [];
    }
    var parts := Split(value, ',');
    result := [];
    for i := 0 to |parts|
      invariant result == TrimAll(parts[..i])
    {
      assert parts[..i + 1][..i] == parts[..i];
      var trimmed := Trim(parts[i]);
      if trimmed != "" {
        result := result + [trimmed];
      }
    }
    assert parts[..|parts|] == parts;
  }

  /** A name that survives a comma-separated list. */
  predicate IsName(s: string) {
    s != "" && Trimmed(s) && Free(s, ',')
  }

  predicate AllNames(names: seq<string>) {
    forall i :: 0 <= i < |names| ==> IsName(names[i])
  }

  lemma {:induction false} TrimAllFacts(parts: seq<string>)
    requires AllFree(parts, ',')
    ensures AllNames(TrimAll(parts))
    ensures AllNames(parts) ==> TrimAll(parts) == parts
    decreases |parts|
  {
    if parts != [] {
      var n := |parts| - 1;
      TrimAllFacts(parts[..n]);
      TrimFacts(parts[n], ',');
      assert parts == parts[..n] + [parts[n]];
    }
  }

  /** A list of names comes back from its comma-joined form exactly when its members are comma-free,
      trimmed and not empty. */
  lemma ParseJoinedNames(names: seq<string>)
    ensures ParseNames(Join(names, ',')) == names <==> AllNames(names)
  {
    var text := Join(names, ',');
    SplitFree(text, ',');
    TrimAllFacts(Split(text, ','));
    if AllNames(names) && names != [] {
      SplitJoin(names, ',');
    }
  }

  // ---------------------------------------------------------------- counts

  function Itoa(n: nat): (s: string)
    ensures forall i :: 0 <= i < |s| ==> SearchFilters.IsDigit(s[i])
  {
    if n < 10 then ['0' + n as char] else Itoa(n / 10) + ['0' + (n % 10) as char]
  }

  lemma {:induction false} ItoaBack(n: nat)
    ensures SearchFilters.DecimalValue(Itoa(n)) == n
  {
    if n >= 10 {
      ItoaBack(n / 10);
      assert Itoa(n)[..|Itoa(n)| - 1] == Itoa(n / 10);
    } else {
      assert Itoa(n)[..0] == "";
    }
  }

  lemma DigitsOnly(s: string)
    requires forall i :: 0 <= i < |s| ==> SearchFilters.IsDigit(s[i])
    ensures SearchFilters.ParseUint(s).Some? <==> s != "" && SearchFilters.DecimalValue(s) < 18446744073709551616
    ensures SearchFilters.ParseUint(s).Some? ==> SearchFilters.ParseUint(s).value == SearchFilters.DecimalValue(s)
  {
  }

  /** A skill id is read as the number it is written for, up to the largest 64-bit one. */
  lemma ParseItoa(n: nat)
    ensures SearchFilters.ParseUint(Itoa(n)) == Some(n) <==> n < 18446744073709551616
  {
    ItoaBack(n);
    DigitsOnly(Itoa(n));
  }

  // ---------------------------------------------------------------- keys

  datatype Field =
    | Type | OasfVersion | Name | Version | Description | SchemaVersion | CreatedAt
    | Authors | Skills | LocatorTypes | ExtensionNames
    | Signed | SignatureAlgo | SignedAt | PreviousCid
    | AuthorsCount | SkillsCount | LocatorTypesCount | ExtensionCount

  const KEY_PREFIX := "org.agntcy.dir/"
  const CUSTOM_PREFIX := "org.agntcy.dir/custom."

  function Key(f: Field): string {
    match f
    case Type => "type"
    case OasfVersion => "oasf-version"
    case Name => "name"
    case Version => "version"
    case Description => "description"
    case SchemaVersion => "schema-version"
    case CreatedAt => "created-at"
    case Authors => "authors"
    case Skills => "skills"
    case LocatorTypes => "locator-types"
    case ExtensionNames => "extension-names"
    case Signed => "signed"
    case SignatureAlgo => "signature-algorithm"
    case SignedAt => "signed-at"
    case PreviousCid => "previous-cid"
    case AuthorsCount => "authors-count"
    case SkillsCount => "skills-count"
    case LocatorTypesCount => "locator-types-count"
    case ExtensionCount => "extension-names-count"
  }

  function ManifestKey(f: Field): string {
    KEY_PREFIX + Key(f)
  }

  function CustomKey(k: string): string {
    CUSTOM_PREFIX + k
  }

  /** Enough of a key to tell it from the others. */
  function Mark(k: string): (nat, char, char)
    requires |k| >= 2
  {
    (|k|, k[0], k[1])
  }

  lemma KeyMark(f: Field)
    ensures |Key(f)| >= 2
    ensures Mark(Key(f)) == match f
                            case Type => (4, 't', 'y')
                            case OasfVersion => (12, 'o', 'a')
                            case Name => (4, 'n', 'a')
                            case Version => (7, 'v', 'e')
                            case Description => (11, 'd', 'e')
                            case SchemaVersion => (14, 's', 'c')
                            case CreatedAt => (10, 'c', 'r')
                            case Authors => (7, 'a', 'u')
                            case Skills => (6, 's', 'k')
                            case LocatorTypes => (13, 'l', 'o')
                            case ExtensionNames => (15, 'e', 'x')
                            case Signed => (6, 's', 'i')
                            case SignatureAlgo => (19, 's', 'i')
                            case SignedAt => (9, 's', 'i')
                            case PreviousCid => (12, 'p', 'r')
                            case AuthorsCount => (13, 'a', 'u')
                            case SkillsCount => (12, 's', 'k')
                            case LocatorTypesCount => (19, 'l', 'o')
                            case ExtensionCount => (21, 'e', 'x')
  {
  }

  /** The annotation keys as they are stored: identity and lifecycle, */
  lemma KeyTexts()
    ensures ManifestKey(Type) == "org.agntcy.dir/type" && ManifestKey(OasfVersion) == "org.agntcy.dir/oasf-version"
    ensures ManifestKey(Name) == "org.agntcy.dir/name" && ManifestKey(Version) == "org.agntcy.dir/version"
    ensures ManifestKey(Description) == "org.agntcy.dir/description"
    ensures ManifestKey(SchemaVersion) == "org.agntcy.dir/schema-version"
    ensures ManifestKey(CreatedAt) == "org.agntcy.dir/created-at" && ManifestKey(Authors) == "org.agntcy.dir/authors"
  {
  }

  /** lists and security, */
  lemma ListKeyTexts()
    ensures ManifestKey(Skills) == "org.agntcy.dir/skills"
    ensures ManifestKey(LocatorTypes) == "org.agntcy.dir/locator-types"
    ensures ManifestKey(ExtensionNames) == "org.agntcy.dir/extension-names"
    ensures ManifestKey(Signed) == "org.agntcy.dir/signed"
    ensures ManifestKey(SignatureAlgo) == "org.agntcy.dir/signature-algorithm"
    ensures ManifestKey(SignedAt) == "org.agntcy.dir/signed-at"
    ensures ManifestKey(PreviousCid) == "org.agntcy.dir/previous-cid"
  {
  }

  /** and counts and custom pairs. */
  lemma CountKeyTexts(k: string)
    ensures Key(AuthorsCount) == "authors-count" && Key(SkillsCount) == "skills-count"
    ensures Key(LocatorTypesCount) == "locator-types-count" && Key(ExtensionCount) == "extension-names-count"
    ensures CustomKey(k) == "org.agntcy.dir/custom." + k
  {
  }

  lemma KeysApart(f: Field, g: Field)
    ensures Key(f) == Key(g) || ManifestKey(f) == ManifestKey(g) ==> f == g
  {
    KeyMark(f);
    KeyMark(g);
    assert ManifestKey(f)[|KEY_PREFIX|..] == Key(f) && ManifestKey(g)[|KEY_PREFIX|..] == Key(g);
  }

  lemma CustomApart(f: Field, k: string)
    ensures !(CUSTOM_PREFIX <= ManifestKey(f))
    ensures CUSTOM_PREFIX <= CustomKey(k) && CustomKey(k)[|CUSTOM_PREFIX|..] == k
  {
    KeyMark(f);
    assert ManifestKey(f)[15] == Key(f)[0] && ManifestKey(f)[16] == Key(f)[1];
    assert CUSTOM_PREFIX[15] == 'c' && CUSTOM_PREFIX[16] == 'u';
  }

  ghost predicate Distinct(key: Field -> string) {
    forall f, g :: key(f) == key(g) ==> f == g
  }

  lemma KeysDistinct()
    ensures Distinct(Key) && Distinct(ManifestKey)
  {
    forall f, g ensures Key(f) == Key(g) || ManifestKey(f) == ManifestKey(g) ==> f == g {
      KeysApart(f, g);
    }
  }

  /** The fields that have a value, under their keys. */
  function Named(key: Field -> string, value: Field -> Option<string>): (m: map<string, string>)
    requires Distinct(key)
    ensures forall f :: value(f).Some? ==> key(f) in m && m[key(f)] == value(f).value
    ensures forall k :: k in m ==> exists f :: value(f).Some? && k == key(f)
  {
    var fields := map f: Field | value(f).Some? :: value(f).value;
    assert forall f :: f in fields <==> value(f).Some?;
    var m := map f | f in fields :: key(f) := fields[f];
    assert forall f :: f in fields ==> key(f) in m && m[key(f)] == fields[f];
    m
  }

  function NonEmpty(s: string): Option<string> {
    if s == "" then None else Some(s)
  }

  // ---------------------------------------------------------------- writing

  datatype Signature = Signature(algorithm: string, signedAt: string)

  datatype Oasf = V1 | V2 | V3 {
    function Text(): string {
      match this
      case V1 => "v0.3.1"
      case V2 => "v0.4.0"
      case V3 => "v0.5.0"
    }
  }

  /** What the version-independent adapter gives access to. */
  datatype RecordData = RecordData(
    oasf: Oasf,
    name: string,
    version: string,
    description: string,
    schemaVersion: string,
    createdAt: string,
    authors: seq<string>,
    skills: seq<string>,
    locatorTypes: seq<string>,
    extensionNames: seq<string>,
    signature: Option<Signature>,
    previousCid: string,
    custom: map<string, string>)

  function Joined(names: seq<string>): Option<string> {
    if names == [] then None else Some(Join(names, ','))
  }

  /** What is written for a field; a record without valid data has only its type. */
  function Written(record: Option<RecordData>, f: Field): Option<string> {
    if f == Type then Some("record")
    else if record.None? then None
    else
      var d := record.value;
      match f
      case OasfVersion => Some(d.oasf.Text())
      case Name => NonEmpty(d.name)
      case Version => NonEmpty(d.version)
      case Description => NonEmpty(d.description)
      case SchemaVersion => NonEmpty(d.schemaVersion)
      case CreatedAt => NonEmpty(d.createdAt)
      case Authors => Joined(d.authors)
      case Skills => Joined(d.skills)
      case LocatorTypes => Joined(d.locatorTypes)
      case ExtensionNames => Joined(d.extensionNames)
      case Signed => Some(if d.signature.Some? then "true" else "false")
      case SignatureAlgo => if d.signature.Some? then NonEmpty(d.signature.value.algorithm) else None
      case SignedAt => if d.signature.Some? then NonEmpty(d.signature.value.signedAt) else None
      case PreviousCid => NonEmpty(d.previousCid)
      case _ => None
  }

  function CustomOf(record: Option<RecordData>): map<string, string> {
    if record.Some? then record.value.custom else map[]
  }

  /** The manifest of a record: the written fields and the custom pairs, each under its own key. */
  ghost predicate IsManifest(record: Option<RecordData>, m: map<string, string>) {
    && (forall f :: Written(record, f).Some? ==> ManifestKey(f) in m && m[ManifestKey(f)] == Written(record, f).value)
    && (forall k :: k in CustomOf(record) ==> CustomKey(k) in m && m[CustomKey(k)] == CustomOf(record)[k])
    && (forall key :: key in m ==>
          || (exists f :: Written(record, f).Some? && key == ManifestKey(f))
          || (CUSTOM_PREFIX <= key && key[|CUSTOM_PREFIX|..] in CustomOf(record)))
  }

  /** The custom pairs laid over the fields, under prefixed keys. */
  ghost predicate Overlaid(m: map<string, string>, core: map<string, string>, custom: map<string, string>,
                           prefix: string) {
    && (forall key :: key in core ==> key in m && m[key] == core[key])
    && (forall k :: k in custom ==> prefix + k in m && m[prefix + k] == custom[k])
    && (forall key :: key in m && key !in core ==> prefix <= key && key[|prefix|..] in custom)
  }

  method WriteCustom(core: map<string, string>, custom: map<string, string>, prefix: string)
    returns (m: map<string, string>)
    requires forall key :: key in core ==> !(prefix <= key)
    ensures Overlaid(m, core, custom, prefix)
  {
    m := core;
    var left := custom.Keys;
    while left != {}
      invariant left <= custom.Keys
      invariant forall key :: key in core ==> key in m && m[key] == core[key]
      invariant forall k :: k in custom && k !in left ==> prefix + k in m && m[prefix + k] == custom[k]
      invariant forall key :: key in m && key !in core ==> prefix <= key && key[|prefix|..] in custom
    {
      var k :| k in left;
      assert (prefix + k)[|prefix|..] == k;
      assert forall k' :: prefix + k' == prefix + k ==> (prefix + k')[|prefix|..] == k';
      m, left := m[prefix + k := custom[k]], left - {k};
    }
  }

  lemma CoreNotCustom(record: Option<RecordData>, core: map<string, string>)
    requires forall key :: key in core ==> exists f :: Written(record, f).Some? && key == ManifestKey(f)
    ensures forall key :: key in core ==> !(CUSTOM_PREFIX <= key)
  {
    forall key | key in core ensures !(CUSTOM_PREFIX <= key) {
      var f :| Written(record, f).Some? && key == ManifestKey(f);
      CustomApart(f, "");
    }
  }

  method ExtractManifestAnnotations(record: Option<RecordData>) returns (m: map<string, string>)
    ensures IsManifest(record, m)
  {
    KeysDistinct();
    var core := Named(ManifestKey, f => Written(record, f));
    CoreNotCustom(record, core);
    m := core;
    if record.Some? {
      m := WriteCustom(core, record.value.custom, CUSTOM_PREFIX);
    }
  }

  lemma ManifestKeyKnown(record: Option<RecordData>, m1: map<string, string>, m2: map<string, string>, key: string)
    requires IsManifest(record, m1) && IsManifest(record, m2) && key in m1
    ensures key in m2 && m1[key] == m2[key]
  {
    if f :| Written(record, f).Some? && key == ManifestKey(f) {
    } else {
      var k := key[|CUSTOM_PREFIX|..];
      assert key == CustomKey(k);
    }
  }

  /** A record determines its manifest, in whatever order its custom pairs are visited. */
  lemma ManifestUnique(record: Option<RecordData>, m1: map<string, string>, m2: map<string, string>)
    requires IsManifest(record, m1) && IsManifest(record, m2)
    ensures m1 == m2
  {
    forall key | key in m1 ensures key in m2 && m1[key] == m2[key] {
      ManifestKeyKnown(record, m1, m2, key);
    }
    forall key | key in m2 ensures key in m1 {
      ManifestKeyKnown(record, m2, m1, key);
    }
    assert m1.Keys == m2.Keys;
  }

  // ---------------------------------------------------------------- reading

  datatype RecordMeta = RecordMeta(cid: string, annotations: map<string, string>, schemaVersion: string,
                                   createdAt: string)

  const DEFAULT_SCHEMA_VERSION := "v0.3.1"

  /** A map lookup, where an absent key reads as the empty string. */
  function Get(m: map<string, string>, f: Field): string {
    if ManifestKey(f) in m then m[ManifestKey(f)] else ""
  }

  function CountText(value: string): Option<string> {
    if value == "" then None else Some(Itoa(|ParseNames(value)|))
  }

  /** What is shown for a field, given the stored text of each. */
  function Shown(get: Field -> string, f: Field): Option<string> {
    match f
    case Type => None
    case SchemaVersion => None
    case CreatedAt => None
    case AuthorsCount => CountText(get(Authors))
    case SkillsCount => CountText(get(Skills))
    case LocatorTypesCount => CountText(get(LocatorTypes))
    case ExtensionCount => CountText(get(ExtensionNames))
    case SignatureAlgo => if get(Signed) == "true" then NonEmpty(get(SignatureAlgo)) else None
    case SignedAt => if get(Signed) == "true" then NonEmpty(get(SignedAt)) else None
    case _ => NonEmpty(get(f))
  }

  /** The custom pairs of the manifest in place of, or beside, the fields. */
  method ShowCustom(core: map<string, string>, m: map<string, string>, prefix: string)
    returns (annotations: map<string, string>)
    ensures forall a :: if prefix + a in m then a in annotations && annotations[a] == m[prefix + a]
                        else (a in annotations <==> a in core) && (a in core ==> annotations[a] == core[a])
  {
    annotations := core;
    var left := m.Keys;
    while left != {}
      invariant left <= m.Keys
      invariant forall a :: if prefix + a in m && prefix + a !in left
                            then a in annotations && annotations[a] == m[prefix + a]
                            else (a in annotations <==> a in core) && (a in core ==> annotations[a] == core[a])
    {
      var key :| key in left;
      if prefix <= key {
        assert key == prefix + key[|prefix|..];
        annotations := annotations[key[|prefix|..] := m[key]];
      }
      left := left - {key};
      assert forall a :: (prefix + a)[|prefix|..] == a;
    }
  }

  ghost predicate ReadLifecycle(m: map<string, string>, meta: RecordMeta) {
    && meta.cid == ""
    && meta.schemaVersion == (if Get(m, SchemaVersion) == "" then DEFAULT_SCHEMA_VERSION else Get(m, SchemaVersion))
    && meta.createdAt == Get(m, CreatedAt)
  }

  /** Custom pairs as they are, and otherwise what is shown of each field. */
  ghost predicate ReadAnnotations(m: map<string, string>, annotations: map<string, string>) {
    && (forall k :: CustomKey(k) in m ==> k in annotations && annotations[k] == m[CustomKey(k)])
    && (forall f :: CustomKey(Key(f)) !in m ==>
          && (Key(f) in annotations <==> Shown(g => Get(m, g), f).Some?)
          && (Key(f) in annotations ==> annotations[Key(f)] == Shown(g => Get(m, g), f).value))
    && (forall a :: a in annotations ==> CustomKey(a) in m || exists f :: a == Key(f))
  }

  /** The metadata of a manifest. */
  ghost predicate IsRead(m: map<string, string>, meta: RecordMeta) {
    ReadLifecycle(m, meta) && ReadAnnotations(m, meta.annotations)
  }

  method ParseManifestAnnotations(m: map<string, string>) returns (meta: RecordMeta)
    ensures IsRead(m, meta)
  {
    var schemaVersion := DEFAULT_SCHEMA_VERSION;
    if Get(m, SchemaVersion) != "" {
      schemaVersion := Get(m, SchemaVersion);
    }
    KeysDistinct();
    var annotations := ShowCustom(Named(Key, f => Shown(g => Get(m, g), f)), m, CUSTOM_PREFIX);
    return RecordMeta("", annotations, schemaVersion, Get(m, CreatedAt));
  }

  // ---------------------------------------------------------------- there and back

  function TextOrEmpty(v: Option<string>): string {
    if v.Some? then v.value else ""
  }

  lemma GetWritten(record: Option<RecordData>, m: map<string, string>, f: Field)
    requires IsManifest(record, m)
    ensures Get(m, f) == TextOrEmpty(Written(record, f))
  {
    if Written(record, f).None? && ManifestKey(f) in m {
      CustomApart(f, "");
      var g :| Written(record, g).Some? && ManifestKey(f) == ManifestKey(g);
      KeysApart(f, g);
    }
  }

  lemma CustomWritten(record: Option<RecordData>, m: map<string, string>, k: string)
    requires IsManifest(record, m)
    ensures CustomKey(k) in m <==> k in CustomOf(record)
    ensures k in CustomOf(record) ==> m[CustomKey(k)] == CustomOf(record)[k]
  {
    if CustomKey(k) in m {
      CustomApart(Type, k);
      if f :| CustomKey(k) == ManifestKey(f) {
        CustomApart(f, k);
      }
    }
  }

  /** The list behind a list field or its count. */
  function NamesOf(d: RecordData, f: Field): seq<string> {
    match f
    case Authors => d.authors
    case AuthorsCount => d.authors
    case Skills => d.skills
    case SkillsCount => d.skills
    case LocatorTypes => d.locatorTypes
    case LocatorTypesCount => d.locatorTypes
    case ExtensionNames => d.extensionNames
    case ExtensionCount => d.extensionNames
    case _ => []
  }

  /** What a reader is to find about a record under a field's simple key. */
  function FieldText(record: Option<RecordData>, f: Field): Option<string> {
    if record.None? then None
    else
      var d := record.value;
      match f
      case Type => None
      case SchemaVersion => None
      case CreatedAt => None
      case OasfVersion => Some(match d.oasf case V1 => "v0.3.1" case V2 => "v0.4.0" case V3 => "v0.5.0")
      case Name => NonEmpty(d.name)
      case Version => NonEmpty(d.version)
      case Description => NonEmpty(d.description)
      case Signed => Some(if d.signature.Some? then "true" else "false")
      case SignatureAlgo => if d.signature.Some? then NonEmpty(d.signature.value.algorithm) else None
      case SignedAt => if d.signature.Some? then NonEmpty(d.signature.value.signedAt) else None
      case PreviousCid => NonEmpty(d.previousCid)
      case Authors => NonEmpty(Join(d.authors, ','))
      case Skills => NonEmpty(Join(d.skills, ','))
      case LocatorTypes => NonEmpty(Join(d.locatorTypes, ','))
      case ExtensionNames => NonEmpty(Join(d.extensionNames, ','))
      case _ => CountText(Join(NamesOf(d, f), ','))
  }

  /** A list field and its count. */
  predicate Counts(count: Field, names: Field) {
    match names
    case Authors => count == AuthorsCount
    case Skills => count == SkillsCount
    case LocatorTypes => count == LocatorTypesCount
    case ExtensionNames => count == ExtensionCount
    case _ => false
  }

  lemma ListText(d: RecordData, names: Field, count: Field)
    requires Counts(count, names)
    ensures FieldText(Some(d), names) == NonEmpty(Join(NamesOf(d, names), ','))
    ensures FieldText(Some(d), count) == CountText(Join(NamesOf(d, names), ','))
  {
  }

  predicate IsCount(f: Field) {
    f.AuthorsCount? || f.SkillsCount? || f.LocatorTypesCount? || f.ExtensionCount?
  }

  lemma PlainShown(record: Option<RecordData>, get: Field -> string, f: Field)
    requires !IsCount(f) && f != SignatureAlgo && f != SignedAt
    requires get(f) == TextOrEmpty(Written(record, f))
    ensures Shown(get, f) == FieldText(record, f)
  {
  }

  lemma SignatureShown(record: Option<RecordData>, get: Field -> string, f: Field)
    requires f == SignatureAlgo || f == SignedAt
    requires get(f) == TextOrEmpty(Written(record, f)) && get(Signed) == TextOrEmpty(Written(record, Signed))
    ensures Shown(get, f) == FieldText(record, f)
  {
    assert |"true"| == 4 && |"false"| == 5;
  }

  lemma CountShown(record: Option<RecordData>, get: Field -> string, names: Field, count: Field)
    requires Counts(count, names)
    requires get(names) == TextOrEmpty(Written(record, names))
    ensures Shown(get, count) == FieldText(record, count)
  {
    if record.Some? {
      ListText(record.value, names, count);
    }
  }

  lemma ShownWritten(record: Option<RecordData>, get: Field -> string, f: Field)
    requires forall g :: get(g) == TextOrEmpty(Written(record, g))
    ensures Shown(get, f) == FieldText(record, f)
  {
    match f
    case SignatureAlgo => SignatureShown(record, get, f);
    case SignedAt => SignatureShown(record, get, f);
    case AuthorsCount => CountShown(record, get, Authors, f);
    case SkillsCount => CountShown(record, get, Skills, f);
    case LocatorTypesCount => CountShown(record, get, LocatorTypes, f);
    case ExtensionCount => CountShown(record, get, ExtensionNames, f);
    case _ => PlainShown(record, get, f);
  }

  lemma FieldReadBack(record: Option<RecordData>, m: map<string, string>, annotations: map<string, string>, f: Field)
    requires IsManifest(record, m) && ReadAnnotations(m, annotations) && Key(f) !in CustomOf(record)
    ensures Key(f) in annotations <==> FieldText(record, f).Some?
    ensures Key(f) in annotations ==> annotations[Key(f)] == FieldText(record, f).value
  {
    CustomWritten(record, m, Key(f));
    forall g ensures Get(m, g) == TextOrEmpty(Written(record, g)) {
      GetWritten(record, m, g);
    }
    ShownWritten(record, g => Get(m, g), f);
  }

  lemma CustomReadBack(record: Option<RecordData>, m: map<string, string>, annotations: map<string, string>, k: string)
    requires IsManifest(record, m) && ReadAnnotations(m, annotations)
    ensures k in CustomOf(record) ==> k in annotations && annotations[k] == CustomOf(record)[k]
    ensures k in annotations ==> k in CustomOf(record) || exists f :: k == Key(f)
  {
    CustomWritten(record, m, k);
  }

  /** The annotations say of the record: every custom pair; for each field without a custom pair of the same
      name what the record says; and nothing else. */
  ghost predicate Tells(record: Option<RecordData>, annotations: map<string, string>) {
    && (forall k :: k in CustomOf(record) ==> k in annotations && annotations[k] == CustomOf(record)[k])
    && (forall f :: Key(f) !in CustomOf(record) ==>
          && (Key(f) in annotations <==> FieldText(record, f).Some?)
          && (Key(f) in annotations ==> annotations[Key(f)] == FieldText(record, f).value))
    && (forall a :: a in annotations ==> a in CustomOf(record) || exists f :: a == Key(f))
  }

  lemma AnnotationsReadBack(record: Option<RecordData>, m: map<string, string>, annotations: map<string, string>)
    requires IsManifest(record, m) && ReadAnnotations(m, annotations)
    ensures Tells(record, annotations)
  {
    forall k ensures k in CustomOf(record) ==> k in annotations && annotations[k] == CustomOf(record)[k]
      ensures k in annotations ==> k in CustomOf(record) || exists f :: k == Key(f)
    {
      CustomReadBack(record, m, annotations, k);
    }
    forall f | Key(f) !in CustomOf(record)
      ensures Key(f) in annotations <==> FieldText(record, f).Some?
      ensures Key(f) in annotations ==> annotations[Key(f)] == FieldText(record, f).value
    {
      FieldReadBack(record, m, annotations, f);
    }
  }

  lemma LifecycleWritten(record: Option<RecordData>)
    ensures TextOrEmpty(Written(record, SchemaVersion)) == if record.None? then "" else record.value.schemaVersion
    ensures TextOrEmpty(Written(record, CreatedAt)) == if record.None? then "" else record.value.createdAt
  {
  }

  /** Reading back what was written for a record tells of the record, with its schema version and creation
      time. */
  lemma ReadBack(record: Option<RecordData>, m: map<string, string>, meta: RecordMeta)
    requires IsManifest(record, m) && IsRead(m, meta)
    ensures Tells(record, meta.annotations)
    ensures meta.schemaVersion == if record.None? || record.value.schemaVersion == "" then "v0.3.1"
                                  else record.value.schemaVersion
    ensures meta.createdAt == if record.None? then "" else record.value.createdAt
  {
    AnnotationsReadBack(record, m, meta.annotations);
    GetWritten(record, m, SchemaVersion);
    GetWritten(record, m, CreatedAt);
    LifecycleWritten(record);
  }

  /** The lists read back whole exactly when their members are names, and then with the right count;
      a list that joins to the empty text is not shown. */
  lemma NamesReadBack(d: RecordData, m: map<string, string>, meta: RecordMeta, names: Field, count: Field)
    requires IsManifest(Some(d), m) && IsRead(m, meta) && Counts(count, names)
    requires Key(names) !in d.custom && Key(count) !in d.custom
    ensures Key(names) in meta.annotations <==> Key(count) in meta.annotations
    ensures Key(names) in meta.annotations <==> Join(NamesOf(d, names), ',') != ""
    ensures Key(names) in meta.annotations ==>
              && (ParseNames(meta.annotations[Key(names)]) == NamesOf(d, names) <==> AllNames(NamesOf(d, names)))
              && (AllNames(NamesOf(d, names)) ==> meta.annotations[Key(count)] == Itoa(|NamesOf(d, names)|))
  {
    FieldReadBack(Some(d), m, meta.annotations, names);
    FieldReadBack(Some(d), m, meta.annotations, count);
    ParseJoinedNames(NamesOf(d, names));
    ListText(d, names, count);
  }
}

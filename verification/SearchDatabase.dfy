/** The search tables, the join-filter-distinct query over them, and the plain meaning of a search. */
module SearchDatabase {
  import opened Text
  import opened SearchFilters

  datatype RecordRow = RecordRow(cid: string, name: string, version: string)

  /** A row of skills (id, name), locators (type, url) or extensions (name, version). */
  datatype ChildRow<K> = ChildRow(cid: string, first: K, second: string)

  datatype Tables = Tables(
    records: seq<RecordRow>,
    skills: seq<ChildRow<nat>>,
    locators: seq<ChildRow<string>>,
    extensions: seq<ChildRow<string>>)

  /** What a record holds that search looks at. */
  datatype Content = Content(
    name: string,
    version: string,
    skills: seq<(nat, string)>,
    locators: seq<(string, string)>,
    extensions: seq<(string, string)>)

  // ---------------------------------------------------------------- adding and removing

  function ChildRows<K>(cid: string, pairs: seq<(K, string)>): seq<ChildRow<K>> {
    seq(|pairs|, i requires 0 <= i < |pairs| => ChildRow(cid, pairs[i].0, pairs[i].1))
  }

  ghost predicate Present(t: Tables, cid: string) {
    exists i :: 0 <= i < |t.records| && t.records[i].cid == cid
  }

  function RecordsWithout(rows: seq<RecordRow>, cid: string): seq<RecordRow> {
    if rows == [] then []
    else
      var rest := RecordsWithout(rows[..|rows| - 1], cid);
      if rows[|rows| - 1].cid == cid then rest else rest + [rows[|rows| - 1]]
  }

  function ChildrenWithout<K>(rows: seq<ChildRow<K>>, cid: string): seq<ChildRow<K>> {
    if rows == [] then []
    else
      var rest := ChildrenWithout(rows[..|rows| - 1], cid);
      if rows[|rows| - 1].cid == cid then rest else rest + [rows[|rows| - 1]]
  }

  ghost function AddEffect(t: Tables, cid: string, c: Content): Tables {
    if Present(t, cid) then t
    else Tables(t.records + [RecordRow(cid, c.name, c.version)],
                t.skills + ChildRows(cid, c.skills),
                t.locators + ChildRows(cid, c.locators),
                t.extensions + ChildRows(cid, c.extensions))
  }

  /** `cascade` says whether the database deletes the child rows along with the record. */
  function RemoveEffect(t: Tables, cid: string, cascade: bool): Tables {
    if cascade then
      Tables(RecordsWithout(t.records, cid), ChildrenWithout(t.skills, cid), ChildrenWithout(t.locators, cid),
             ChildrenWithout(t.extensions, cid))
    else t.(records := RecordsWithout(t.records, cid))
  }

  class Database {
    var tables: Tables

    constructor ()
      ensures tables == Tables([], [], [], [])
    {
      tables := Tables([], [], [], []);
    }

    method AddRecord(cid: string, c: Content)
      modifies this
      ensures tables == AddEffect(old(tables), cid, c)
    {
      for i := 0 to |tables.records|
        invariant tables == old(tables)
        invariant forall j :: 0 <= j < i ==> tables.records[j].cid != cid
      {
        if tables.records[i].cid == cid {
          return;
        }
      }
      tables := Tables(tables.records + [RecordRow(cid, c.name, c.version)],
                       tables.skills + ChildRows(cid, c.skills),
                       tables.locators + ChildRows(cid, c.locators),
                       tables.extensions + ChildRows(cid, c.extensions));
    }

    method RemoveRecord(cid: string, cascade: bool)
      modifies this
      ensures tables == RemoveEffect(old(tables), cid, cascade)
    {
      tables := tables.(records := RecordsWithout(tables.records, cid));
      if cascade {
        tables := tables.(skills := ChildrenWithout(tables.skills, cid),
                          locators := ChildrenWithout(tables.locators, cid),
                          extensions := ChildrenWithout(tables.extensions, cid));
      }
    }
  }

  // ---------------------------------------------------------------- the query

  datatype Table = SkillsTable | LocatorsTable | ExtensionsTable

  datatype Condition =
    | NameLike(pattern: string)
    | VersionIs(version: string)
    | SkillIdIn(ids: seq<nat>)
    | SkillNameIn(names: seq<string>)
    | LocatorTypeIn(types: seq<string>)
    | LocatorUrlIn(urls: seq<string>)
    | ExtensionNameIn(names: seq<string>)
    | ExtensionVersionIn(versions: seq<string>)

  /** A chain of WHERE clauses, all of which must hold. */
  datatype Wheres = Always | And(before: Wheres, last: Condition)

  datatype Query = Query(joins: set<Table>, wheres: Wheres)

  function Where(q: Query, on: bool, c: Condition): Query {
    if on then q.(wheres := And(q.wheres, c)) else q
  }

  function JoinOn(q: Query, on: bool, table: Table): Query {
    if on then q.(joins := q.joins + {table}) else q
  }

  function RecordClauses(q: Query, f: RecordFilters): Query {
    Where(Where(q, f.name != "", NameLike("%" + f.name + "%")), f.version != "", VersionIs(f.version))
  }

  /** A join and up to two conditions for one child table. */
  function ChildClauses(q: Query, table: Table, on1: bool, c1: Condition, on2: bool, c2: Condition): Query {
    Where(Where(JoinOn(q, on1 || on2, table), on1, c1), on2, c2)
  }

  /** The query built up from a filter struct, clause by clause. */
  function QueryFor(f: RecordFilters): Query {
    var records := RecordClauses(Query({}, Always), f);
    var skills := ChildClauses(records, SkillsTable, f.skillIds != [], SkillIdIn(f.skillIds), f.skillNames != [],
                               SkillNameIn(f.skillNames));
    var locators := ChildClauses(skills, LocatorsTable, f.locatorTypes != [], LocatorTypeIn(f.locatorTypes),
                                 f.locatorUrls != [], LocatorUrlIn(f.locatorUrls));
    ChildClauses(locators, ExtensionsTable, f.extensionNames != [], ExtensionNameIn(f.extensionNames),
                 f.extensionVersions != [], ExtensionVersionIn(f.extensionVersions))
  }

  /** One row of the join; a table that is not joined contributes nothing. */
  datatype Tuple = Tuple(record: RecordRow, skill: Option<ChildRow<nat>>, locator: Option<ChildRow<string>>,
                         extension: Option<ChildRow<string>>)

  predicate Satisfies(c: Condition, x: Tuple, like: (string, string) -> bool) {
    match c
    case NameLike(pattern) => like(x.record.name, pattern)
    case VersionIs(version) => x.record.version == version
    case SkillIdIn(ids) => x.skill.Some? && x.skill.value.first in ids
    case SkillNameIn(names) => x.skill.Some? && x.skill.value.second in names
    case LocatorTypeIn(types) => x.locator.Some? && x.locator.value.first in types
    case LocatorUrlIn(urls) => x.locator.Some? && x.locator.value.second in urls
    case ExtensionNameIn(names) => x.extension.Some? && x.extension.value.first in names
    case ExtensionVersionIn(versions) => x.extension.Some? && x.extension.value.second in versions
  }

  predicate SatisfiesAll(w: Wheres, x: Tuple, like: (string, string) -> bool) {
    w.And? ==> SatisfiesAll(w.before, x, like) && Satisfies(w.last, x, like)
  }

  /** What a table contributes to the join for one record. */
  function Joined<K>(joined: bool, rows: seq<ChildRow<K>>, cid: string): seq<Option<ChildRow<K>>> {
    if !joined then [None]
    else if rows == [] then []
    else
      var rest := Joined(true, rows[..|rows| - 1], cid);
      if rows[|rows| - 1].cid == cid then rest + [Some(rows[|rows| - 1])] else rest
  }

  function ScanExtensions(q: Query, like: (string, string) -> bool, r: RecordRow, s: Option<ChildRow<nat>>,
                          l: Option<ChildRow<string>>,
                          es: seq<Option<ChildRow<string>>>): seq<RecordRow> {
    if es == [] then []
    else
      (if SatisfiesAll(q.wheres, Tuple(r, s, l, es[0]), like) then [r] else [])
        + ScanExtensions(q, like, r, s, l, es[1..])
  }

  function ScanLocators(q: Query, like: (string, string) -> bool, r: RecordRow, s: Option<ChildRow<nat>>,
                        ls: seq<Option<ChildRow<string>>>, es: seq<Option<ChildRow<string>>>): seq<RecordRow> {
    if ls == [] then [] else ScanExtensions(q, like, r, s, ls[0], es) + ScanLocators(q, like, r, s, ls[1..], es)
  }

  function ScanSkills(q: Query, like: (string, string) -> bool, r: RecordRow, ss: seq<Option<ChildRow<nat>>>,
                      ls: seq<Option<ChildRow<string>>>, es: seq<Option<ChildRow<string>>>): seq<RecordRow> {
    if ss == [] then [] else ScanLocators(q, like, r, ss[0], ls, es) + ScanSkills(q, like, r, ss[1..], ls, es)
  }

  /** The record column of every row of the join that meets all conditions, record by record. */
  function ScanRecords(t: Tables, q: Query, like: (string, string) -> bool, rows: seq<RecordRow>): seq<RecordRow> {
    if rows == [] then []
    else
      var r := rows[0];
      ScanSkills(q, like, r, Joined(SkillsTable in q.joins, t.skills, r.cid),
                 Joined(LocatorsTable in q.joins, t.locators, r.cid),
                 Joined(ExtensionsTable in q.joins, t.extensions, r.cid))
      + ScanRecords(t, q, like, rows[1..])
  }

  /** SELECT DISTINCT: the first occurrence of each row. */
  function Distinct<T(==)>(xs: seq<T>): seq<T> {
    if xs == [] then []
    else
      var rest, last := Distinct(xs[..|xs| - 1]), xs[|xs| - 1];
      if last in rest then rest else rest + [last]
  }

  function Cids(rows: seq<RecordRow>): seq<string> {
    seq(|rows|, i requires 0 <= i < |rows| => rows[i].cid)
  }

  /** LIMIT and OFFSET, applied only when positive. */
  function Page<T>(xs: seq<T>, limit: int, offset: int): seq<T> {
    var from := if 0 < offset then (if offset <= |xs| then offset else |xs|) else 0;
    var rest := xs[from..];
    if 0 < limit < |rest| then rest[..limit] else rest
  }

  /** Each of the selected values once, in an order the database chooses. */
  ghost predicate Arranges<T(!new)>(full: seq<T>, selected: seq<T>) {
    NoDup(full) && forall x :: x in full <==> x in selected
  }

  /** A page of such an order: without ORDER BY, every one of them may be returned. */
  ghost predicate IsAnswer<T(!new)>(out: seq<T>, selected: seq<T>, limit: int, offset: int) {
    exists full :: Arranges(full, selected) && out == Page(full, limit, offset)
  }

  /** What GetRecords may return: distinct record rows. */
  ghost predicate GetRecords(t: Tables, f: RecordFilters, like: (string, string) -> bool, out: seq<RecordRow>) {
    IsAnswer(out, ScanRecords(t, QueryFor(f), like, t.records), f.limit, f.offset)
  }

  /** What GetRecordCIDs may return: distinct CIDs, in an order of its own. */
  ghost predicate GetRecordCids(t: Tables, f: RecordFilters, like: (string, string) -> bool, out: seq<string>) {
    IsAnswer(out, Cids(ScanRecords(t, QueryFor(f), like, t.records)), f.limit, f.offset)
  }

  // ---------------------------------------------------------------- the plain meaning

  /** A child table passes when neither filter is set, or one single row meets every filter that is. */
  ghost predicate ChildAccepts<K(!new)>(firsts: seq<K>, seconds: seq<string>, pairs: seq<(K, string)>) {
    || (firsts == [] && seconds == [])
    || exists p :: p in pairs && (firsts == [] || p.0 in firsts) && (seconds == [] || p.1 in seconds)
  }

  ghost predicate Accepts(f: RecordFilters, c: Content, like: (string, string) -> bool) {
    && (f.name == "" || like(c.name, "%" + f.name + "%"))
    && (f.version == "" || c.version == f.version)
    && ChildAccepts(f.skillIds, f.skillNames, c.skills)
    && ChildAccepts(f.locatorTypes, f.locatorUrls, c.locators)
    && ChildAccepts(f.extensionNames, f.extensionVersions, c.extensions)
  }

  // ---------------------------------------------------------------- runs

  datatype Step = Add(cid: string) | Remove(cid: string, cascade: bool)

  ghost function Apply(t: Tables, contentOf: string -> Content, step: Step): Tables {
    match step
    case Add(cid) => AddEffect(t, cid, contentOf(cid))
    case Remove(cid, cascade) => RemoveEffect(t, cid, cascade)
  }

  ghost predicate IsRun(contentOf: string -> Content, states: seq<Tables>, steps: seq<Step>) {
    && |states| == |steps| + 1
    && states[0] == Tables([], [], [], [])
    && forall i :: 0 <= i < |steps| ==> states[i + 1] == Apply(states[i], contentOf, steps[i])
  }

  /** Child rows say only what their record holds, and for present records they say all of it. */
  ghost predicate ChildrenOk<K(!new)>(rows: seq<ChildRow<K>>, present: iset<string>,
                                      pairsOf: string -> seq<(K, string)>) {
    && (forall i :: 0 <= i < |rows| ==> (rows[i].first, rows[i].second) in pairsOf(rows[i].cid))
    && (forall cid, p :: cid in present && p in pairsOf(cid) ==> ChildRow(cid, p.0, p.1) in rows)
  }

  ghost function PresentSet(t: Tables): iset<string> {
    iset cid | Present(t, cid)
  }

  function SkillsOf(contentOf: string -> Content): string -> seq<(nat, string)> {
    (cid: string) => contentOf(cid).skills
  }

  function LocatorsOf(contentOf: string -> Content): string -> seq<(string, string)> {
    (cid: string) => contentOf(cid).locators
  }

  function ExtensionsOf(contentOf: string -> Content): string -> seq<(string, string)> {
    (cid: string) => contentOf(cid).extensions
  }

  ghost predicate RecordsOk(rows: seq<RecordRow>, contentOf: string -> Content) {
    && (forall i, j :: 0 <= i < j < |rows| ==> rows[i].cid != rows[j].cid)
    && (forall i :: 0 <= i < |rows| ==>
        rows[i] == RecordRow(rows[i].cid, contentOf(rows[i].cid).name, contentOf(rows[i].cid).version))
  }

  ghost predicate Inv(t: Tables, contentOf: string -> Content) {
    && RecordsOk(t.records, contentOf)
    && ChildrenOk(t.skills, PresentSet(t), SkillsOf(contentOf))
    && ChildrenOk(t.locators, PresentSet(t), LocatorsOf(contentOf))
    && ChildrenOk(t.extensions, PresentSet(t), ExtensionsOf(contentOf))
  }

  // ---------------------------------------------------------------- steps keep the invariant

  lemma {:induction false} RecordsWithoutMembers(rows: seq<RecordRow>, cid: string)
    ensures forall r :: r in RecordsWithout(rows, cid) <==> r in rows && r.cid != cid
    decreases |rows|
  {
    if rows != [] {
      RecordsWithoutMembers(rows[..|rows| - 1], cid);
      assert rows == rows[..|rows| - 1] + [rows[|rows| - 1]];
    }
  }

  lemma {:induction false} RecordsWithoutFacts(rows: seq<RecordRow>, cid: string)
    requires forall i, j :: 0 <= i < j < |rows| ==> rows[i].cid != rows[j].cid
    ensures var kept := RecordsWithout(rows, cid);
            && (forall r :: r in kept <==> r in rows && r.cid != cid)
            && forall i, j :: 0 <= i < j < |kept| ==> kept[i].cid != kept[j].cid
    decreases |rows|
  {
    RecordsWithoutMembers(rows, cid);
    if rows != [] {
      var init, last := rows[..|rows| - 1], rows[|rows| - 1];
      RecordsWithoutFacts(init, cid);
      var rest := RecordsWithout(init, cid);
      forall i | 0 <= i < |rest| ensures rest[i].cid != last.cid {
        assert rest[i] in init;
      }
    }
  }

  lemma {:induction false} ChildrenWithoutFacts<K>(rows: seq<ChildRow<K>>, cid: string)
    ensures forall i :: 0 <= i < |ChildrenWithout(rows, cid)| ==> ChildrenWithout(rows, cid)[i] in rows
    ensures forall i :: 0 <= i < |rows| && rows[i].cid != cid ==> rows[i] in ChildrenWithout(rows, cid)
    decreases |rows|
  {
    if rows != [] {
      ChildrenWithoutFacts(rows[..|rows| - 1], cid);
      assert rows == rows[..|rows| - 1] + [rows[|rows| - 1]];
    }
  }

  lemma ChildrenAdded<K(!new)>(rows: seq<ChildRow<K>>, present: iset<string>, pairsOf: string -> seq<(K, string)>,
                               cid: string)
    requires ChildrenOk(rows, present, pairsOf)
    ensures ChildrenOk(rows + ChildRows(cid, pairsOf(cid)), present + iset{cid}, pairsOf)
  {
    var added := ChildRows(cid, pairsOf(cid));
    forall p | p in pairsOf(cid) ensures ChildRow(cid, p.0, p.1) in added {
      var i :| 0 <= i < |pairsOf(cid)| && pairsOf(cid)[i] == p;
      assert added[i] == ChildRow(cid, p.0, p.1);
    }
  }

  lemma ChildrenRemoved<K(!new)>(rows: seq<ChildRow<K>>, present: iset<string>, pairsOf: string -> seq<(K, string)>,
                                 cid: string)
    requires ChildrenOk(rows, present, pairsOf)
    ensures ChildrenOk(ChildrenWithout(rows, cid), present - iset{cid}, pairsOf)
    ensures ChildrenOk(rows, present - iset{cid}, pairsOf)
  {
    ChildrenWithoutFacts(rows, cid);
    var kept := ChildrenWithout(rows, cid);
    forall i | 0 <= i < |kept| ensures (kept[i].first, kept[i].second) in pairsOf(kept[i].cid) {
      var j :| 0 <= j < |rows| && rows[j] == kept[i];
    }
  }

  lemma PresentIn(t: Tables, cid: string)
    ensures Present(t, cid) <==> exists r :: r in t.records && r.cid == cid
  {
  }

  lemma StepKeepsInv(t: Tables, contentOf: string -> Content, step: Step)
    requires Inv(t, contentOf)
    ensures Inv(Apply(t, contentOf, step), contentOf)
    ensures PresentSet(Apply(t, contentOf, step)) == if step.Add? then PresentSet(t) + iset{step.cid}
            else PresentSet(t) - iset{step.cid}
  {
    var t' := Apply(t, contentOf, step);
    var cid := step.cid;
    if step.Add? {
      if !Present(t, cid) {
        forall c ensures Present(t', c) <==> Present(t, c) || c == cid {
          if Present(t, c) {
            var i :| 0 <= i < |t.records| && t.records[i].cid == c;
            assert t'.records[i].cid == c;
          }
          assert t'.records[|t.records|].cid == cid;
        }
        assert PresentSet(t') == PresentSet(t) + iset{cid};
        ChildrenAdded(t.skills, PresentSet(t), SkillsOf(contentOf), cid);
        ChildrenAdded(t.locators, PresentSet(t), LocatorsOf(contentOf), cid);
        ChildrenAdded(t.extensions, PresentSet(t), ExtensionsOf(contentOf), cid);
      } else {
        assert PresentSet(t') == PresentSet(t) + iset{cid};
      }
    } else {
      RecordsWithoutFacts(t.records, cid);
      forall c ensures Present(t', c) <==> Present(t, c) && c != cid {
        PresentIn(t, c);
        PresentIn(t', c);
      }
      assert PresentSet(t') == PresentSet(t) - iset{cid};
      forall i | 0 <= i < |t'.records|
        ensures t'.records[i] == RecordRow(t'.records[i].cid, contentOf(t'.records[i].cid).name,
                                           contentOf(t'.records[i].cid).version) {
        assert t'.records[i] in t.records;
      }
      ChildrenRemoved(t.skills, PresentSet(t), SkillsOf(contentOf), cid);
      ChildrenRemoved(t.locators, PresentSet(t), LocatorsOf(contentOf), cid);
      ChildrenRemoved(t.extensions, PresentSet(t), ExtensionsOf(contentOf), cid);
    }
  }

  lemma {:induction false} InvInRuns(contentOf: string -> Content, states: seq<Tables>, steps: seq<Step>, i: nat)
    requires IsRun(contentOf, states, steps) && i <= |steps|
    ensures Inv(states[i], contentOf)
  {
    if i > 0 {
      InvInRuns(contentOf, states, steps, i - 1);
      StepKeepsInv(states[i - 1], contentOf, steps[i - 1]);
    } else {
      assert forall cid :: !Present(states[0], cid);
    }
  }

  // ---------------------------------------------------------------- what the query selects

  ghost predicate ColumnAccepts<K(!new)>(firsts: seq<K>, seconds: seq<string>, x: Option<ChildRow<K>>) {
    && (firsts == [] || (x.Some? && x.value.first in firsts))
    && (seconds == [] || (x.Some? && x.value.second in seconds))
  }

  ghost predicate RecordAccepts(f: RecordFilters, x: Tuple, like: (string, string) -> bool) {
    && (f.name == "" || like(x.record.name, "%" + f.name + "%"))
    && (f.version == "" || x.record.version == f.version)
  }

  ghost predicate TupleAccepts(f: RecordFilters, x: Tuple, like: (string, string) -> bool) {
    && RecordAccepts(f, x, like)
    && ColumnAccepts(f.skillIds, f.skillNames, x.skill)
    && ColumnAccepts(f.locatorTypes, f.locatorUrls, x.locator)
    && ColumnAccepts(f.extensionNames, f.extensionVersions, x.extension)
  }

  lemma ChildClausesMean(q: Query, table: Table, on1: bool, c1: Condition, on2: bool, c2: Condition, x: Tuple,
                         like: (string, string) -> bool)
    ensures var q' := ChildClauses(q, table, on1, c1, on2, c2);
            && (SatisfiesAll(q'.wheres, x, like) <==>
                  && SatisfiesAll(q.wheres, x, like)
                  && (on1 ==> Satisfies(c1, x, like)) && (on2 ==> Satisfies(c2, x, like)))
            && q'.joins == if on1 || on2 then q.joins + {table} else q.joins
  {
  }

  lemma RecordClausesMean(q: Query, f: RecordFilters, x: Tuple, like: (string, string) -> bool)
    ensures SatisfiesAll(RecordClauses(q, f).wheres, x, like) <==>
            SatisfiesAll(q.wheres, x, like) && RecordAccepts(f, x, like)
    ensures RecordClauses(q, f).joins == q.joins
  {
  }

  lemma QueryMeans(f: RecordFilters, x: Tuple, like: (string, string) -> bool)
    ensures SatisfiesAll(QueryFor(f).wheres, x, like) <==> TupleAccepts(f, x, like)
    ensures SkillsTable in QueryFor(f).joins <==> f.skillIds != [] || f.skillNames != []
    ensures LocatorsTable in QueryFor(f).joins <==> f.locatorTypes != [] || f.locatorUrls != []
    ensures ExtensionsTable in QueryFor(f).joins <==> f.extensionNames != [] || f.extensionVersions != []
  {
    var q1 := RecordClauses(Query({}, Always), f);
    RecordClausesMean(Query({}, Always), f, x, like);
    ChildClausesMean(q1, SkillsTable, f.skillIds != [], SkillIdIn(f.skillIds), f.skillNames != [],
                     SkillNameIn(f.skillNames), x, like);
    var q2 := ChildClauses(q1, SkillsTable, f.skillIds != [], SkillIdIn(f.skillIds), f.skillNames != [],
                           SkillNameIn(f.skillNames));
    ChildClausesMean(q2, LocatorsTable, f.locatorTypes != [], LocatorTypeIn(f.locatorTypes), f.locatorUrls != [],
                     LocatorUrlIn(f.locatorUrls), x, like);
    var q3 := ChildClauses(q2, LocatorsTable, f.locatorTypes != [], LocatorTypeIn(f.locatorTypes), f.locatorUrls != [],
                           LocatorUrlIn(f.locatorUrls));
    ChildClausesMean(q3, ExtensionsTable, f.extensionNames != [], ExtensionNameIn(f.extensionNames),
                     f.extensionVersions != [], ExtensionVersionIn(f.extensionVersions), x, like);
  }

  lemma {:induction false} JoinedMembers<K>(joined: bool, rows: seq<ChildRow<K>>, cid: string)
    ensures forall x :: x in Joined(joined, rows, cid) <==>
              if joined then x.Some? && x.value in rows && x.value.cid == cid else x == None
    decreases |rows|
  {
    if joined && rows != [] {
      JoinedMembers(true, rows[..|rows| - 1], cid);
      assert rows == rows[..|rows| - 1] + [rows[|rows| - 1]];
    }
  }

  lemma {:induction false} ScanExtensionsMembers(q: Query, like: (string, string) -> bool, r: RecordRow,
                                                 s: Option<ChildRow<nat>>,
                                                 l: Option<ChildRow<string>>, es: seq<Option<ChildRow<string>>>)
    ensures forall x :: x in ScanExtensions(q, like, r, s, l, es) <==>
            x == r && exists e :: e in es && SatisfiesAll(q.wheres, Tuple(r, s, l, e), like)
    decreases |es|
  {
    if es != [] {
      ScanExtensionsMembers(q, like, r, s, l, es[1..]);
      assert es == [es[0]] + es[1..];
    }
  }

  lemma {:induction false} ScanLocatorsMembers(q: Query, like: (string, string) -> bool, r: RecordRow,
                                               s: Option<ChildRow<nat>>,
                                               ls: seq<Option<ChildRow<string>>>, es: seq<Option<ChildRow<string>>>)
    ensures forall x :: x in ScanLocators(q, like, r, s, ls, es) <==>
                        x == r && exists l, e :: l in ls && e in es && SatisfiesAll(q.wheres, Tuple(r, s, l, e), like)
    decreases |ls|
  {
    if ls != [] {
      ScanLocatorsMembers(q, like, r, s, ls[1..], es);
      ScanExtensionsMembers(q, like, r, s, ls[0], es);
      assert ls == [ls[0]] + ls[1..];
    }
  }

  lemma {:induction false} ScanSkillsMembers(q: Query, like: (string, string) -> bool, r: RecordRow,
                                             ss: seq<Option<ChildRow<nat>>>,
                                             ls: seq<Option<ChildRow<string>>>, es: seq<Option<ChildRow<string>>>)
    ensures forall x :: x in ScanSkills(q, like, r, ss, ls, es) <==>
              && x == r
              && exists s, l, e :: s in ss && l in ls && e in es && SatisfiesAll(q.wheres, Tuple(r, s, l, e), like)
    decreases |ss|
  {
    if ss != [] {
      ScanSkillsMembers(q, like, r, ss[1..], ls, es);
      ScanLocatorsMembers(q, like, r, ss[0], ls, es);
      assert ss == [ss[0]] + ss[1..];
    }
  }

  /** Some row of the join of r with the tables meets all conditions. */
  ghost predicate Selected(t: Tables, q: Query, like: (string, string) -> bool, r: RecordRow) {
    exists s, l, e ::
      && s in Joined(SkillsTable in q.joins, t.skills, r.cid)
      && l in Joined(LocatorsTable in q.joins, t.locators, r.cid)
      && e in Joined(ExtensionsTable in q.joins, t.extensions, r.cid)
      && SatisfiesAll(q.wheres, Tuple(r, s, l, e), like)
  }

  lemma {:induction false} ScanRecordsMembers(t: Tables, q: Query, like: (string, string) -> bool, rows: seq<RecordRow>)
    ensures forall r :: r in ScanRecords(t, q, like, rows) <==> r in rows && Selected(t, q, like, r)
    decreases |rows|
  {
    if rows != [] {
      var r := rows[0];
      ScanRecordsMembers(t, q, like, rows[1..]);
      ScanSkillsMembers(q, like, r, Joined(SkillsTable in q.joins, t.skills, r.cid),
                        Joined(LocatorsTable in q.joins, t.locators, r.cid),
                        Joined(ExtensionsTable in q.joins, t.extensions, r.cid));
      assert rows == [r] + rows[1..];
    }
  }

  /** One table's contribution: a joined row meeting the filters exists exactly when the record's content passes. */
  lemma ChildColumn<K(!new)>(firsts: seq<K>, seconds: seq<string>, rows: seq<ChildRow<K>>, present: iset<string>,
                             pairsOf: string -> seq<(K, string)>, cid: string)
    requires ChildrenOk(rows, present, pairsOf) && cid in present
    ensures ChildAccepts(firsts, seconds, pairsOf(cid)) <==>
            exists x :: x in Joined(firsts != [] || seconds != [], rows, cid) && ColumnAccepts(firsts, seconds, x)
  {
    var joined := firsts != [] || seconds != [];
    JoinedMembers(joined, rows, cid);
    if !joined {
      var none: Option<ChildRow<K>> := None;
      assert none in Joined(joined, rows, cid) && ColumnAccepts(firsts, seconds, none);
    } else {
      if ChildAccepts(firsts, seconds, pairsOf(cid)) {
        var p :| p in pairsOf(cid) && (firsts == [] || p.0 in firsts) && (seconds == [] || p.1 in seconds);
        assert Some(ChildRow(cid, p.0, p.1)) in Joined(joined, rows, cid);
      }
      if x :| x in Joined(joined, rows, cid) && ColumnAccepts(firsts, seconds, x) {
        var i :| 0 <= i < |rows| && rows[i] == x.value;
        assert (rows[i].first, rows[i].second) in pairsOf(cid);
      }
    }
  }

  lemma SelectedMeans(t: Tables, contentOf: string -> Content, f: RecordFilters, like: (string, string) -> bool,
                      r: RecordRow)
    requires Inv(t, contentOf) && r in t.records
    ensures Selected(t, QueryFor(f), like, r) <==> Accepts(f, contentOf(r.cid), like)
  {
    var q := QueryFor(f);
    var c := contentOf(r.cid);
    assert r.cid in PresentSet(t) by { PresentIn(t, r.cid); }
    assert r.name == c.name && r.version == c.version;
    QueryMeans(f, Tuple(r, None, None, None), like);
    ChildColumn(f.skillIds, f.skillNames, t.skills, PresentSet(t), SkillsOf(contentOf), r.cid);
    ChildColumn(f.locatorTypes, f.locatorUrls, t.locators, PresentSet(t), LocatorsOf(contentOf), r.cid);
    ChildColumn(f.extensionNames, f.extensionVersions, t.extensions, PresentSet(t), ExtensionsOf(contentOf), r.cid);
    if Selected(t, q, like, r) {
      var s, l, e :|
        && s in Joined(SkillsTable in q.joins, t.skills, r.cid)
        && l in Joined(LocatorsTable in q.joins, t.locators, r.cid)
        && e in Joined(ExtensionsTable in q.joins, t.extensions, r.cid)
        && SatisfiesAll(q.wheres, Tuple(r, s, l, e), like);
      QueryMeans(f, Tuple(r, s, l, e), like);
    }
    if Accepts(f, c, like) {
      var s :| s in Joined(SkillsTable in q.joins, t.skills, r.cid) && ColumnAccepts(f.skillIds, f.skillNames, s);
      var l :| l in Joined(LocatorsTable in q.joins, t.locators, r.cid)
          && ColumnAccepts(f.locatorTypes, f.locatorUrls, l);
      var e :| e in Joined(ExtensionsTable in q.joins, t.extensions, r.cid)
          && ColumnAccepts(f.extensionNames, f.extensionVersions, e);
      QueryMeans(f, Tuple(r, s, l, e), like);
    }
  }

  // ---------------------------------------------------------------- distinct

  lemma {:induction false} DistinctFacts<T>(xs: seq<T>)
    ensures NoDup(Distinct(xs)) && forall x :: x in Distinct(xs) <==> x in xs
    decreases |xs|
  {
    if xs != [] {
      DistinctFacts(xs[..|xs| - 1]);
      assert xs == xs[..|xs| - 1] + [xs[|xs| - 1]];
    }
  }

  lemma CidsMembers(rows: seq<RecordRow>)
    ensures forall cid :: cid in Cids(rows) <==> exists r :: r in rows && r.cid == cid
  {
    forall cid | cid in Cids(rows) ensures exists r :: r in rows && r.cid == cid {
      var i :| 0 <= i < |rows| && Cids(rows)[i] == cid;
      assert rows[i] in rows;
    }
    forall r | r in rows ensures r.cid in Cids(rows) {
      var i :| 0 <= i < |rows| && rows[i] == r;
      assert Cids(rows)[i] == r.cid;
    }
  }

  /** There always is an answer. */
  lemma AnswerExists<T(!new)>(selected: seq<T>, limit: int, offset: int)
    ensures IsAnswer(Page(Distinct(selected), limit, offset), selected, limit, offset)
  {
    DistinctFacts(selected);
    assert Arranges(Distinct(selected), selected);
  }

  lemma {:induction false} NoDupSize<T>(xs: seq<T>)
    requires NoDup(xs)
    ensures |set x | x in xs| == |xs|
    decreases |xs|
  {
    if xs != [] {
      var init, last := xs[..|xs| - 1], xs[|xs| - 1];
      NoDupSize(init);
      assert (set x | x in xs) == (set x | x in init) + {last};
    }
  }

  /** How much of n rows a page holds. */
  function PageLength(n: nat, limit: int, offset: int): nat {
    var rest := if 0 < offset then (if offset <= n then n - offset else 0) else n;
    if 0 < limit < rest then limit else rest
  }

  lemma PageMembers<T>(full: seq<T>, limit: int, offset: int)
    ensures |Page(full, limit, offset)| == PageLength(|full|, limit, offset)
    ensures NoDup(full) ==> NoDup(Page(full, limit, offset))
    ensures forall x :: x in Page(full, limit, offset) ==> x in full
    ensures limit <= 0 && offset <= 0 ==> Page(full, limit, offset) == full
  {
  }

  /** What all answers have in common: without paging all selected values, and always equally many. */
  lemma AnswerFacts<T(!new)>(out: seq<T>, selected: seq<T>, limit: int, offset: int)
    requires IsAnswer(out, selected, limit, offset)
    ensures NoDup(out) && forall x :: x in out ==> x in selected
    ensures limit <= 0 && offset <= 0 ==> Arranges(out, selected)
    ensures |out| == PageLength(|set x | x in selected|, limit, offset)
  {
    var full :| Arranges(full, selected) && out == Page(full, limit, offset);
    PageMembers(full, limit, offset);
    NoDupSize(full);
    assert (set x | x in full) == (set x | x in selected);
  }

  lemma {:induction false} DistinctHead<T>(x: T, xs: seq<T>)
    ensures |Distinct([x] + xs)| > 0 && Distinct([x] + xs)[0] == x
    decreases |xs|
  {
    if xs == [] {
      assert [x] + xs == [x] && [x][..0] == [];
      assert Distinct([x][..0]) == [];
    } else {
      var n := |xs| - 1;
      assert ([x] + xs)[..|xs|] == [x] + xs[..n];
      DistinctHead(x, xs[..n]);
    }
  }

  /** Any selected value may be all there is on a first page of one: pages are not determined. */
  lemma AnyFirstPage<T(!new)>(selected: seq<T>, x: T)
    requires x in selected
    ensures IsAnswer([x], selected, 1, 0)
  {
    var full := Distinct([x] + selected);
    DistinctHead(x, selected);
    DistinctFacts([x] + selected);
    assert Arranges(full, selected);
    assert Page(full, 1, 0) == [x];
  }

  // ---------------------------------------------------------------- the main results

  /** What a scan selects: the rows of the present CIDs whose content passes, and no two of one CID. */
  lemma ScanMeans(t: Tables, contentOf: string -> Content, f: RecordFilters, like: (string, string) -> bool)
    requires Inv(t, contentOf)
    ensures var found := ScanRecords(t, QueryFor(f), like, t.records);
            && (forall r, r' :: r in found && r' in found && r.cid == r'.cid ==> r == r')
            && (forall cid :: cid in Cids(found) <==> Present(t, cid) && Accepts(f, contentOf(cid), like))
            && (forall cid :: cid in Cids(found) <==> exists r :: r in found && r.cid == cid)
  {
    var found := ScanRecords(t, QueryFor(f), like, t.records);
    ScanRecordsMembers(t, QueryFor(f), like, t.records);
    CidsMembers(found);
    forall cid ensures cid in Cids(found) <==> Present(t, cid) && Accepts(f, contentOf(cid), like) {
      PresentIn(t, cid);
      forall r | r in t.records && r.cid == cid
        ensures Selected(t, QueryFor(f), like, r) <==> Accepts(f, contentOf(cid), like)
      {
        SelectedMeans(t, contentOf, f, like, r);
      }
    }
    forall r, r' | r in found && r' in found && r.cid == r'.cid ensures r == r' {
      assert r in t.records && r' in t.records;
    }
  }

  lemma UnpagedSearch(t: Tables, contentOf: string -> Content, f: RecordFilters, like: (string, string) -> bool,
                      out: seq<string>)
    requires Inv(t, contentOf) && f.limit <= 0 && f.offset <= 0 && GetRecordCids(t, f, like, out)
    ensures NoDup(out) && forall cid :: cid in out <==> Present(t, cid) && Accepts(f, contentOf(cid), like)
  {
    ScanMeans(t, contentOf, f, like);
    AnswerFacts(out, Cids(ScanRecords(t, QueryFor(f), like, t.records)), f.limit, f.offset);
  }

  /** After any additions and removals, with or without cascading, and in whatever order rows come, a
      search without paging returns, each once, exactly the present CIDs whose content passes all filters. */
  lemma SearchExactInRuns(contentOf: string -> Content, states: seq<Tables>, steps: seq<Step>, i: nat,
                          f: RecordFilters, like: (string, string) -> bool, out: seq<string>)
    requires IsRun(contentOf, states, steps) && i <= |steps|
    requires f.limit <= 0 && f.offset <= 0 && GetRecordCids(states[i], f, like, out)
    ensures NoDup(out) && forall cid :: cid in out <==> Present(states[i], cid) && Accepts(f, contentOf(cid), like)
  {
    InvInRuns(contentOf, states, steps, i);
    UnpagedSearch(states[i], contentOf, f, like, out);
  }

  lemma PageOfCids(rows: seq<RecordRow>, limit: int, offset: int)
    ensures Cids(Page(rows, limit, offset)) == Page(Cids(rows), limit, offset)
  {
  }

  /** Where a CID fixes its row, the CIDs of returned rows are an answer to the query for CIDs. */
  lemma RowsAnswerCids(rows: seq<RecordRow>, found: seq<RecordRow>, limit: int, offset: int)
    requires IsAnswer(rows, found, limit, offset)
    requires forall r, r' :: r in found && r' in found && r.cid == r'.cid ==> r == r'
    ensures IsAnswer(Cids(rows), Cids(found), limit, offset)
  {
    var full :| Arranges(full, found) && rows == Page(full, limit, offset);
    CidsMembers(full);
    CidsMembers(found);
    forall i, j | 0 <= i < j < |full| ensures Cids(full)[i] != Cids(full)[j] {
      assert full[i] in found && full[j] in found;
    }
    assert Arranges(Cids(full), Cids(found));
    PageOfCids(full, limit, offset);
  }

  /** In every reachable state, with GetRecords and GetRecordCIDs each in its own row order: both return
      only CIDs that pass, none twice, and as many; and without paging the same ones. */
  lemma CidsOfRecordsInRuns(contentOf: string -> Content, states: seq<Tables>, steps: seq<Step>, i: nat,
                            f: RecordFilters, like: (string, string) -> bool, rows: seq<RecordRow>, cids: seq<string>)
    requires IsRun(contentOf, states, steps) && i <= |steps|
    requires GetRecords(states[i], f, like, rows) && GetRecordCids(states[i], f, like, cids)
    ensures |rows| == |cids| && NoDup(cids) && NoDup(Cids(rows))
    ensures forall cid :: cid in cids || cid in Cids(rows) ==>
            Present(states[i], cid) && Accepts(f, contentOf(cid), like)
    ensures f.limit <= 0 && f.offset <= 0 ==> forall cid :: cid in Cids(rows) <==> cid in cids
  {
    var found := ScanRecords(states[i], QueryFor(f), like, states[i].records);
    InvInRuns(contentOf, states, steps, i);
    ScanMeans(states[i], contentOf, f, like);
    RowsAnswerCids(rows, found, f.limit, f.offset);
    AnswerFacts(Cids(rows), Cids(found), f.limit, f.offset);
    AnswerFacts(cids, Cids(found), f.limit, f.offset);
  }

  /** A list of search queries is answered by the present CIDs whose content passes the filters that
      the last query of each kind sets. */
  lemma QueriesAnswered(t: Tables, contentOf: string -> Content, queries: seq<RecordQuery>,
                        like: (string, string) -> bool, out: seq<string>)
    requires Inv(t, contentOf) && OptionsOfAll(queries).Some?
    requires GetRecordCids(t, ApplyAll(NO_FILTERS, OptionsOfAll(queries).value), like, out)
    ensures NoDup(out)
    ensures forall cid :: cid in out <==> Present(t, cid) && Accepts(LastSaid(queries), contentOf(cid), like)
  {
    LastQueryDecides(queries);
    UnpagedSearch(t, contentOf, LastSaid(queries), like, out);
  }
}

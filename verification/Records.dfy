/** The part of a record that routing reads, and the labels it gives rise to. */
module Records {
  import opened Text
  import opened LabelKeys

  const DOMAIN_SCHEMA_PREFIX := "schema.oasf.agntcy.org/domains/"
  const FEATURES_SCHEMA_PREFIX := "schema.oasf.agntcy.org/features/"

  /** Skill names, extension names and locator types; NoData when no adapter fits the record. */
  datatype Record = NoData | Data(skills: seq<string>, extensions: seq<string>, locators: seq<string>)

  function Prefixed(prefix: string, names: seq<string>): seq<string> {
    if names == [] then [] else Prefixed(prefix, names[..|names| - 1]) + [prefix + names[|names| - 1]]
  }

  /** The names under `schema`, moved from the schema into the namespace. */
  function Rebased(schema: string, prefix: string, names: seq<string>): seq<string> {
    if names == [] then []
    else
      var rest := Rebased(schema, prefix, names[..|names| - 1]);
      var last := names[|names| - 1];
      if schema <= last then rest + [prefix + last[|schema|..]] else rest
  }

  function GetLabels(r: Record): seq<string> {
    match r
    case NoData => []
    case Data(skills, extensions, locators) =>
      Prefixed(Skills.Prefix(), skills)
      + Rebased(DOMAIN_SCHEMA_PREFIX, Domains.Prefix(), extensions)
      + Rebased(FEATURES_SCHEMA_PREFIX, Features.Prefix(), extensions)
      + Prefixed(Locators.Prefix(), locators)
  }

  method CollectRebased(schema: string, prefix: string, names: seq<string>) returns (labels: seq<string>)
    ensures labels == Rebased(schema, prefix, names)
  {
    labels := [];
    for i := 0 to |names|
      invariant labels == Rebased(schema, prefix, names[..i])
    {
      assert names[..i + 1][..i] == names[..i];
      if schema <= names[i] {
        labels := labels + [prefix + names[i][|schema|..]];
      }
    }
    assert names[..|names|] == names;
  }

  method CollectLabels(r: Record) returns (labels: seq<string>)
    ensures labels == GetLabels(r)
  {
    labels := [];
    if r.NoData? {
      return;
    }
    var skills := [];
    for i := 0 to |r.skills|
      invariant skills == Prefixed(Skills.Prefix(), r.skills[..i])
    {
      assert r.skills[..i + 1][..i] == r.skills[..i];
      skills := skills + [Skills.Prefix() + r.skills[i]];
    }
    assert r.skills[..|r.skills|] == r.skills;
    var domains := CollectRebased(DOMAIN_SCHEMA_PREFIX, Domains.Prefix(), r.extensions);
    var features := CollectRebased(FEATURES_SCHEMA_PREFIX, Features.Prefix(), r.extensions);
    var locators := [];
    for i := 0 to |r.locators|
      invariant locators == Prefixed(Locators.Prefix(), r.locators[..i])
    {
      assert r.locators[..i + 1][..i] == r.locators[..i];
      locators := locators + [Locators.Prefix() + r.locators[i]];
    }
    assert r.locators[..|r.locators|] == r.locators;
    labels := skills + domains + features + locators;
  }

  // ---------------------------------------------------------------- what the labels are

  lemma {:induction false} PrefixedMembers(prefix: string, names: seq<string>, lbl: string)
    ensures lbl in Prefixed(prefix, names) <==> prefix <= lbl && lbl[|prefix|..] in names
  {
    if names != [] {
      PrefixedMembers(prefix, names[..|names| - 1], lbl);
      var last := names[|names| - 1];
      assert names == names[..|names| - 1] + [last];
      if prefix <= lbl {
        assert lbl == prefix + lbl[|prefix|..];
      }
      assert (prefix + last)[|prefix|..] == last;
    }
  }

  lemma {:induction false} RebasedMembers(schema: string, prefix: string, names: seq<string>, lbl: string)
    ensures lbl in Rebased(schema, prefix, names) <==> prefix <= lbl && schema + lbl[|prefix|..] in names
  {
    if names != [] {
      RebasedMembers(schema, prefix, names[..|names| - 1], lbl);
      var last := names[|names| - 1];
      assert names == names[..|names| - 1] + [last];
      if prefix <= lbl {
        assert lbl == prefix + lbl[|prefix|..];
      }
      if schema <= last {
        assert last == schema + last[|schema|..];
        assert (prefix + last[|schema|..])[|prefix|..] == last[|schema|..];
        assert schema + (prefix + last[|schema|..])[|prefix|..] == last;
        if prefix <= lbl && schema + lbl[|prefix|..] == last {
          assert lbl[|prefix|..] == (schema + lbl[|prefix|..])[|schema|..];
        }
      }
    }
  }

  /** A label is a namespace prefix in front of a skill name, a locator type, or the rest of an
      extension name under the matching schema. */
  lemma LabelMembers(r: Record, lbl: string)
    requires r.Data?
    ensures lbl in GetLabels(r) <==>
            || (Skills.Prefix() <= lbl && lbl[|Skills.Prefix()|..] in r.skills)
            || (Domains.Prefix() <= lbl && DOMAIN_SCHEMA_PREFIX + lbl[|Domains.Prefix()|..] in r.extensions)
            || (Features.Prefix() <= lbl && FEATURES_SCHEMA_PREFIX + lbl[|Features.Prefix()|..] in r.extensions)
            || (Locators.Prefix() <= lbl && lbl[|Locators.Prefix()|..] in r.locators)
  {
    PrefixedMembers(Skills.Prefix(), r.skills, lbl);
    RebasedMembers(DOMAIN_SCHEMA_PREFIX, Domains.Prefix(), r.extensions, lbl);
    RebasedMembers(FEATURES_SCHEMA_PREFIX, Features.Prefix(), r.extensions, lbl);
    PrefixedMembers(Locators.Prefix(), r.locators, lbl);
  }

  lemma PrefixGivesPath(ns: Namespace, lbl: string)
    requires ns.Prefix() <= lbl
    ensures IsNamespaceKey(lbl) && HasPath(lbl)
  {
    var rest := lbl[|ns.Prefix()|..];
    assert lbl == ("/" + ns.Name()) + "/" + rest;
    SplitConcat("/" + ns.Name(), rest, '/');
    RootedParts("/" + ns.Name());
    assert ALL_NAMESPACES[match ns case Skills => 0 case Domains => 1 case Features => 2 case Locators => 3] == ns;
  }

  /** Every label of every record lies in a namespace and has a path. */
  lemma LabelsHavePath(r: Record, lbl: string)
    requires lbl in GetLabels(r)
    ensures IsNamespaceKey(lbl) && HasPath(lbl)
  {
    LabelMembers(r, lbl);
    if Skills.Prefix() <= lbl { PrefixGivesPath(Skills, lbl); }
    else if Domains.Prefix() <= lbl { PrefixGivesPath(Domains, lbl); }
    else if Features.Prefix() <= lbl { PrefixGivesPath(Features, lbl); }
    else { PrefixGivesPath(Locators, lbl); }
  }

  // ---------------------------------------------------------------- how often each label occurs

  /** The number of positions whose name has the property. */
  function Tally(names: seq<string>, gives: string -> bool): nat {
    if names == [] then 0
    else Tally(names[..|names| - 1], gives) + if gives(names[|names| - 1]) then 1 else 0
  }

  lemma {:induction false} TallyBound(names: seq<string>, gives: string -> bool)
    ensures Tally(names, gives) <= |names|
    ensures (forall n :: gives(n)) ==> Tally(names, gives) == |names|
    decreases |names|
  {
    if names != [] {
      TallyBound(names[..|names| - 1], gives);
    }
  }

  lemma LastCount(s: seq<string>, x: string, lbl: string)
    ensures multiset(s + [x])[lbl] == multiset(s)[lbl] + if x == lbl then 1 else 0
  {
    assert multiset(s + [x]) == multiset(s) + multiset{x};
  }

  lemma {:induction false} PrefixedTally(prefix: string, names: seq<string>, lbl: string, gives: string -> bool)
    requires forall n :: gives(n) <==> prefix + n == lbl
    ensures |Prefixed(prefix, names)| == |names|
    ensures forall i :: 0 <= i < |names| ==> Prefixed(prefix, names)[i] == prefix + names[i]
    ensures multiset(Prefixed(prefix, names))[lbl] == Tally(names, gives)
    decreases |names|
  {
    if names != [] {
      var init, last := names[..|names| - 1], names[|names| - 1];
      PrefixedTally(prefix, init, lbl, gives);
      LastCount(Prefixed(prefix, init), prefix + last, lbl);
    }
  }

  lemma {:induction false} RebasedTally(schema: string, prefix: string, names: seq<string>, lbl: string,
                                        under: string -> bool, gives: string -> bool)
    requires forall n :: under(n) <==> schema <= n
    requires forall n :: gives(n) <==> schema <= n && prefix + n[|schema|..] == lbl
    ensures |Rebased(schema, prefix, names)| == Tally(names, under)
    ensures multiset(Rebased(schema, prefix, names))[lbl] == Tally(names, gives)
    decreases |names|
  {
    if names != [] {
      var init, last := names[..|names| - 1], names[|names| - 1];
      RebasedTally(schema, prefix, init, lbl, under, gives);
      if schema <= last {
        LastCount(Rebased(schema, prefix, init), prefix + last[|schema|..], lbl);
      }
    }
  }

  // The schema prefixes as published by OASF, written out once more for the reference below.
  const DOMAINS := "schema.oasf.agntcy.org/domains/"
  const FEATURES := "schema.oasf.agntcy.org/features/"

  /** How many skills, extensions and locators of a record give the label. */
  function Occurrences(r: Record, lbl: string): nat {
    if r.NoData? then 0
    else
      Tally(r.skills, n => "/skills/" + n == lbl)
      + Tally(r.extensions, n => DOMAINS <= n && "/domains/" + n[|DOMAINS|..] == lbl)
      + Tally(r.extensions, n => FEATURES <= n && "/features/" + n[|FEATURES|..] == lbl)
      + Tally(r.locators, n => "/locators/" + n == lbl)
  }

  lemma PrefixTexts()
    ensures Skills.Prefix() == "/skills/" && Domains.Prefix() == "/domains/"
    ensures Features.Prefix() == "/features/" && Locators.Prefix() == "/locators/"
  {
  }

  /** A record has a label as often as its skills, extensions and locators give it. */
  lemma LabelOccurrences(r: Record, lbl: string)
    ensures multiset(GetLabels(r))[lbl] == Occurrences(r, lbl)
    ensures r.Data? ==> |GetLabels(r)| == |r.skills| + Tally(r.extensions, n => DOMAINS <= n)
                                          + Tally(r.extensions, n => FEATURES <= n) + |r.locators|
  {
    if r.Data? {
      PrefixTexts();
      PrefixedTally("/skills/", r.skills, lbl, n => "/skills/" + n == lbl);
      RebasedTally(DOMAINS, "/domains/", r.extensions, lbl, n => DOMAINS <= n,
                   n => DOMAINS <= n && "/domains/" + n[|DOMAINS|..] == lbl);
      RebasedTally(FEATURES, "/features/", r.extensions, lbl, n => FEATURES <= n,
                   n => FEATURES <= n && "/features/" + n[|FEATURES|..] == lbl);
      PrefixedTally("/locators/", r.locators, lbl, n => "/locators/" + n == lbl);
    }
  }

  /** Skill labels come first and locator labels last, each in the order of the record. */
  lemma LabelPositions(r: Record)
    requires r.Data?
    ensures |GetLabels(r)| >= |r.skills| + |r.locators|
    ensures forall i :: 0 <= i < |r.skills| ==> GetLabels(r)[i] == "/skills/" + r.skills[i]
    ensures forall i :: 0 <= i < |r.locators| ==>
              GetLabels(r)[|GetLabels(r)| - |r.locators| + i] == "/locators/" + r.locators[i]
  {
    PrefixTexts();
    PrefixedTally("/skills/", r.skills, "", n => "/skills/" + n == "");
    PrefixedTally("/locators/", r.locators, "", n => "/locators/" + n == "");
  }
}

/** The self-descriptive label keys `/<namespace>/<path>/<cid>/<peer>`: building and parsing
    them, the extractors, and the validators that guard the DHT. */
module LabelKeys {
  import opened Text

  const MIN_LABEL_KEY_PARTS := 5

  datatype Namespace = Skills | Domains | Features | Locators {
    function Name(): string {
      match this
      case Skills => "skills"
      case Domains => "domains"
      case Features => "features"
      case Locators => "locators"
    }

    function Prefix(): string {
      "/" + Name() + "/"
    }
  }

  const ALL_NAMESPACES: seq<Namespace> := [Skills, Domains, Features, Locators]

  predicate IsNamespaceKey(key: string) {
    exists i :: 0 <= i < |ALL_NAMESPACES| && ALL_NAMESPACES[i].Prefix() <= key
  }

  datatype LabelKey = LabelKey(lbl: string, cid: string, peer: string)

  datatype KeyError = MissingSlash | TooFewParts | WrongNamespace | MissingPeer | PeerIsCid | MissingCid | BadCid
      | EmptyComponent | BadValue

  function Build(lbl: string, cid: string, peer: string): string {
    lbl + "/" + cid + "/" + peer
  }

  function Parse(key: string): Result<LabelKey, KeyError> {
    if !("/" <= key) then Err(MissingSlash)
    else
      var parts := Split(key, '/');
      if |parts| < MIN_LABEL_KEY_PARTS then Err(TooFewParts)
      else Ok(LabelKey("/" + Join(parts[1..|parts| - 2], '/'), parts[|parts| - 2], parts[|parts| - 1]))
  }

  function ExtractPeer(key: string): string {
    var parts := Split(key, '/');
    if |parts| < MIN_LABEL_KEY_PARTS then "" else parts[|parts| - 1]
  }

  function ExtractCid(key: string): string {
    var parts := Split(key, '/');
    if |parts| < MIN_LABEL_KEY_PARTS then "" else parts[|parts| - 2]
  }

  function ExtractCidFromLabelKey(key: string, isCid: string -> bool): Result<string, KeyError> {
    var parts := Split(key, '/');
    if |parts| < MIN_LABEL_KEY_PARTS then Err(TooFewParts)
    else if !IsNamespaceKey(key) then Err(WrongNamespace)
    else
      var cid := parts[|parts| - 2];
      if cid == "" then Err(MissingCid)
      else if !isCid(cid) then Err(BadCid)
      else Ok(cid)
  }

  lemma NamespaceTexts(k: string)
    ensures IsNamespaceKey(k) <==> "/skills/" <= k || "/domains/" <= k || "/features/" <= k || "/locators/" <= k
  {
    assert ALL_NAMESPACES[0].Prefix() == "/skills/" && ALL_NAMESPACES[1].Prefix() == "/domains/";
    assert ALL_NAMESPACES[2].Prefix() == "/features/" && ALL_NAMESPACES[3].Prefix() == "/locators/";
  }

  /** What the handler accepts as a label key: a namespace prefix, at least five parts, and a CID as the last but
      one, which is the CID it goes on with. */
  lemma ExtractExactly(key: string, isCid: string -> bool, cid: string)
    ensures ExtractCidFromLabelKey(key, isCid) == Ok(cid) <==>
            && ("/skills/" <= key || "/domains/" <= key || "/features/" <= key || "/locators/" <= key)
            && |Split(key, '/')| >= 5 && cid == Split(key, '/')[|Split(key, '/')| - 2]
            && cid != "" && isCid(cid)
  {
    NamespaceTexts(key);
  }

  // ---------------------------------------------------------------- build and parse

  lemma BuildParts(lbl: string, cid: string, peer: string)
    ensures Split(Build(lbl, cid, peer), '/') == Split(lbl, '/') + Split(cid, '/') + Split(peer, '/')
  {
    assert Build(lbl, cid, peer) == (lbl + "/" + cid) + "/" + peer;
    SplitConcat(lbl + "/" + cid, peer, '/');
    SplitConcat(lbl, cid, '/');
  }

  /** A label that has a namespace and a path. */
  predicate HasPath(lbl: string) {
    "/" <= lbl && |Split(lbl, '/')| >= 3
  }

  lemma RootedJoin(parts: seq<string>)
    requires |parts| >= 1 && AllFree(parts, '/')
    ensures Split("/" + Join(parts, '/'), '/') == [""] + parts
  {
    var rest := Join(parts, '/');
    assert Split(rest, '/') == parts by { SplitJoin(parts, '/'); }
    assert ("/" + rest)[1..] == rest;
    RootedParts("/" + rest);
  }

  /** What is parsed is what was built. */
  lemma BuildParse(key: string)
    ensures Parse(key).Err? <==> !("/" <= key) || |Split(key, '/')| < MIN_LABEL_KEY_PARTS
    ensures Parse(key).Ok? ==>
              var k := Parse(key).value;
              Build(k.lbl, k.cid, k.peer) == key && HasPath(k.lbl) && Free(k.cid, '/') && Free(k.peer, '/')
  {
    if Parse(key).Ok? {
      var parts := Split(key, '/');
      var n := |parts|;
      var k := Parse(key).value;
      var mid := parts[1..n - 2];
      SplitFree(key, '/');
      assert Split(k.lbl, '/') == [""] + mid by { RootedJoin(mid); }
      assert parts[0] == "" by { RootedParts(key); }
      assert parts == [""] + mid + [k.cid] + [k.peer];
      assert Split(Build(k.lbl, k.cid, k.peer), '/') == parts by {
        BuildParts(k.lbl, k.cid, k.peer);
        SplitAtom(k.cid, '/');
        SplitAtom(k.peer, '/');
      }
      SplitInjective(Build(k.lbl, k.cid, k.peer), key, '/');
    }
  }

  /** What is built parses back exactly for labels with a namespace and a path and slash-free
      cid and peer. */
  lemma ParseBuild(lbl: string, cid: string, peer: string)
    ensures Parse(Build(lbl, cid, peer)) == Ok(LabelKey(lbl, cid, peer))
            <==> HasPath(lbl) && Free(cid, '/') && Free(peer, '/')
  {
    var key := Build(lbl, cid, peer);
    BuildParse(key);
    if HasPath(lbl) && Free(cid, '/') && Free(peer, '/') {
      BuildParts(lbl, cid, peer);
      SplitAtom(cid, '/');
      SplitAtom(peer, '/');
      var parts := Split(key, '/');
      var n := |parts|;
      assert "/" <= key;
      RootedParts(lbl);
      assert parts[1..n - 2] == Split(lbl, '/')[1..] == Split(lbl[1..], '/');
      JoinSplit(lbl[1..], '/');
      assert "/" + lbl[1..] == lbl;
    }
  }

  /** Two triples share a key exactly when they have the same parts in the same order. */
  lemma SameKey(k1: LabelKey, k2: LabelKey)
    ensures Build(k1.lbl, k1.cid, k1.peer) == Build(k2.lbl, k2.cid, k2.peer) <==>
            Split(k1.lbl, '/') + Split(k1.cid, '/') + Split(k1.peer, '/')
            == Split(k2.lbl, '/') + Split(k2.cid, '/') + Split(k2.peer, '/')
  {
    BuildParts(k1.lbl, k1.cid, k1.peer);
    BuildParts(k2.lbl, k2.cid, k2.peer);
    if Split(Build(k1.lbl, k1.cid, k1.peer), '/') == Split(Build(k2.lbl, k2.cid, k2.peer), '/') {
      SplitInjective(Build(k1.lbl, k1.cid, k1.peer), Build(k2.lbl, k2.cid, k2.peer), '/');
    }
  }

  /** A slash in a CID can move a part from the label to the CID. */
  lemma SlashesCollide(lbl: string, part: string, cid: string, peer: string)
    ensures Build(lbl + "/" + part, cid, peer) == Build(lbl, part + "/" + cid, peer)
    ensures LabelKey(lbl + "/" + part, cid, peer) != LabelKey(lbl, part + "/" + cid, peer)
  {
    assert |lbl + "/" + part| > |lbl|;
  }

  /** Without such slashes, and for labels with a path, different triples have different keys. */
  lemma BuildInjective(k1: LabelKey, k2: LabelKey)
    requires HasPath(k1.lbl) && Free(k1.cid, '/') && Free(k1.peer, '/')
    requires HasPath(k2.lbl) && Free(k2.cid, '/') && Free(k2.peer, '/')
    requires Build(k1.lbl, k1.cid, k1.peer) == Build(k2.lbl, k2.cid, k2.peer)
    ensures k1 == k2
  {
    ParseBuild(k1.lbl, k1.cid, k1.peer);
    ParseBuild(k2.lbl, k2.cid, k2.peer);
  }

  lemma BuildClean(lbl: string, cid: string, peer: string)
    requires HasPath(lbl) && CleanComponent(cid) && CleanComponent(peer)
    ensures CleanKey(Build(lbl, cid, peer)) <==> CleanKey(lbl)
  {
    BuildParts(lbl, cid, peer);
    SplitAtom(cid, '/');
    SplitAtom(peer, '/');
    var parts, ls := Split(Build(lbl, cid, peer), '/'), Split(lbl, '/');
    assert parts[1..] == ls[1..] + [cid, peer];
    if AllClean(parts[1..]) {
      assert forall i :: 0 <= i < |ls[1..]| ==> ls[1..][i] == parts[1..][i];
    }
  }

  /** The datastore cleans every key it is given, so a label is recovered from its stored key
      exactly when cleaning has nothing to change in it. */
  lemma StoredKeyParsesBack(lbl: string, cid: string, peer: string)
    requires HasPath(lbl) && CleanComponent(cid) && CleanComponent(peer)
    ensures Parse(NewKey(Build(lbl, cid, peer))) == Ok(LabelKey(lbl, cid, peer)) <==> CleanKey(lbl)
    ensures CleanKey(lbl) ==> NewKey(Build(lbl, cid, peer)) == Build(lbl, cid, peer)
  {
    var key := Build(lbl, cid, peer);
    ParseBuild(lbl, cid, peer);
    BuildParse(NewKey(key));
    BuildClean(lbl, cid, peer);
    NewKeyFixed(key);
  }

  // ---------------------------------------------------------------- validators

  /** The checks shared by all namespaces. */
  function ValidateKeyFormat(key: string, ns: Namespace, isCid: string -> bool): Result<seq<string>, KeyError> {
    var parts := Split(key, '/');
    if |parts| < MIN_LABEL_KEY_PARTS then Err(TooFewParts)
    else if parts[1] != ns.Name() then Err(WrongNamespace)
    else if parts[|parts| - 1] == "" then Err(MissingPeer)
    else if isCid(parts[|parts| - 1]) then Err(PeerIsCid)
    else if parts[|parts| - 2] == "" then Err(MissingCid)
    else if !isCid(parts[|parts| - 2]) then Err(BadCid)
    else Ok(parts)
  }

  /** The whole check of a DHT record; only skills and locators look into the path. */
  function Validate(ns: Namespace, key: string, value: string, isCid: string -> bool): Result<(), KeyError> {
    match ValidateKeyFormat(key, ns, isCid)
    case Err(e) => Err(e)
    case Ok(parts) =>
      if (ns.Skills? || ns.Locators?) && 2 <= |parts| - 2 && "" in parts[2..|parts| - 2] then Err(EmptyComponent)
      else if value != "" && !isCid(value) then Err(BadValue)
      else Ok(())
  }

  /** A rooted key whose second part is a namespace starts with that namespace's prefix. */
  lemma NamespaceFromParts(ns: Namespace, key: string)
    requires "/" <= key && |Split(key, '/')| >= 3 && Split(key, '/')[1] == ns.Name()
    ensures IsNamespaceKey(key)
  {
    RootedParts(key);
    var tail := Split(key[1..], '/');
    JoinSplit(key[1..], '/');
    assert key[1..] == ns.Name() + "/" + Join(tail[1..], '/');
    assert key == "/" + key[1..] == ns.Prefix() + Join(tail[1..], '/');
    assert ALL_NAMESPACES[match ns case Skills => 0 case Domains => 1 case Features => 2 case Locators => 3] == ns;
  }

  lemma NoEmptyPart(parts: seq<string>, n: nat)
    requires 2 <= n <= |parts|
    ensures "" in parts[2..n] <==> exists i :: 2 <= i < n && parts[i] == ""
  {
    var path := parts[2..n];
    if i :| 2 <= i < n && parts[i] == "" {
      assert path[i - 2] == "";
    }
  }

  lemma NamespaceNames(ns: Namespace)
    ensures (ns.Skills? ==> ns.Name() == "skills") && (ns.Domains? ==> ns.Name() == "domains")
    ensures (ns.Features? ==> ns.Name() == "features") && (ns.Locators? ==> ns.Name() == "locators")
  {
  }

  lemma FormatExactly(key: string, ns: Namespace, isCid: string -> bool)
    ensures var parts := Split(key, '/');
            ValidateKeyFormat(key, ns, isCid) == Ok(parts) <==>
            && |parts| >= 5 && parts[1] == ns.Name()
            && parts[|parts| - 2] != "" && isCid(parts[|parts| - 2])
            && parts[|parts| - 1] != "" && !isCid(parts[|parts| - 1])
    ensures ValidateKeyFormat(key, ns, isCid).Ok? ==> ValidateKeyFormat(key, ns, isCid) == Ok(Split(key, '/'))
  {
  }

  /** What the validators accept: at least five parts, the namespace second, a CID before a last part that is
      there and is no CID, for skills and locators no empty part in the path, and a value that is empty or a
      CID. The namespaces are named as NamespaceNames says. */
  lemma ValidateExactly(ns: Namespace, key: string, value: string, isCid: string -> bool)
    ensures var parts := Split(key, '/');
            Validate(ns, key, value, isCid).Ok? <==>
            && |parts| >= 5 && parts[1] == ns.Name()
            && parts[|parts| - 2] != "" && isCid(parts[|parts| - 2])
            && parts[|parts| - 1] != "" && !isCid(parts[|parts| - 1])
            && (ns.Skills? || ns.Locators? ==> !exists i :: 2 <= i < |parts| - 2 && parts[i] == "")
            && (value == "" || isCid(value))
  {
    var parts := Split(key, '/');
    FormatExactly(key, ns, isCid);
    if |parts| >= 5 {
      NoEmptyPart(parts, |parts| - 2);
    }
  }

  /** For an accepted key the three CID extractors give one answer exactly when the key starts
      with a slash: without it the parser refuses a key that the validator let through. */
  lemma ExtractorsAgree(ns: Namespace, key: string, value: string, isCid: string -> bool)
    requires Validate(ns, key, value, isCid).Ok?
    ensures "/" <= key
            <==> Parse(key).Ok? && Parse(key).value.cid == ExtractCid(key)
                 && ExtractCidFromLabelKey(key, isCid) == Ok(ExtractCid(key))
  {
    assert ValidateKeyFormat(key, ns, isCid).Ok?;
    if "/" <= key {
      NamespaceFromParts(ns, key);
    }
  }

  /** Selection returns the first value the validator accepts, or fails when it accepts none. */
  method SelectFirstValid(ns: Namespace, key: string, values: seq<string>, isCid: string -> bool)
    returns (r: Option<nat>)
    ensures r.Some? ==> r.value < |values| && Validate(ns, key, values[r.value], isCid).Ok?
    ensures forall j :: 0 <= j < (if r.Some? then r.value else |values|) ==>
            j < |values| && Validate(ns, key, values[j], isCid).Err?
  {
    for i := 0 to |values|
      invariant forall j :: 0 <= j < i ==> Validate(ns, key, values[j], isCid).Err?
    {
      if Validate(ns, key, values[i], isCid).Ok? {
        return Some(i);
      }
    }
    return None;
  }
}

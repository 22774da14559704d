/** The sync section of the registry's configuration file, and the edits sync workers make to it. */
module ZotConfig {
  import opened Text

  datatype Registry = Registry(
    urls: seq<string>,
    onDemand: bool,
    content: seq<string>,
    tlsVerify: Option<bool>,
    maxRetries: int,
    retryDelay: string,
    pollInterval: string,
    onlySigned: bool)
  {
    predicate Lists(url: string) {
      url in urls
    }
  }

  datatype SyncConfig = SyncConfig(enable: Option<bool>, credentialsFile: string, registries: seq<Registry>)

  /** `other` stands for the search and trust sections. */
  datatype Extensions = Extensions(other: string, sync: Option<SyncConfig>)

  /** `other` stands for the sections that no edit touches. */
  datatype Config = Config(other: string, extensions: Option<Extensions>)

  datatype Error = EmptyUrl | BadUrl | ReadFailed | WriteFailed

  const EMPTY_EXTENSIONS := Extensions("", None)
  const EMPTY_SYNC := SyncConfig(None, "", [])

  function ExtensionsOf(c: Config): Extensions {
    if c.extensions.Some? then c.extensions.value else EMPTY_EXTENSIONS
  }

  function SyncOf(c: Config): SyncConfig {
    if ExtensionsOf(c).sync.Some? then ExtensionsOf(c).sync.value else EMPTY_SYNC
  }

  function Registries(c: Config): seq<Registry> {
    SyncOf(c).registries
  }

  function WithSync(c: Config, s: SyncConfig): Config {
    c.(extensions := Some(ExtensionsOf(c).(sync := Some(s))))
  }

  function NewRegistry(url: string): Registry {
    Registry([url], false, ["dir"], Some(false), 3, "5m", "60s", false)
  }

  predicate HasScheme(raw: string) {
    "http://" <= raw || "https://" <= raw
  }

  /** The URL as it is stored; `parses` is the library's verdict on a URL with a scheme. */
  function Normalize(raw: string, parses: string -> bool): Result<string, Error> {
    if raw == "" then Err(EmptyUrl)
    else if !HasScheme(raw) then Ok("http://" + raw)
    else if !parses(raw) then Err(BadUrl)
    else Ok(raw)
  }

  /** Stored URLs have a scheme, and normalizing one again changes nothing unless the library refuses
      what the first pass let through unparsed. */
  lemma NormalizeStable(raw: string, parses: string -> bool)
    requires Normalize(raw, parses).Ok?
    ensures var url := Normalize(raw, parses).value;
            HasScheme(url) && (Normalize(url, parses) == Ok(url) <==> parses(url))
  {
    var url := Normalize(raw, parses).value;
    assert !HasScheme(raw) ==> "http://" <= url;
  }

  /** What is stored for a URL as given: the URL itself if it has a scheme and parses, and otherwise the URL
      after "http://"; an empty one is refused. */
  lemma NormalizedText(raw: string, parses: string -> bool)
    ensures !("http://" <= raw) && !("https://" <= raw) && raw != "" ==> Normalize(raw, parses) == Ok("http://" + raw)
    ensures "http://" <= raw || "https://" <= raw ==>
              Normalize(raw, parses) == if parses(raw) then Ok(raw) else Err(BadUrl)
    ensures Normalize(raw, parses) == Err(EmptyUrl) <==> raw == ""
  {
  }

  // ---------------------------------------------------------------- the edits

  predicate Listed(registries: seq<Registry>, url: string) {
    exists i :: 0 <= i < |registries| && registries[i].Lists(url)
  }

  /** The registries that do not list `url`. */
  function Without(registries: seq<Registry>, url: string): seq<Registry> {
    if registries == [] then []
    else
      var rest, last := Without(registries[..|registries| - 1], url), registries[|registries| - 1];
      if last.Lists(url) then rest else rest + [last]
  }

  function Added(c: Config, url: string): Config {
    if Listed(Registries(c), url) then c
    else WithSync(c, SyncOf(c).(enable := Some(true), registries := Registries(c) + [NewRegistry(url)]))
  }

  function Removed(c: Config, url: string): Config {
    if !Listed(Registries(c), url) then c
    else WithSync(c, SyncOf(c).(registries := Without(Registries(c), url)))
  }

  lemma ListedLast(registries: seq<Registry>, url: string)
    requires registries != []
    ensures Listed(registries, url) <==>
            Listed(registries[..|registries| - 1], url) || registries[|registries| - 1].Lists(url)
  {
  }

  lemma {:induction false} WithoutLength(registries: seq<Registry>, url: string)
    ensures |Without(registries, url)| <= |registries|
    ensures |Without(registries, url)| == |registries| <==> !Listed(registries, url)
    ensures !Listed(registries, url) ==> Without(registries, url) == registries
    decreases |registries|
  {
    if registries != [] {
      ListedLast(registries, url);
      WithoutLength(registries[..|registries| - 1], url);
      assert registries == registries[..|registries| - 1] + [registries[|registries| - 1]];
    }
  }

  class ConfigFile {
    var config: Config

    constructor (c: Config)
      ensures config == c
    {
      config := c;
    }

    method AddRegistry(raw: string, parses: string -> bool, readOk: bool, writeOk: bool) returns (r: Result<(), Error>)
      modifies this
      ensures r.Ok? <==> readOk && Normalize(raw, parses).Ok?
                         && (writeOk || Listed(Registries(old(config)), Normalize(raw, parses).value))
      ensures config == if r.Ok? then Added(old(config), Normalize(raw, parses).value) else old(config)
    {
      if raw == "" {
        return Err(EmptyUrl);
      }
      if !readOk {
        return Err(ReadFailed);
      }
      var sync := SyncOf(config).(enable := Some(true));
      var normalized := Normalize(raw, parses);
      if normalized.Err? {
        return Err(normalized.error);
      }
      var url := normalized.value;
      for i := 0 to |sync.registries|
        invariant config == old(config)
        invariant !Listed(sync.registries[..i], url)
      {
        if url in sync.registries[i].urls {
          assert sync.registries[i].Lists(url);
          return Ok(());
        }
        assert sync.registries[..i + 1] == sync.registries[..i] + [sync.registries[i]];
      }
      assert sync.registries[..|sync.registries|] == sync.registries;
      sync := sync.(registries := sync.registries + [NewRegistry(url)]);
      if !writeOk {
        return Err(WriteFailed);
      }
      config := WithSync(config, sync);
      return Ok(());
    }

    method RemoveRegistry(raw: string, parses: string -> bool, readOk: bool, writeOk: bool)
      returns (r: Result<(), Error>)
      modifies this
      ensures r.Ok? <==> raw != "" && readOk
                         && (ExtensionsOf(old(config)).sync.None?
                             || (Normalize(raw, parses).Ok?
                                 && (writeOk || !Listed(Registries(old(config)), Normalize(raw, parses).value))))
      ensures config == if r.Ok? && Normalize(raw, parses).Ok? then Removed(old(config), Normalize(raw, parses).value)
              else old(config)
    {
      if raw == "" {
        return Err(EmptyUrl);
      }
      if !readOk {
        return Err(ReadFailed);
      }
      if config.extensions.None? || config.extensions.value.sync.None? {
        return Ok(());
      }
      var normalized := Normalize(raw, parses);
      if normalized.Err? {
        return Err(normalized.error);
      }
      var url := normalized.value;
      var registries := Registries(config);
      var filtered := [];
      for i := 0 to |registries|
        invariant config == old(config)
        invariant filtered == Without(registries[..i], url)
      {
        assert registries[..i + 1][..i] == registries[..i];
        if url !in registries[i].urls {
          filtered := filtered + [registries[i]];
        }
      }
      assert registries[..|registries|] == registries;
      WithoutLength(registries, url);
      if |filtered| == |registries| {
        return Ok(());
      }
      if !writeOk {
        return Err(WriteFailed);
      }
      config := WithSync(config, SyncOf(config).(registries := filtered));
      return Ok(());
    }
  }

  // ---------------------------------------------------------------- what the edits mean

  ghost predicate Increasing(positions: seq<nat>) {
    forall i, j :: 0 <= i < j < |positions| ==> positions[i] < positions[j]
  }

  /** The positions of the registries that do not list `url`. */
  ghost function Kept(registries: seq<Registry>, url: string): seq<nat> {
    if registries == [] then []
    else
      var n := |registries| - 1;
      Kept(registries[..n], url) + if registries[n].Lists(url) then [] else [n]
  }

  lemma {:induction false} KeptIncreasing(registries: seq<Registry>, url: string)
    ensures Increasing(Kept(registries, url))
    ensures forall i :: 0 <= i < |Kept(registries, url)| ==> Kept(registries, url)[i] < |registries|
    decreases |registries|
  {
    if registries != [] {
      KeptIncreasing(registries[..|registries| - 1], url);
    }
  }

  lemma {:induction false} KeptExactly(registries: seq<Registry>, url: string, p: nat)
    requires p < |registries|
    ensures p in Kept(registries, url) <==> !registries[p].Lists(url)
    decreases |registries|
  {
    var n := |registries| - 1;
    KeptIncreasing(registries[..n], url);
    if p < n {
      KeptExactly(registries[..n], url, p);
    }
  }

  /** Removal keeps exactly the registries that do not list the URL, unchanged and in order. */
  lemma {:induction false} WithoutKeepsOrder(registries: seq<Registry>, url: string)
    ensures Increasing(Kept(registries, url))
    ensures forall p :: 0 <= p < |registries| ==> (p in Kept(registries, url) <==> !registries[p].Lists(url))
    ensures |Without(registries, url)| == |Kept(registries, url)|
    ensures forall i :: 0 <= i < |Kept(registries, url)| ==>
              && Kept(registries, url)[i] < |registries|
              && Without(registries, url)[i] == registries[Kept(registries, url)[i]]
    decreases |registries|
  {
    KeptIncreasing(registries, url);
    forall p | 0 <= p < |registries| ensures p in Kept(registries, url) <==> !registries[p].Lists(url) {
      KeptExactly(registries, url, p);
    }
    if registries != [] {
      WithoutKeepsOrder(registries[..|registries| - 1], url);
    }
  }

  /** The number of entries that list a URL. */
  function Entries(registries: seq<Registry>, url: string): nat {
    if registries == [] then 0
    else Entries(registries[..|registries| - 1], url) + if registries[|registries| - 1].Lists(url) then 1 else 0
  }

  lemma {:induction false} EntriesListed(registries: seq<Registry>, url: string)
    ensures Entries(registries, url) > 0 <==> Listed(registries, url)
    decreases |registries|
  {
    if registries != [] {
      ListedLast(registries, url);
      EntriesListed(registries[..|registries| - 1], url);
    }
  }

  lemma {:induction false} EntriesWithout(registries: seq<Registry>, gone: string, url: string)
    ensures Entries(Without(registries, gone), url) <= Entries(registries, url)
    ensures url == gone ==> Entries(Without(registries, gone), url) == 0
    ensures (forall i :: 0 <= i < |registries| ==> !(registries[i].Lists(gone) && registries[i].Lists(url))) ==>
              Entries(Without(registries, gone), url) == Entries(registries, url)
    decreases |registries|
  {
    if registries != [] {
      var n := |registries| - 1;
      EntriesWithout(registries[..n], gone, url);
      var rest := Without(registries[..n], gone);
      assert (rest + [registries[n]])[..|rest|] == rest;
    }
  }

  /** The entry for a new URL comes last and polls the "dir" repository every minute, on its own account, with
      three retries five minutes apart and without TLS verification; sync is switched on. */
  lemma NewEntry(c: Config, url: string)
    requires !Listed(Registries(c), url)
    ensures Registries(Added(c, url)) == Registries(c)
            + [Registry([url], false, ["dir"], Some(false), 3, "5m", "60s", false)]
    ensures SyncOf(Added(c, url)).enable == Some(true)
    ensures SyncOf(Added(c, url)).credentialsFile == SyncOf(c).credentialsFile && Added(c, url).other == c.other
    ensures ExtensionsOf(Added(c, url)).other == ExtensionsOf(c).other
  {
  }

  /** Adding twice is adding once. */
  lemma AddTwice(c: Config, url: string)
    ensures Added(Added(c, url), url) == Added(c, url)
    ensures Listed(Registries(Added(c, url)), url)
  {
    if !Listed(Registries(c), url) {
      var after := Registries(Added(c, url));
      assert after[|after| - 1].Lists(url);
    }
  }

  /** Adding a new URL and removing it leaves the registry list as it was; of the rest of the
      configuration only the enable flag is new. */
  lemma AddThenRemove(c: Config, url: string)
    requires !Listed(Registries(c), url)
    ensures Removed(Added(c, url), url) == WithSync(c, SyncOf(c).(enable := Some(true)))
    ensures Registries(Removed(Added(c, url), url)) == Registries(c)
  {
    var regs := Registries(c);
    AddTwice(c, url);
    assert (regs + [NewRegistry(url)])[..|regs|] == regs;
    WithoutLength(regs, url);
  }

  // ---------------------------------------------------------------- runs, one worker at a time

  datatype Edit = Add(url: string) | Remove(url: string)

  function Apply(c: Config, e: Edit): Config {
    match e
    case Add(url) => Added(c, url)
    case Remove(url) => Removed(c, url)
  }

  function ApplyAll(c: Config, edits: seq<Edit>): Config {
    if edits == [] then c else Apply(ApplyAll(c, edits[..|edits| - 1]), edits[|edits| - 1])
  }

  /** Whether the last edit that names `url` added it. */
  function Wanted(initially: bool, edits: seq<Edit>, url: string): bool {
    if edits == [] then initially
    else if edits[|edits| - 1].url == url then edits[|edits| - 1].Add?
    else Wanted(initially, edits[..|edits| - 1], url)
  }

  ghost predicate OneUrlEach(registries: seq<Registry>) {
    forall i :: 0 <= i < |registries| ==> |registries[i].urls| <= 1
  }

  /** What a removal leaves listed: the URLs of entries that do not list the removed one. */
  lemma {:induction false} ListedWithout(registries: seq<Registry>, gone: string, url: string)
    ensures Listed(Without(registries, gone), url) <==>
            exists i :: 0 <= i < |registries| && registries[i].Lists(url) && !registries[i].Lists(gone)
    decreases |registries|
  {
    if registries != [] {
      var init, last := registries[..|registries| - 1], registries[|registries| - 1];
      ListedWithout(init, gone, url);
      var rest := Without(init, gone);
      if i :| 0 <= i < |init| && init[i].Lists(url) && !init[i].Lists(gone) {
        assert registries[i] == init[i];
      }
      if !last.Lists(gone) {
        ListedLast(rest + [last], url);
        assert (rest + [last])[..|rest|] == rest;
      }
    }
  }

  /** So removing one URL unlists another exactly when every entry that lists the other lists both. */
  lemma RemovalUnlistsOther(c: Config, gone: string, url: string)
    requires Listed(Registries(c), url)
    ensures !Listed(Registries(Removed(c, gone)), url) <==>
            forall i :: 0 <= i < |Registries(c)| && Registries(c)[i].Lists(url) ==> Registries(c)[i].Lists(gone)
  {
    ListedWithout(Registries(c), gone, url);
  }

  /** An entry with two URLs, as an operator may write it: removing the one takes the other away, and
      adding it beforehand does not help. */
  lemma SharedEntryRemoved(c: Config, entry: Registry, gone: string, url: string)
    requires Registries(c) == [entry] && entry.Lists(gone) && entry.Lists(url) && gone != url
    ensures !Listed(Registries(ApplyAll(c, [Add(url), Remove(gone)])), url)
            && Wanted(true, [Add(url), Remove(gone)], url)
  {
    var edits := [Add(url), Remove(gone)];
    assert edits[..1] == [Add(url)] && edits[..1][..0] == [];
    assert Registries(c)[0].Lists(url);
    assert ApplyAll(c, edits[..1]) == c;
    RemovalUnlistsOther(c, gone, url);
  }

  /** Two syncs of one registry share its entry: removing it for one loses it for both. */
  lemma SyncsShareEntry(c: Config, url: string)
    ensures !Listed(Registries(ApplyAll(c, [Add(url), Add(url), Remove(url)])), url)
  {
    var edits := [Add(url), Add(url), Remove(url)];
    var before := ApplyAll(c, edits[..2]);
    assert ApplyAll(c, edits) == Removed(before, url);
    ListedWithout(Registries(before), url, url);
  }

  lemma {:induction false} WithoutOneUrlEach(registries: seq<Registry>, url: string)
    requires OneUrlEach(registries)
    ensures OneUrlEach(Without(registries, url))
    decreases |registries|
  {
    if registries != [] {
      WithoutOneUrlEach(registries[..|registries| - 1], url);
    }
  }

  lemma OneUrl(urls: seq<string>, a: string, b: string)
    requires |urls| <= 1
    ensures a in urls && b in urls ==> a == b
  {
    assert a in urls ==> urls[0] == a;
  }

  lemma EditEntries(c: Config, e: Edit, url: string)
    ensures Entries(Registries(c), url) <= 1 ==> Entries(Registries(Apply(c, e)), url) <= 1
    ensures e.url == url ==> (Entries(Registries(Apply(c, e)), url) > 0 <==> e.Add?)
    ensures e.url != url && OneUrlEach(Registries(c)) ==>
              Entries(Registries(Apply(c, e)), url) == Entries(Registries(c), url)
    ensures OneUrlEach(Registries(c)) ==> OneUrlEach(Registries(Apply(c, e)))
  {
    var regs := Registries(c);
    EntriesListed(regs, url);
    EntriesListed(regs, e.url);
    if e.Add? {
      assert (regs + [NewRegistry(e.url)])[..|regs|] == regs;
    } else {
      EntriesWithout(regs, e.url, url);
      if OneUrlEach(regs) {
        WithoutOneUrlEach(regs, e.url);
        forall i | 0 <= i < |regs| ensures e.url != url ==> !(regs[i].Lists(e.url) && regs[i].Lists(url)) {
          OneUrl(regs[i].urls, e.url, url);
        }
      }
    }
  }

  /** Through any sequence of edits a URL keeps at most one entry; and where every registry has one
      URL, it has an entry exactly when the last edit that names it added it. */
  lemma {:induction false} EntriesInRuns(c: Config, edits: seq<Edit>, url: string)
    requires Entries(Registries(c), url) <= 1
    ensures Entries(Registries(ApplyAll(c, edits)), url) <= 1
    ensures OneUrlEach(Registries(c)) ==>
              && OneUrlEach(Registries(ApplyAll(c, edits)))
              && (Listed(Registries(ApplyAll(c, edits)), url) <==> Wanted(Listed(Registries(c), url), edits, url))
    decreases |edits|
  {
    EntriesListed(Registries(ApplyAll(c, edits)), url);
    if edits != [] {
      var n := |edits| - 1;
      var before := ApplyAll(c, edits[..n]);
      EntriesInRuns(c, edits[..n], url);
      EntriesListed(Registries(before), url);
      EditEntries(before, edits[n], url);
    }
  }
}

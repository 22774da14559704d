/** Strings as the server uses them: splitting and joining on a separator character,
    and the path cleaning that the datastore applies to every key. */
module Text {

  datatype Option<+T> = None | Some(value: T)

  datatype Result<+T, +E> = Ok(value: T) | Err(error: E)

  ghost predicate NoDup<T>(s: seq<T>) {
    forall i, j :: 0 <= i < j < |s| ==> s[i] != s[j]
  }

  lemma NoDupConcat<T>(a: seq<T>, b: seq<T>)
    requires NoDup(a) && NoDup(b) && forall x :: x in a ==> x !in b
    ensures NoDup(a + b)
  {
    forall i, j | 0 <= i < j < |a + b| ensures (a + b)[i] != (a + b)[j] {
      if i < |a| <= j {
        assert a[i] in a && b[j - |a|] in b;
      }
    }
  }

  // ---------------------------------------------------------------- split and join

  /** Go's strings.Split for a one-character separator. */
  function Split(s: string, sep: char): (parts: seq<string>)
    ensures |parts| >= 1
  {
    if s == "" then [""]
    else if s[0] == sep then [""] + Split(s[1..], sep)
    else
      var rest := Split(s[1..], sep);
      [[s[0]] + rest[0]] + rest[1..]
  }

  /** Go's strings.Join for a one-character separator. */
  function Join(parts: seq<string>, sep: char): string {
    if |parts| == 0 then ""
    else if |parts| == 1 then parts[0]
    else parts[0] + [sep] + Join(parts[1..], sep)
  }

  predicate Free(s: string, c: char) {
    forall i :: 0 <= i < |s| ==> s[i] != c
  }

  predicate AllFree(parts: seq<string>, c: char) {
    forall i :: 0 <= i < |parts| ==> Free(parts[i], c)
  }

  lemma {:induction false} JoinSplit(s: string, sep: char)
    ensures Join(Split(s, sep), sep) == s
  {
    if s != "" {
      JoinSplit(s[1..], sep);
      var rest := Split(s[1..], sep);
      if s[0] == sep {
        assert ([""] + rest)[1..] == rest;
      } else if |rest| > 1 {
        assert ([[s[0]] + rest[0]] + rest[1..])[1..] == rest[1..];
      }
    }
  }

  lemma {:induction false} SplitFree(s: string, sep: char)
    ensures AllFree(Split(s, sep), sep)
  {
    if s != "" {
      SplitFree(s[1..], sep);
    }
  }

  lemma {:induction false} SplitAtom(s: string, sep: char)
    requires Free(s, sep)
    ensures Split(s, sep) == [s]
  {
    if s != "" {
      assert forall i :: 0 <= i < |s[1..]| ==> s[1..][i] == s[i + 1];
      SplitAtom(s[1..], sep);
      assert [s[0]] + s[1..] == s;
    }
  }

  /** Splitting distributes over a separator, wherever it stands. */
  lemma {:induction false} SplitConcat(a: string, b: string, sep: char)
    ensures Split(a + [sep] + b, sep) == Split(a, sep) + Split(b, sep)
  {
    var s := a + [sep] + b;
    if a == "" {
      assert s[1..] == b;
    } else {
      assert s[1..] == a[1..] + [sep] + b;
      SplitConcat(a[1..], b, sep);
    }
  }

  lemma {:induction false} SplitJoin(parts: seq<string>, sep: char)
    requires |parts| >= 1
    requires AllFree(parts, sep)
    ensures Split(Join(parts, sep), sep) == parts
  {
    SplitAtom(parts[0], sep);
    if |parts| > 1 {
      SplitJoin(parts[1..], sep);
      SplitConcat(parts[0], Join(parts[1..], sep), sep);
    }
  }

  lemma {:induction false} JoinConcat(a: seq<string>, b: seq<string>, sep: char)
    requires |a| >= 1 && |b| >= 1
    ensures Join(a + b, sep) == Join(a, sep) + [sep] + Join(b, sep)
  {
    if |a| == 1 {
      assert (a + b)[1..] == b;
    } else {
      assert (a + b)[1..] == a[1..] + b;
      JoinConcat(a[1..], b, sep);
    }
  }

  /** Two strings with the same parts are the same string. */
  lemma SplitInjective(a: string, b: string, sep: char)
    requires Split(a, sep) == Split(b, sep)
    ensures a == b
  {
    JoinSplit(a, sep);
    JoinSplit(b, sep);
  }

  /** Comparing text up to a separator is comparing part by part. */
  lemma PrefixByParts(a: string, b: string, sep: char)
    ensures (b == a || a + [sep] <= b) <==> Split(a, sep) <= Split(b, sep)
  {
    if a + [sep] <= b {
      assert b == a + [sep] + b[|a| + 1..];
      SplitConcat(a, b[|a| + 1..], sep);
    }
    if Split(a, sep) <= Split(b, sep) {
      var x, y := Split(a, sep), Split(b, sep);
      assert Join(x, sep) == a && Join(y, sep) == b by {
        JoinSplit(a, sep);
        JoinSplit(b, sep);
      }
      if |x| == |y| {
        assert x == y;
      } else {
        assert y == x + y[|x|..];
        JoinConcat(x, y[|x|..], sep);
      }
    }
  }

  // ---------------------------------------------------------------- datastore keys

  /** A path component that cleaning leaves alone. */
  predicate CleanComponent(p: string) {
    p != "" && p != "." && p != ".." && Free(p, '/')
  }

  predicate AllClean(parts: seq<string>) {
    forall i :: 0 <= i < |parts| ==> CleanComponent(parts[i])
  }

  /** The components that remain of `parts` once empty and "." parts are dropped and ".."
      has removed its predecessor; `done` is what has been kept so far. */
  function CleanParts(done: seq<string>, parts: seq<string>): seq<string>
    decreases parts
  {
    if parts == [] then done
    else if parts[0] == "" || parts[0] == "." then CleanParts(done, parts[1..])
    else if parts[0] == ".." then CleanParts(if done == [] then [] else done[..|done| - 1], parts[1..])
    else CleanParts(done + [parts[0]], parts[1..])
  }

  /** The key that datastore.NewKey makes of a string: a cleaned, rooted path. */
  function NewKey(s: string): string {
    "/" + Join(CleanParts([], Split(s, '/')), '/')
  }

  /** A key that starts with a slash and has only clean components. */
  predicate CleanKey(k: string) {
    "/" <= k && AllClean(Split(k, '/')[1..])
  }

  lemma {:induction false} CleanPartsSize(done: seq<string>, parts: seq<string>)
    requires AllFree(parts, '/')
    ensures |CleanParts(done, parts)| <= |done| + |parts|
    ensures |CleanParts(done, parts)| == |done| + |parts| <==> AllClean(parts)
    ensures AllClean(parts) ==> CleanParts(done, parts) == done + parts
    ensures AllClean(done) ==> AllClean(CleanParts(done, parts))
    decreases parts
  {
    if parts != [] {
      var next := if parts[0] == "" || parts[0] == "." then done
                  else if parts[0] == ".." then (if done == [] then [] else done[..|done| - 1])
                  else done + [parts[0]];
      CleanPartsSize(next, parts[1..]);
      assert parts == [parts[0]] + parts[1..];
      assert AllClean(parts) <==> CleanComponent(parts[0]) && AllClean(parts[1..]);
    }
  }

  lemma RootedParts(k: string)
    requires "/" <= k
    ensures Split(k, '/') == [""] + Split(k[1..], '/')
  {
    assert k == "" + "/" + k[1..];
    SplitConcat("", k[1..], '/');
  }

  lemma UnderRoot(dir: string, rest: string)
    requires Free(dir, '/')
    ensures Split("/" + dir + "/" + rest, '/') == ["", dir] + Split(rest, '/')
  {
    SplitConcat("/" + dir, rest, '/');
    assert ("/" + dir)[1..] == dir;
    RootedParts("/" + dir);
    SplitAtom(dir, '/');
  }

  /** Cleaning is the identity on clean keys, and only the root besides them is a fixed point. */
  lemma NewKeyFixed(k: string)
    ensures NewKey(k) == k <==> k == "/" || CleanKey(k)
  {
    var parts := Split(k, '/');
    SplitFree(k, '/');
    var kept := CleanParts([], parts);
    if "/" <= k {
      RootedParts(k);
      var tail := Split(k[1..], '/');
      assert kept == CleanParts([], tail) by { assert parts[1..] == tail; }
      assert AllFree(tail, '/') by { SplitFree(k[1..], '/'); }
      CleanPartsSize([], tail);
      JoinSplit(k[1..], '/');
      if NewKey(k) == k && k != "/" {
        assert Join(kept, '/') == k[1..];
        assert kept != [];
        assert AllFree(kept, '/');
        SplitJoin(kept, '/');
        assert kept == tail;
      }
      if CleanKey(k) {
        assert parts[1..] == tail;
        assert kept == tail;
        assert "/" + k[1..] == k;
      }
      if k == "/" {
        assert Split("", '/') == [""];
        assert CleanParts([], [""]) == CleanParts([], []);
      }
    }
  }

  lemma NewKeyIsClean(s: string)
    ensures NewKey(s) == "/" || CleanKey(NewKey(s))
  {
    SplitFree(s, '/');
    var kept := CleanParts([], Split(s, '/'));
    CleanPartsSize([], Split(s, '/'));
    if kept != [] {
      assert AllFree(kept, '/');
      SplitJoin(kept, '/');
      RootedParts(NewKey(s));
      assert NewKey(s)[1..] == Join(kept, '/');
    }
  }
}

/** The hash ledger: the file of SHA-256 hex digests of fragments already
    reported. It is read line by line (a missing file reads as empty,
    lib/website_matcher.py:54-62, lib/website_hash.py:75-83) and, at the end
    of a keyword run, rewritten as the sorted, duplicate-free list of every
    digest known (lib/website_matcher.py:250-255). Digests are compared as
    strings; the hash function itself is a parameter of the other modules. */
module Ledger {
  import opened Util
  import opened Text

  type Hash = string

  /** `load_old_hashes`: the stripped lines of the hash file, or nothing when
      the file cannot be opened (None). */
  function LoadOldHashes(file: Option<string>): (hs: seq<Hash>)
    ensures file.None? ==> hs == []
    ensures file.Some? ==> |hs| == |Lines(file.value)|
    ensures file.Some? ==> forall i | 0 <= i < |hs| :: hs[i] == Strip(Lines(file.value)[i])
    ensures forall i | 0 <= i < |hs| :: Stripped(hs[i])
  {
    match file
    case None => []
    case Some(content) => StripLines(content)
  }

  // ---------------------------------------------------------------------
  // Python's string order (code point by code point, a proper prefix first)

  predicate LexLt(a: string, b: string)
    decreases |a|
  {
    if a == [] then b != []
    else if b == [] then false
    else if a[0] != b[0] then a[0] < b[0]
    else LexLt(a[1..], b[1..])
  }

  lemma {:induction false} LexIrreflexive(a: string)
    ensures !LexLt(a, a)
    decreases |a|
  {
    if a != [] {
      LexIrreflexive(a[1..]);
    }
  }

  lemma {:induction false} LexTransitive(a: string, b: string, c: string)
    requires LexLt(a, b) && LexLt(b, c)
    ensures LexLt(a, c)
    decreases |a|
  {
    if a != [] && b != [] && c != [] && a[0] == b[0] && b[0] == c[0] {
      LexTransitive(a[1..], b[1..], c[1..]);
    }
  }

  lemma {:induction false} LexTotal(a: string, b: string)
    requires a != b
    ensures LexLt(a, b) || LexLt(b, a)
    decreases |a|
  {
    if a != [] && b != [] && a[0] == b[0] {
      assert a == [a[0]] + a[1..] && b == [b[0]] + b[1..];
      LexTotal(a[1..], b[1..]);
    }
  }

  /** Strictly increasing in string order, hence duplicate-free. */
  predicate StrictlySorted(s: seq<string>)
  {
    forall i, j | 0 <= i < j < |s| :: LexLt(s[i], s[j])
  }

  lemma SortedNoDup(s: seq<string>)
    requires StrictlySorted(s)
    ensures NoDup(s)
  {
    forall i, j | 0 <= i < j < |s|
      ensures s[i] != s[j]
    {
      LexIrreflexive(s[i]);
    }
  }

  function InsertUnique(x: string, s: seq<string>): (r: seq<string>)
    requires StrictlySorted(s)
    ensures StrictlySorted(r)
    ensures ToSet(r) == ToSet(s) + {x}
  {
    if s == [] then [x]
    else if x == s[0] then
      assert ToSet(s) == ToSet(s) + {x};
      s
    else if LexLt(x, s[0]) then
      assert forall j | 0 < j < |s| :: LexLt(s[0], s[j]);
      LexTransitiveAll(x, s);
      [x] + s
    else
      LexTotal(x, s[0]);
      var rest := InsertUnique(x, s[1..]);
      ConsSorted(s[0], s[1..], rest, x);
      assert s == [s[0]] + s[1..];
      [s[0]] + rest
  }

  /** Putting back a head that is below everything the sorted tail holds,
      and below x. */
  lemma ConsSorted(h: string, tail: seq<string>, rest: seq<string>, x: string)
    requires StrictlySorted([h] + tail) && LexLt(h, x)
    requires StrictlySorted(rest) && ToSet(rest) == ToSet(tail) + {x}
    ensures StrictlySorted([h] + rest)
    ensures ToSet([h] + rest) == ToSet([h] + tail) + {x}
  {
    var s := [h] + tail;
    forall j | 0 <= j < |rest|
      ensures LexLt(h, rest[j])
    {
      assert rest[j] in ToSet(rest);
      if rest[j] != x {
        assert rest[j] in tail;
        var q :| 0 <= q < |tail| && tail[q] == rest[j];
        assert s[0] == h && s[q + 1] == rest[j];
        assert LexLt(s[0], s[q + 1]);
      }
    }
    assert ToSet(s) == {h} + ToSet(tail);
    assert ToSet([h] + rest) == {h} + ToSet(rest);
  }

  lemma LexTransitiveAll(x: string, s: seq<string>)
    requires StrictlySorted(s) && s != [] && LexLt(x, s[0])
    ensures forall j | 0 <= j < |s| :: LexLt(x, s[j])
  {
    forall j | 0 < j < |s|
      ensures LexLt(x, s[j])
    {
      LexTransitive(x, s[0], s[j]);
    }
  }

  /** `sorted(set(hs))`: the digests to write, in string order, each once. */
  function SortedUnique(hs: seq<string>): (r: seq<string>)
    ensures StrictlySorted(r)
    ensures ToSet(r) == ToSet(hs)
  {
    if hs == [] then []
    else
      assert ToSet(hs) == ToSet(hs[1..]) + {hs[0]};
      InsertUnique(hs[0], SortedUnique(hs[1..]))
  }

  /** The ledger does not depend on the order in which `set` iterates: two
      strictly sorted lists with the same elements are equal. */
  lemma {:induction false} SortedSameSetEqual(a: seq<string>, b: seq<string>)
    requires StrictlySorted(a) && StrictlySorted(b)
    requires ToSet(a) == ToSet(b)
    ensures a == b
    decreases |a|
  {
    if a != [] {
      assert a[0] in ToSet(a);
    }
    if b != [] {
      assert b[0] in ToSet(b);
    }
    if a != [] && b != [] {
      HeadsEqual(a, b);
      SortedNoDup(a);
      SortedNoDup(b);
      forall y | y in ToSet(a[1..])
        ensures y in ToSet(b[1..])
      {
        var i' :| 0 <= i' < |a[1..]| && a[1..][i'] == y;
        assert a[i' + 1] == y && y in ToSet(a) && y != a[0];
        var j :| 0 <= j < |b| && b[j] == y;
        assert b[1..][j - 1] == y;
      }
      forall y | y in ToSet(b[1..])
        ensures y in ToSet(a[1..])
      {
        var i' :| 0 <= i' < |b[1..]| && b[1..][i'] == y;
        assert b[i' + 1] == y && y in ToSet(b) && y != b[0];
        var j :| 0 <= j < |a| && a[j] == y;
        assert a[1..][j - 1] == y;
      }
      SortedSameSetEqual(a[1..], b[1..]);
      assert a == [a[0]] + a[1..] && b == [b[0]] + b[1..];
    }
  }

  /** The least elements of two strictly sorted lists with the same
      elements agree. */
  lemma HeadsEqual(a: seq<string>, b: seq<string>)
    requires StrictlySorted(a) && StrictlySorted(b)
    requires ToSet(a) == ToSet(b) && a != [] && b != []
    ensures a[0] == b[0]
  {
    assert a[0] in ToSet(b) && b[0] in ToSet(a);
    var i :| 0 <= i < |b| && b[i] == a[0];
    var j :| 0 <= j < |a| && a[j] == b[0];
    if i > 0 && j > 0 {
      LexTransitive(a[0], b[0], a[0]);
      LexIrreflexive(a[0]);
    }
  }

  /** The text written to the ledger file: `"\n".join(hs)`. */
  function LedgerFile(hs: seq<Hash>): string
  {
    Join(hs, "\n")
  }

  /** A sorted ledger of clean lines reads back unchanged on the next run
      (except the lone empty digest, whose file is empty). */
  lemma LedgerRoundTrip(hs: seq<Hash>)
    requires StrictlySorted(hs)
    requires forall i | 0 <= i < |hs| :: CleanLine(hs[i])
    requires hs != [""]
    ensures LoadOldHashes(Some(LedgerFile(hs))) == hs
  {
    if |hs| >= 2 {
      assert LexLt(hs[0], hs[|hs| - 1]);
    }
    StripLinesJoin(hs);
  }
}

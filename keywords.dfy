/** Keyword files and the two ways keywords are matched against text:
    as whole words, case-insensitively, anywhere in the text
    (`\b(k)\b` with `re.IGNORECASE` and `search`, lib/website_matcher.py:50),
    and as a case-insensitive occurrence within the first line
    (`.*k.*` with `re.IGNORECASE` and `match`, lib/website_hash.py:71, 89).
    Keywords are literal strings; regular-expression syntax inside a
    keyword is not modelled. Also the ±70-character excerpt around the
    first match and the `**…**` highlighting of every match in it
    (lib/website_matcher.py:79-81, 155-157). */
module Keywords {
  import opened Util
  import opened Text

  /** `[line.strip() for line in f]` over the keyword file: one keyword per
      line, in file order; a blank line gives the empty keyword. */
  function LoadKeywords(content: string): (ks: seq<string>)
    ensures |ks| == |Lines(content)|
    ensures forall i | 0 <= i < |ks| :: ks[i] == Strip(Lines(content)[i]) && Stripped(ks[i])
  {
    StripLines(content)
  }

  // ---------------------------------------------------------------------
  // Whole-word matching

  /** Position p of s is a word boundary (`\b`): exactly one of the
      characters around it is a word character. */
  predicate Boundary(s: string, p: int)
    requires 0 <= p <= |s|
  {
    (p > 0 && IsWordChar(s[p - 1])) != (p < |s| && IsWordChar(s[p]))
  }

  /** `\b(k)\b` matches s at position i, ignoring case. */
  predicate MatchesAt(s: string, k: string, i: int)
  {
    0 <= i && i + |k| <= |s| && CaseEq(s[i..i + |k|], k)
    && Boundary(s, i) && Boundary(s, i + |k|)
  }

  /** The leftmost whole-word match of k in s at or after position i. */
  function SearchFrom(s: string, k: string, i: nat): (r: Option<nat>)
    ensures r.Some? ==> i <= r.value && MatchesAt(s, k, r.value)
    ensures r.Some? ==> forall j | i <= j < r.value :: !MatchesAt(s, k, j)
    ensures r.None? ==> forall j | i <= j :: !MatchesAt(s, k, j)
    decreases |s| - i
  {
    if i + |k| > |s| then None
    else if MatchesAt(s, k, i) then Some(i)
    else SearchFrom(s, k, i + 1)
  }

  /** `re.search`: the start of the leftmost match, if any. */
  function Search(s: string, k: string): Option<nat>
  {
    SearchFrom(s, k, 0)
  }

  /** The empty keyword (from a blank line in the keyword file) matches
      exactly the texts that contain a word character. */
  lemma EmptyKeywordMatches(s: string)
    ensures Search(s, "").Some? <==> HasWordChar(s)
  {
    if HasWordChar(s) {
      var j :| 0 <= j < |s| && IsWordChar(s[j]);
      var f := FirstWordChar(s, j);
      assert CaseEq(s[f..f], "");
      assert MatchesAt(s, "", f);
    }
    if Search(s, "").Some? {
      var p := Search(s, "").value;
      if p > 0 && IsWordChar(s[p - 1]) {
      } else {
        assert IsWordChar(s[p]);
      }
    }
  }

  /** The first word character of s, given that the one at j is one. */
  lemma FirstWordChar(s: string, j: nat) returns (f: nat)
    requires j < |s| && IsWordChar(s[j])
    ensures f <= j && IsWordChar(s[f])
    ensures forall q | 0 <= q < f :: !IsWordChar(s[q])
    decreases j
  {
    if exists q | 0 <= q < j :: IsWordChar(s[q]) {
      var q :| 0 <= q < j && IsWordChar(s[q]);
      f := FirstWordChar(s, q);
    } else {
      f := j;
    }
  }

  // ---------------------------------------------------------------------
  // First-line matching (the selector-based monitor)

  /** `.*k.*` matches at the start of s: k occurs, ignoring case, at a
      position i with no newline before it (`.` does not match a newline). */
  predicate LineMatchAt(s: string, k: string, i: int)
  {
    0 <= i && i + |k| <= |s| && '\n' !in s[..i] && CaseEq(s[i..i + |k|], k)
  }

  function LineMatchFrom(s: string, k: string, i: nat): (b: bool)
    requires i <= |s| && '\n' !in s[..i]
    ensures b <==> exists j | i <= j :: LineMatchAt(s, k, j)
    decreases |s| - i
  {
    if i + |k| > |s| then false
    else if CaseEq(s[i..i + |k|], k) then
      assert LineMatchAt(s, k, i);
      true
    else if s[i] == '\n' then
      assert forall j | i < j <= |s| :: s[..j][i] == s[i];
      false
    else
      assert s[..i + 1] == s[..i] + [s[i]];
      LineMatchFrom(s, k, i + 1)
  }

  /** `re.match(".*k.*", s, re.IGNORECASE)` succeeds. */
  function LineMatch(s: string, k: string): bool
  {
    LineMatchFrom(s, k, 0)
  }

  /** k occurs in s, ignoring case. */
  predicate ContainsAt(s: string, k: string, i: int)
  {
    0 <= i && i + |k| <= |s| && CaseEq(s[i..i + |k|], k)
  }

  /** On text without a newline (all normalised text) the first-line match
      is plain case-insensitive substring containment, with no word-boundary
      requirement; the empty keyword matches every text. */
  lemma LineMatchIsContainment(s: string, k: string)
    requires '\n' !in s
    ensures LineMatch(s, k) <==> exists i :: ContainsAt(s, k, i)
    ensures k == "" ==> LineMatch(s, k)
  {
    if exists i :: ContainsAt(s, k, i) {
      var i :| ContainsAt(s, k, i);
      assert LineMatchAt(s, k, i);
    }
    if LineMatch(s, k) {
      var j :| 0 <= j && LineMatchAt(s, k, j);
      assert ContainsAt(s, k, j);
    }
    if k == "" {
      assert CaseEq(s[0..0], k);
      assert LineMatchAt(s, k, 0);
    }
  }

  // ---------------------------------------------------------------------
  // Excerpt window

  const Radius: nat := 70

  /** `text[max(0, i-70) : i+n+70]`; a Python slice clamps its end to the
      text and is empty when its start lies past its end. */
  function Excerpt(t: string, i: nat, n: nat): string
  {
    var lo := i - Min(i, Radius);
    var hi := Min(|t|, i + n + Radius);
    if lo <= hi then t[lo..hi] else []
  }

  /** The excerpt is the contiguous part of the text reaching up to 70
      characters on either side of the match, and the match is still a
      whole-word match inside it. */
  lemma ExcerptAroundMatch(t: string, k: string, i: nat)
    requires MatchesAt(t, k, i)
    ensures var lo := i - Min(i, Radius); var x := Excerpt(t, i, |k|);
      && lo + |x| <= |t| && x == t[lo..lo + |x|]
      && |x| == Min(i, Radius) + |k| + Min(Radius, |t| - i - |k|)
      && |x| <= |k| + 2 * Radius
      && MatchesAt(x, k, i - lo)
  {
    var lo := i - Min(i, Radius);
    var hi := Min(|t|, i + |k| + Radius);
    assert lo <= i + |k| <= hi;
    var x := t[lo..hi];
    assert x == Excerpt(t, i, |k|);
    assert x[i - lo..i - lo + |k|] == t[i..i + |k|];
    if lo > 0 {
      assert x[i - lo - 1] == t[i - 1];
    }
    if i + |k| < |t| {
      assert i + |k| - lo < |x|;
      assert x[i + |k| - lo] == t[i + |k|];
    }
    assert i + |k| > 0 ==> x[i + |k| - lo - 1] == t[i + |k| - 1];
    if i - lo < |x| {
      assert x[i - lo] == t[i];
    }
  }

  // ---------------------------------------------------------------------
  // Highlighting: `k_re.sub(r"**\1**", x)`

  /** A highlighted text is a sequence of untouched characters and marked
      matches. */
  datatype Piece = Plain(c: char) | Mark(w: string)

  /** The text as written out: each match wrapped in `**`. */
  function Render(ps: seq<Piece>): string
  {
    if ps == [] then ""
    else
      (match ps[0]
       case Plain(c) => [c]
       case Mark(w) => "**" + w + "**") + Render(ps[1..])
  }

  /** The text with the markers taken out again. */
  function Erase(ps: seq<Piece>): string
  {
    if ps == [] then ""
    else
      (match ps[0]
       case Plain(c) => [c]
       case Mark(w) => w) + Erase(ps[1..])
  }

  function MarkCount(ps: seq<Piece>): nat
  {
    if ps == [] then 0 else (if ps[0].Mark? then 1 else 0) + MarkCount(ps[1..])
  }

  /** The substitution scan from position i: leftmost, non-overlapping
      matches are marked; an empty match (the empty keyword) marks the
      position and the scan moves on by one character. */
  function Pieces(x: string, k: string, i: nat): seq<Piece>
    requires i <= |x|
    decreases |x| - i
  {
    if i == |x| then (if MatchesAt(x, k, i) then [Mark("")] else [])
    else if MatchesAt(x, k, i) then
      if |k| == 0 then [Mark(""), Plain(x[i])] + Pieces(x, k, i + 1)
      else [Mark(x[i..i + |k|])] + Pieces(x, k, i + |k|)
    else [Plain(x[i])] + Pieces(x, k, i + 1)
  }

  function Highlight(x: string, k: string): string
  {
    Render(Pieces(x, k, 0))
  }

  lemma {:induction false} RenderAppend(a: seq<Piece>, b: seq<Piece>)
    ensures Render(a + b) == Render(a) + Render(b)
    ensures Erase(a + b) == Erase(a) + Erase(b)
    ensures MarkCount(a + b) == MarkCount(a) + MarkCount(b)
    decreases |a|
  {
    if a != [] {
      assert (a + b)[1..] == a[1..] + b;
      RenderAppend(a[1..], b);
    } else {
      assert a + b == b;
    }
  }

  /** Where the substitution scan goes on after position i. */
  function NextScan(x: string, k: string, i: nat): (j: nat)
    requires i < |x|
    ensures i < j <= |x|
  {
    if MatchesAt(x, k, i) && |k| > 0 then i + |k| else i + 1
  }

  /** Removing the highlight markers gives back the scanned text. */
  lemma {:induction false} PiecesErase(x: string, k: string, i: nat)
    requires i <= |x|
    ensures Erase(Pieces(x, k, i)) == x[i..]
    decreases |x| - i
  {
    if i == |x| {
      if MatchesAt(x, k, i) {
        assert Erase([Mark("")]) == "" + Erase([]);
      }
    } else {
      PiecesErase(x, k, NextScan(x, k, i));
      PiecesEraseStep(x, k, i);
    }
  }

  lemma PiecesEraseStep(x: string, k: string, i: nat)
    requires i < |x|
    requires Erase(Pieces(x, k, NextScan(x, k, i))) == x[NextScan(x, k, i)..]
    ensures Erase(Pieces(x, k, i)) == x[i..]
  {
    var j := NextScan(x, k, i);
    var rest := Pieces(x, k, j);
    var head: seq<Piece>;
    if MatchesAt(x, k, i) && |k| == 0 {
      head := [Mark(""), Plain(x[i])];
      assert Pieces(x, k, i) == head + rest;
    } else if MatchesAt(x, k, i) {
      head := [Mark(x[i..j])];
      PiecesAtMatch(x, k, i);
    } else {
      head := [Plain(x[i])];
      assert Pieces(x, k, i) == head + rest;
    }
    EraseHeads(x[i..j], x[i]);
    assert Erase(head) == x[i..j];
    SliceSplit(x, i, j);
    EraseStep(head, rest, x[i..j], x[j..]);
  }

  lemma PiecesAtMatch(x: string, k: string, i: nat)
    requires i < |x| && MatchesAt(x, k, i) && |k| > 0
    ensures Pieces(x, k, i) == [Mark(x[i..i + |k|])] + Pieces(x, k, i + |k|)
  {
  }

  lemma SliceSplit(x: string, i: nat, j: nat)
    requires i <= j <= |x|
    ensures x[i..] == x[i..j] + x[j..]
    ensures j == i + 1 ==> x[i..j] == [x[i]]
  {
  }

  lemma EraseStep(head: seq<Piece>, rest: seq<Piece>, u: string, v: string)
    requires Erase(head) == u && Erase(rest) == v
    ensures Erase(head + rest) == u + v
  {
    RenderAppend(head, rest);
  }

  lemma EraseHeads(w: string, c: char)
    ensures Erase([Mark(w)]) == w
    ensures Erase([Plain(c)]) == [c]
    ensures Erase([Mark(""), Plain(c)]) == [c]
  {
    assert [Mark(""), Plain(c)][1..] == [Plain(c)];
  }

  /** Every marked word is an occurrence of the keyword, up to case. */
  lemma {:induction false} PiecesMarksMatch(x: string, k: string, i: nat)
    requires i <= |x|
    ensures forall p | p in Pieces(x, k, i) && p.Mark? :: CaseEq(p.w, k)
    decreases |x| - i
  {
    if i < |x| {
      if MatchesAt(x, k, i) {
        if |k| == 0 {
          PiecesMarksMatch(x, k, i + 1);
        } else {
          PiecesMarksMatch(x, k, i + |k|);
        }
      } else {
        PiecesMarksMatch(x, k, i + 1);
      }
    }
  }

  /** If the keyword matches somewhere at or after i, the scan marks at
      least one match. */
  lemma {:induction false} PiecesMarkSome(x: string, k: string, i: nat, j: nat)
    requires i <= j <= |x| && MatchesAt(x, k, j)
    ensures MarkCount(Pieces(x, k, i)) >= 1
    decreases |x| - i
  {
    if i == |x| {
    } else if MatchesAt(x, k, i) {
      if |k| == 0 {
        RenderAppend([Mark(""), Plain(x[i])], Pieces(x, k, i + 1));
      } else {
        RenderAppend([Mark(x[i..i + |k|])], Pieces(x, k, i + |k|));
      }
    } else {
      PiecesMarkSome(x, k, i + 1, j);
      RenderAppend([Plain(x[i])], Pieces(x, k, i + 1));
    }
  }

  /** Where piece n of a scan starts, counted in characters of the scanned
      text from the scan's start. */
  function Offset(ps: seq<Piece>, n: nat): nat
    requires n <= |ps|
  {
    |Erase(ps[..n])|
  }

  /** The mark of an empty match. */
  predicate EmptyMark(p: Piece)
  {
    p.Mark? && p.w == []
  }

  /** Piece n of a scan from i is exact: a mark sits where a match starts,
      and a character is left plain only where no match starts, except the
      character after the empty match the empty keyword marks. */
  predicate PieceExact(x: string, k: string, i: nat, ps: seq<Piece>, n: nat)
    requires n < |ps|
  {
    && (ps[n].Mark? ==> MatchesAt(x, k, i + Offset(ps, n)))
    && (ps[n].Plain? ==> (MatchesAt(x, k, i + Offset(ps, n)) <==> |k| == 0 && n > 0 && EmptyMark(ps[n - 1])))
  }

  /** Every piece of the scan from i is exact. */
  predicate ScanExact(x: string, k: string, i: nat, ps: seq<Piece>)
  {
    forall n | 0 <= n < |ps| :: PieceExact(x, k, i, ps, n)
  }

  lemma OffsetAppend(head: seq<Piece>, rest: seq<Piece>, m: nat)
    requires m <= |rest|
    ensures Offset(head + rest, |head| + m) == |Erase(head)| + Offset(rest, m)
  {
    assert (head + rest)[..|head| + m] == head + rest[..m];
    RenderAppend(head, rest[..m]);
  }

  /** Exact leading pieces followed by an exact scan from where they end
      form an exact scan. */
  lemma ExactAppend(x: string, k: string, i: nat, j: nat, head: seq<Piece>, rest: seq<Piece>)
    requires i + |Erase(head)| == j && head != [] && !EmptyMark(head[|head| - 1])
    requires ScanExact(x, k, i, head) && ScanExact(x, k, j, rest)
    ensures ScanExact(x, k, i, head + rest)
  {
    forall n | 0 <= n < |head + rest|
      ensures PieceExact(x, k, i, head + rest, n)
    {
      if n < |head| {
        ExactInHead(x, k, i, head, rest, n);
      } else {
        ExactInRest(x, k, i, j, head, rest, n - |head|);
      }
    }
  }

  lemma ExactInHead(x: string, k: string, i: nat, head: seq<Piece>, rest: seq<Piece>, n: nat)
    requires n < |head| && ScanExact(x, k, i, head)
    ensures PieceExact(x, k, i, head + rest, n)
  {
    var ps := head + rest;
    assert PieceExact(x, k, i, head, n);
    assert ps[..n] == head[..n];
    if n > 0 {
      assert ps[n - 1] == head[n - 1];
    }
  }

  lemma ExactInRest(x: string, k: string, i: nat, j: nat, head: seq<Piece>, rest: seq<Piece>, m: nat)
    requires i + |Erase(head)| == j && head != [] && !EmptyMark(head[|head| - 1])
    requires m < |rest| && ScanExact(x, k, j, rest)
    ensures PieceExact(x, k, i, head + rest, |head| + m)
  {
    var ps, n := head + rest, |head| + m;
    assert PieceExact(x, k, j, rest, m);
    OffsetAppend(head, rest, m);
    if m > 0 {
      assert ps[n - 1] == rest[m - 1];
    } else {
      assert ps[n - 1] == head[|head| - 1];
    }
  }

  /** The substitution marks every leftmost non-overlapping match and leaves
      plain only the characters where no match starts. */
  lemma {:induction false} PiecesExact(x: string, k: string, i: nat)
    requires i <= |x|
    ensures ScanExact(x, k, i, Pieces(x, k, i))
    decreases |x| - i
  {
    var ps := Pieces(x, k, i);
    if i == |x| {
      if MatchesAt(x, k, i) {
        assert Offset(ps, 0) == 0;
      }
    } else {
      var j := NextScan(x, k, i);
      PiecesExact(x, k, j);
      var head := ScanHead(x, k, i);
      ExactAppend(x, k, i, j, head, Pieces(x, k, j));
    }
  }

  /** The pieces one step of the scan from i < |x| emits, before the scan
      goes on from NextScan(x, k, i): each of them is exact. */
  lemma ScanHead(x: string, k: string, i: nat) returns (head: seq<Piece>)
    requires i < |x|
    ensures Pieces(x, k, i) == head + Pieces(x, k, NextScan(x, k, i))
    ensures i + |Erase(head)| == NextScan(x, k, i) && head != [] && !EmptyMark(head[|head| - 1])
    ensures ScanExact(x, k, i, head)
  {
    if MatchesAt(x, k, i) && |k| == 0 {
      head := [Mark(""), Plain(x[i])];
      EmptyMatchHead(x, k, i);
    } else if MatchesAt(x, k, i) {
      head := [Mark(x[i..i + |k|])];
      PiecesAtMatch(x, k, i);
      MatchHead(x, k, i);
    } else {
      head := [Plain(x[i])];
      PlainHead(x, k, i);
    }
  }

  lemma EmptyMatchHead(x: string, k: string, i: nat)
    requires i < |x| && MatchesAt(x, k, i) && |k| == 0
    ensures |Erase([Mark(""), Plain(x[i])])| == 1
    ensures ScanExact(x, k, i, [Mark(""), Plain(x[i])])
  {
    var head := [Mark(""), Plain(x[i])];
    EraseHeads("", x[i]);
    assert head[..0] == [] && head[..1] == [Mark("")];
    assert PieceExact(x, k, i, head, 0) && PieceExact(x, k, i, head, 1);
  }

  lemma MatchHead(x: string, k: string, i: nat)
    requires i < |x| && MatchesAt(x, k, i) && |k| > 0
    ensures |Erase([Mark(x[i..i + |k|])])| == |k|
    ensures ScanExact(x, k, i, [Mark(x[i..i + |k|])])
  {
    var head := [Mark(x[i..i + |k|])];
    EraseHeads(x[i..i + |k|], x[i]);
    assert head[..0] == [];
    assert PieceExact(x, k, i, head, 0);
  }

  lemma PlainHead(x: string, k: string, i: nat)
    requires i < |x| && !MatchesAt(x, k, i)
    ensures |Erase([Plain(x[i])])| == 1
    ensures ScanExact(x, k, i, [Plain(x[i])])
  {
    var head := [Plain(x[i])];
    EraseHeads("", x[i]);
    assert head[..0] == [];
    assert Offset(head, 0) == 0;
    assert PieceExact(x, k, i, head, 0);
  }

  /** `re.sub` marks both words of "a a", not just the first. */
  lemma HighlightMarksEvery()
    ensures Highlight("a a", "a") == "**a** **a**"
  {
    var ps := [Mark("a"), Plain(' '), Mark("a")];
    ScanOfAA();
    assert ps[1..] == [Plain(' '), Mark("a")] && ps[1..][1..] == [Mark("a")];
    assert Render([Mark("a")]) == "**a**";
    assert Render([Plain(' '), Mark("a")]) == " **a**";
  }

  lemma ScanOfAA()
    ensures Pieces("a a", "a", 0) == [Mark("a"), Plain(' '), Mark("a")]
  {
    var x := "a a";
    assert IsWordChar('a') && !IsWordChar(' ');
    assert MatchesAt(x, "a", 0) && !MatchesAt(x, "a", 1) && MatchesAt(x, "a", 2) && !MatchesAt(x, "a", 3);
    assert x[2..3] == "a" && x[0..1] == "a";
    assert Pieces(x, "a", 3) == [];
    assert Pieces(x, "a", 2) == [Mark("a")];
    assert Pieces(x, "a", 1) == [Plain(' '), Mark("a")];
  }

  /** Each marked match adds exactly the four marker characters. */
  lemma {:induction false} RenderLength(ps: seq<Piece>)
    ensures |Render(ps)| == |Erase(ps)| + 4 * MarkCount(ps)
    decreases |ps|
  {
    if ps != [] {
      RenderLength(ps[1..]);
    }
  }

  /** The highlighted excerpt of the first match of k in t (empty when
      there is none; every caller has a match in hand). */
  function HighlightedExcerpt(t: string, k: string): string
  {
    match Search(t, k)
    case Some(i) => Highlight(Excerpt(t, i, |k|), k)
    case None => []
  }

  /** The highlighted excerpt is the excerpt around the first match with
      every leftmost non-overlapping match, at least one, wrapped in `**`;
      removing the markers gives back the excerpt, and the highlighting adds
      four characters per match. */
  lemma HighlightedExcerptSpec(t: string, k: string)
    requires Search(t, k).Some?
    ensures var i := Search(t, k).value; var x := Excerpt(t, i, |k|);
      var ps := Pieces(x, k, 0);
      && HighlightedExcerpt(t, k) == Render(ps)
      && Erase(ps) == x
      && MarkCount(ps) >= 1
      && |HighlightedExcerpt(t, k)| == |x| + 4 * MarkCount(ps)
      && ScanExact(x, k, 0, ps)
  {
    var i := Search(t, k).value;
    var x := Excerpt(t, i, |k|);
    ExcerptAroundMatch(t, k, i);
    PiecesErase(x, k, 0);
    PiecesMarkSome(x, k, 0, i - (i - Min(i, Radius)));
    RenderLength(Pieces(x, k, 0));
    PiecesExact(x, k, 0);
  }
}

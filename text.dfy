/** Character classes and the string operations the monitor applies to
    extracted text: Python's `str.strip`, `str.replace`, `str.split`,
    `str.join`, line iteration over a file, and the three-step whitespace
    normalisation applied to every HTML fragment
    (lib/website_matcher.py:146-149, lib/website_hash.py:52-55). */
module Text {
  import opened Util

  /** Python's `str.isspace`, restricted to the Latin-1 range. */
  predicate IsSpace(c: char)
  {
    c == ' ' || c == '\t' || c == '\n' || c == '\r' || c == '\U{000B}' || c == '\U{000C}'
    || ('\U{001C}' <= c <= '\U{001F}') || c == '\U{0085}' || c == '\U{00A0}'
  }

  /** A character matched by the regular-expression class `\w` (letters,
      digits and underscore), restricted to the Latin-1 range. */
  predicate IsWordChar(c: char)
  {
    ('a' <= c <= 'z') || ('A' <= c <= 'Z') || ('0' <= c <= '9') || c == '_'
    || c == '\U{00AA}' || c == '\U{00B2}' || c == '\U{00B3}' || c == '\U{00B5}'
    || c == '\U{00B9}' || c == '\U{00BA}' || ('\U{00BC}' <= c <= '\U{00BE}')
    || ('\U{00C0}' <= c <= '\U{00FF}' && c != '\U{00D7}' && c != '\U{00F7}')
  }

  /** `re.search(r"\w", s)` succeeds. */
  predicate HasWordChar(s: string)
  {
    exists i | 0 <= i < |s| :: IsWordChar(s[i])
  }

  /** Case folding used by `re.IGNORECASE`, on the Latin-1 range. */
  function Fold(c: char): char
  {
    if 'A' <= c <= 'Z' then (c as int + 32) as char
    else if '\U{00C0}' <= c <= '\U{00DE}' && c != '\U{00D7}' then (c as int + 32) as char
    else c
  }

  /** The two strings are equal up to case. */
  predicate CaseEq(a: string, b: string)
  {
    |a| == |b| && forall i | 0 <= i < |a| :: Fold(a[i]) == Fold(b[i])
  }

  // ---------------------------------------------------------------------
  // str.strip()

  /** Neither end of `s` is whitespace. */
  predicate Stripped(s: string)
  {
    s == [] || (!IsSpace(s[0]) && !IsSpace(s[|s| - 1]))
  }

  function TrimLeft(s: string): (r: string)
    ensures |r| <= |s| && r == s[|s| - |r|..]
    ensures r == [] || !IsSpace(r[0])
    ensures forall i | 0 <= i < |s| - |r| :: IsSpace(s[i])
  {
    if s != [] && IsSpace(s[0]) then TrimLeft(s[1..]) else s
  }

  function TrimRight(s: string): (r: string)
    ensures |r| <= |s| && r == s[..|r|]
    ensures r == [] || !IsSpace(r[|r| - 1])
    ensures forall i | |r| <= i < |s| :: IsSpace(s[i])
  {
    if s != [] && IsSpace(s[|s| - 1]) then TrimRight(s[..|s| - 1]) else s
  }

  /** Python's `s.strip()`: whitespace dropped from both ends (what is
      dropped is described by TrimLeft and TrimRight). */
  function Strip(s: string): (r: string)
    ensures Stripped(r)
    ensures |r| <= |s|
  {
    TrimRight(TrimLeft(s))
  }

  /** Only whitespace lies outside s[a..b]. */
  predicate SpaceOutside(s: string, a: nat, b: nat)
    requires a <= b <= |s|
  {
    (forall i | 0 <= i < a :: IsSpace(s[i])) && (forall i | b <= i < |s| :: IsSpace(s[i]))
  }

  /** Where the text that strip keeps starts in s. */
  function StripStart(s: string): (a: nat)
    ensures a <= |s|
  {
    |s| - |TrimLeft(s)|
  }

  /** What strip drops: the result is the slice of s from StripStart(s), with
      only whitespace outside it, and neither of its ends is whitespace. */
  lemma StripSpec(s: string)
    ensures Stripped(Strip(s))
    ensures StripStart(s) + |Strip(s)| <= |s|
    ensures Strip(s) == s[StripStart(s)..StripStart(s) + |Strip(s)|]
    ensures SpaceOutside(s, StripStart(s), StripStart(s) + |Strip(s)|)
  {
    var l := TrimLeft(s);
    var r := TrimRight(l);
    SliceOfSuffix(s, l, r, |s| - |l|);
    assert Strip(s) == r;
  }

  /** A prefix r of the suffix l of s starting at a is the slice of s from a,
      and what l has after r lies in s after it. */
  lemma SliceOfSuffix(s: string, l: string, r: string, a: nat)
    requires a <= |s| && l == s[a..] && |r| <= |l| && r == l[..|r|]
    requires forall i | |r| <= i < |l| :: IsSpace(l[i])
    ensures a + |r| <= |s| && r == s[a..a + |r|]
    ensures forall i | a + |r| <= i < |s| :: IsSpace(s[i])
  {
    forall i | a + |r| <= i < |s|
      ensures IsSpace(s[i])
    {
      assert s[i] == l[i - a];
    }
  }

  lemma StripStripped(s: string)
    requires Stripped(s)
    ensures Strip(s) == s
  {
  }

  // ---------------------------------------------------------------------
  // str.replace(old, new): one left-to-right pass over non-overlapping
  // occurrences of a non-empty pattern

  function ReplaceAll(s: string, pat: string, rep: string): string
    requires |pat| > 0
    decreases |s|
  {
    if |s| < |pat| then s
    else if s[..|pat|] == pat then rep + ReplaceAll(s[|pat|..], pat, rep)
    else [s[0]] + ReplaceAll(s[1..], pat, rep)
  }

  /** The normalisation applied to every extracted HTML text: doubled
      newlines to one, every newline to a space, doubled spaces to one. */
  function Normalize(s: string): string
  {
    ReplaceAll(ReplaceAll(ReplaceAll(s, "\n\n", "\n"), "\n", " "), "  ", " ")
  }

  lemma {:induction false} ReplaceNotLonger(s: string, pat: string, rep: string)
    requires |pat| > 0 && |rep| <= |pat|
    ensures |ReplaceAll(s, pat, rep)| <= |s|
    decreases |s|
  {
    if |s| < |pat| {
    } else if s[..|pat|] == pat {
      ReplaceNotLonger(s[|pat|..], pat, rep);
    } else {
      ReplaceNotLonger(s[1..], pat, rep);
    }
  }

  /** Replacing a one-character pattern by text that lacks it leaves no
      occurrence of that character. */
  lemma {:induction false} ReplaceRemovesChar(s: string, c: char, rep: string)
    requires c !in rep
    ensures c !in ReplaceAll(s, [c], rep)
    decreases |s|
  {
    if |s| >= 1 {
      ReplaceRemovesChar(s[1..], c, rep);
    }
  }

  /** A replacement never introduces a character that was in neither the
      text nor the replacement. */
  lemma {:induction false} ReplaceKeepsAbsent(s: string, pat: string, rep: string, c: char)
    requires |pat| > 0 && c !in s && c !in rep
    ensures c !in ReplaceAll(s, pat, rep)
    decreases |s|
  {
    if |s| < |pat| {
    } else if s[..|pat|] == pat {
      ReplaceKeepsAbsent(s[|pat|..], pat, rep, c);
    } else {
      ReplaceKeepsAbsent(s[1..], pat, rep, c);
    }
  }

  /** Normalised text holds no newline and is never longer than its input. */
  lemma NormalizeNoNewline(s: string)
    ensures '\n' !in Normalize(s)
    ensures |Normalize(s)| <= |s|
  {
    var a := ReplaceAll(s, "\n\n", "\n");
    var b := ReplaceAll(a, "\n", " ");
    ReplaceRemovesChar(a, '\n', " ");
    ReplaceKeepsAbsent(b, "  ", " ", '\n');
    ReplaceNotLonger(s, "\n\n", "\n");
    ReplaceNotLonger(a, "\n", " ");
    ReplaceNotLonger(b, "  ", " ");
  }

  /** Removes the two characters that normalisation touches. */
  function Squeeze(s: string): (r: string)
    ensures ' ' !in r && '\n' !in r
  {
    if s == [] then []
    else (if s[0] == ' ' || s[0] == '\n' then [] else [s[0]]) + Squeeze(s[1..])
  }

  lemma {:induction false} SqueezeAppend(a: string, b: string)
    ensures Squeeze(a + b) == Squeeze(a) + Squeeze(b)
    decreases |a|
  {
    if a == [] {
      assert a + b == b;
    } else {
      assert (a + b)[1..] == a[1..] + b;
      SqueezeAppend(a[1..], b);
    }
  }

  /** A replacement whose pattern and replacement are made of spaces and
      newlines only changes spaces and newlines. */
  lemma {:induction false} ReplaceBlankKeepsSqueeze(s: string, pat: string, rep: string)
    requires |pat| > 0 && Squeeze(pat) == [] && Squeeze(rep) == []
    ensures Squeeze(ReplaceAll(s, pat, rep)) == Squeeze(s)
    decreases |s|
  {
    if |s| < |pat| {
    } else if s[..|pat|] == pat {
      ReplaceBlankKeepsSqueeze(s[|pat|..], pat, rep);
      SqueezeAppend(rep, ReplaceAll(s[|pat|..], pat, rep));
      assert s == pat + s[|pat|..];
      SqueezeAppend(pat, s[|pat|..]);
    } else {
      ReplaceBlankKeepsSqueeze(s[1..], pat, rep);
      SqueezeAppend([s[0]], ReplaceAll(s[1..], pat, rep));
    }
  }

  /** Normalisation changes nothing but spaces and newlines. */
  lemma NormalizeKeepsContent(s: string)
    ensures Squeeze(Normalize(s)) == Squeeze(s)
  {
    var a := ReplaceAll(s, "\n\n", "\n");
    var b := ReplaceAll(a, "\n", " ");
    assert Squeeze("\n\n") == [] && Squeeze("\n") == [] && Squeeze(" ") == [] && Squeeze("  ") == [];
    ReplaceBlankKeepsSqueeze(s, "\n\n", "\n");
    ReplaceBlankKeepsSqueeze(a, "\n", " ");
    ReplaceBlankKeepsSqueeze(b, "  ", " ");
  }

  /** Squeeze keeps every character other than a space or a newline. */
  lemma {:induction false} SqueezeKeeps(s: string, c: char)
    requires c != ' ' && c != '\n'
    ensures c in Squeeze(s) <==> c in s
    decreases |s|
  {
    if s != [] {
      SqueezeKeeps(s[1..], c);
      assert s == [s[0]] + s[1..];
    }
  }

  lemma SqueezeWordChars(s: string)
    ensures HasWordChar(Squeeze(s)) <==> HasWordChar(s)
  {
    assert !IsWordChar(' ') && !IsWordChar('\n');
    if HasWordChar(s) {
      var i :| 0 <= i < |s| && IsWordChar(s[i]);
      SqueezeKeeps(s, s[i]);
    }
    if HasWordChar(Squeeze(s)) {
      var i :| 0 <= i < |Squeeze(s)| && IsWordChar(Squeeze(s)[i]);
      SqueezeKeeps(s, Squeeze(s)[i]);
    }
  }

  /** Normalised text has a word character exactly when its input has one,
      so the `\w` filter may be read on either. */
  lemma NormalizeKeepsWordChars(s: string)
    ensures HasWordChar(Normalize(s)) <==> HasWordChar(s)
  {
    NormalizeKeepsContent(s);
    SqueezeWordChars(s);
    SqueezeWordChars(Normalize(s));
  }

  function Spaces(n: nat): (r: string)
    ensures |r| == n && forall i | 0 <= i < n :: r[i] == ' '
  {
    if n == 0 then "" else " " + Spaces(n - 1)
  }

  lemma {:induction false} ReplaceAbsentPattern(s: string, pat: string, rep: string)
    requires |pat| > 0 && pat[0] !in s
    ensures ReplaceAll(s, pat, rep) == s
    decreases |s|
  {
    if |s| >= |pat| {
      assert s[..|pat|][0] == s[0];
      ReplaceAbsentPattern(s[1..], pat, rep);
    }
  }

  lemma {:induction false} HalveSpaces(n: nat)
    ensures ReplaceAll(Spaces(n), "  ", " ") == Spaces((n + 1) / 2)
    decreases n
  {
    if n >= 2 {
      assert Spaces(n)[..2] == "  ";
      assert Spaces(n)[2..] == Spaces(n - 2);
      HalveSpaces(n - 2);
      assert " " + Spaces((n - 1) / 2) == Spaces((n + 1) / 2);
    } else if n == 1 {
      assert Spaces(1) == " ";
    }
  }

  /** A run of n spaces normalises to ceil(n/2) spaces: the doubled-space
      rule is a single non-overlapping pass, so three spaces become two. */
  lemma SpacesNormalize(n: nat)
    ensures Normalize(Spaces(n)) == Spaces((n + 1) / 2)
  {
    ReplaceAbsentPattern(Spaces(n), "\n\n", "\n");
    ReplaceAbsentPattern(Spaces(n), "\n", " ");
    HalveSpaces(n);
  }

  /** Normalisation is not idempotent. */
  lemma NormalizeNotIdempotent()
    ensures Normalize(Normalize("   ")) != Normalize("   ")
  {
    assert "   " == Spaces(3);
    SpacesNormalize(3);
    SpacesNormalize(2);
    assert Spaces(1) != Spaces(2);
  }

  // ---------------------------------------------------------------------
  // str.split(sep) and sep.join(xs)

  /** Python's `s.split(sep)` for a non-empty separator: the pieces between
      the non-overlapping occurrences found left to right. */
  function Split(s: string, sep: string): (r: seq<string>)
    requires |sep| > 0
    ensures |r| >= 1
    decreases |s|
  {
    if |s| < |sep| then [s]
    else if s[..|sep|] == sep then [""] + Split(s[|sep|..], sep)
    else
      var rest := Split(s[1..], sep);
      [[s[0]] + rest[0]] + rest[1..]
  }

  /** sep occurs in s at position j. */
  predicate OccursAt(s: string, sep: string, j: int)
  {
    0 <= j && j + |sep| <= |s| && s[j..j + |sep|] == sep
  }

  /** No piece of a split holds the separator, and the first piece is where
      the text starts. */
  lemma {:induction false} SplitPieces(s: string, sep: string)
    requires |sep| > 0
    ensures IsPrefix(Split(s, sep)[0], s)
    ensures forall p, j | 0 <= p < |Split(s, sep)| :: !OccursAt(Split(s, sep)[p], sep, j)
    decreases |s|
  {
    var r := Split(s, sep);
    if |s| < |sep| {
      forall j ensures !OccursAt(s, sep, j) {}
    } else if s[..|sep|] == sep {
      SplitPieces(s[|sep|..], sep);
      assert r == [""] + Split(s[|sep|..], sep);
      forall p, j | 0 <= p < |r| ensures !OccursAt(r[p], sep, j)
      {
        if p > 0 {
          assert r[p] == Split(s[|sep|..], sep)[p - 1];
        }
      }
    } else {
      var rest := Split(s[1..], sep);
      SplitPieces(s[1..], sep);
      var first := [s[0]] + rest[0];
      assert r == [first] + rest[1..];
      assert first == s[..|first|];
      forall p, j | 0 <= p < |r| ensures !OccursAt(r[p], sep, j)
      {
        if p > 0 {
          assert r[p] == rest[p];
        } else if j > 0 && j + |sep| <= |first| {
          assert first[j..j + |sep|] == rest[0][j - 1..j - 1 + |sep|];
          assert !OccursAt(rest[0], sep, j - 1);
        } else if j == 0 && |sep| <= |first| {
          assert first[..|sep|] == s[..|sep|];
        }
      }
    }
  }

  /** Python's `sep.join(xs)`. */
  function Join(xs: seq<string>, sep: string): string
  {
    if |xs| == 0 then ""
    else if |xs| == 1 then xs[0]
    else xs[0] + sep + Join(xs[1..], sep)
  }

  lemma JoinCons(x: string, xs: seq<string>, sep: string)
    requires |xs| >= 1
    ensures Join([x] + xs, sep) == x + sep + Join(xs, sep)
  {
    assert ([x] + xs)[1..] == xs;
  }

  /** Joining the pieces of a split gives back the text. */
  lemma {:induction false} JoinSplit(s: string, sep: string)
    requires |sep| > 0
    ensures Join(Split(s, sep), sep) == s
    decreases |s|
  {
    if |s| < |sep| {
    } else if s[..|sep|] == sep {
      var tail := s[|sep|..];
      var rest := Split(tail, sep);
      assert Split(s, sep) == [""] + rest;
      JoinSplit(tail, sep);
      JoinCons("", rest, sep);
      assert s == sep + tail;
    } else {
      JoinSplitStep(s, sep);
    }
  }

  lemma {:induction false} JoinSplitStep(s: string, sep: string)
    requires |sep| > 0 && |s| >= |sep| && s[..|sep|] != sep
    ensures Join(Split(s, sep), sep) == s
    decreases |s|, 0
  {
    var tail := s[1..];
    var rest := Split(tail, sep);
    var first := [s[0]] + rest[0];
    assert Split(s, sep) == [first] + rest[1..];
    JoinSplit(tail, sep);
    assert s == [s[0]] + tail;
    if |rest| == 1 {
      assert Join([first], sep) == first;
      assert Join(rest, sep) == rest[0];
    } else {
      JoinCons(first, rest[1..], sep);
      JoinCons(rest[0], rest[1..], sep);
      assert [rest[0]] + rest[1..] == rest;
      assert tail == rest[0] + sep + Join(rest[1..], sep);
      assert ([s[0]] + rest[0]) + sep + Join(rest[1..], sep) == [s[0]] + (rest[0] + sep + Join(rest[1..], sep));
    }
  }

  lemma {:induction false} SplitNoSep(s: string, c: char)
    requires c !in s
    ensures Split(s, [c]) == [s]
    decreases |s|
  {
    if |s| >= 1 {
      assert s[..1] == [s[0]] && s[0] != c;
      SplitNoSep(s[1..], c);
      assert [s[0]] + s[1..] == s;
    }
  }

  lemma {:induction false} SplitAfterPiece(x: string, c: char, t: string)
    requires c !in x
    ensures Split(x + [c] + t, [c]) == [x] + Split(t, [c])
    decreases |x|
  {
    var s := x + [c] + t;
    if x == [] {
      assert s[..1] == [c] && s[1..] == t;
    } else {
      assert s[..1] == [x[0]] && x[0] != c;
      assert s[1..] == x[1..] + [c] + t;
      SplitAfterPiece(x[1..], c, t);
      assert [x[0]] + x[1..] == x;
    }
  }

  /** Splitting a join on a one-character separator that occurs in none of
      the pieces gives back the pieces. */
  lemma {:induction false} SplitJoin(xs: seq<string>, c: char)
    requires |xs| >= 1
    requires forall i | 0 <= i < |xs| :: c !in xs[i]
    ensures Split(Join(xs, [c]), [c]) == xs
    decreases |xs|
  {
    if |xs| == 1 {
      SplitNoSep(xs[0], c);
    } else {
      SplitJoin(xs[1..], c);
      assert Join(xs, [c]) == xs[0] + [c] + Join(xs[1..], [c]);
      SplitAfterPiece(xs[0], c, Join(xs[1..], [c]));
      assert [xs[0]] + xs[1..] == xs;
    }
  }

  // ---------------------------------------------------------------------
  // Reading a text file line by line

  /** The lines of a file, as `for line in f` yields them, without their
      line terminators (no empty line after a final newline). */
  function Lines(content: string): seq<string>
  {
    var p := Split(content, "\n");
    if p[|p| - 1] == "" then p[..|p| - 1] else p
  }

  /** `[line.strip() for line in f]`. */
  function StripLines(content: string): (r: seq<string>)
    ensures |r| == |Lines(content)|
    ensures forall i | 0 <= i < |r| :: r[i] == Strip(Lines(content)[i])
  {
    var ls := Lines(content);
    seq(|ls|, i requires 0 <= i < |ls| => Strip(ls[i]))
  }

  /** A line that survives being written and read back unchanged. */
  predicate CleanLine(s: string)
  {
    '\n' !in s && Stripped(s)
  }

  /** Writing clean lines joined by newlines and reading the file back line
      by line, stripped, gives back the same lines (a final empty line
      would be lost, since the file would then end in a newline). */
  lemma LinesJoin(xs: seq<string>)
    requires forall i | 0 <= i < |xs| :: '\n' !in xs[i]
    requires xs == [] || xs[|xs| - 1] != ""
    ensures Lines(Join(xs, "\n")) == xs
  {
    if xs == [] {
      assert Split("", "\n") == [""];
    } else {
      SplitJoin(xs, '\n');
      assert "\n" == ['\n'];
    }
  }

  lemma StripLinesJoin(xs: seq<string>)
    requires forall i | 0 <= i < |xs| :: CleanLine(xs[i])
    requires xs == [] || xs[|xs| - 1] != ""
    ensures StripLines(Join(xs, "\n")) == xs
  {
    LinesJoin(xs);
    var r := StripLines(Join(xs, "\n"));
    assert |r| == |xs|;
    forall i | 0 <= i < |xs|
      ensures r[i] == xs[i]
    {
      StripStripped(xs[i]);
    }
  }
}

/** Keyword matching with novelty filtering, as the keyword monitor does it
    (lib/website_matcher.py): `match_texts` over the paragraphs of a PDF, and
    the per-keyword scan of the text nodes of an HTML page. A fragment is new
    when the digest of its text is not among the known hashes; the digest
    function (SHA-256 as a hex string in the source) is a parameter. */
module Matcher {
  import opened Util
  import opened Text
  import opened Keywords
  import opened Ledger

  /** One entry of a page result: a keyword, its highlighted excerpts and the
      digests of the fragments they come from. */
  datatype Match = Match(keyword: string, texts: seq<string>, hashes: seq<Hash>)

  /** Every digest of a list of entries, in order: what the caller appends to
      its hash list for each yielded result. */
  function MatchHashes(ms: seq<Match>): seq<Hash>
  {
    FlatMap(ms, (m: Match) => m.hashes)
  }

  // =====================================================================
  // match_texts (lib/website_matcher.py:65-90)

  /** `list(filter(lambda k: k['re'].search(text), keywords))`: the keywords
      that match the text as whole words, in keyword order. */
  function MatchingKeywords(t: string, kws: seq<string>): (ks: seq<string>)
    ensures |ks| <= |kws|
    ensures forall k | k in ks :: k in kws && Search(t, k).Some?
    ensures forall k | k in kws && Search(t, k).Some? :: k in ks
  {
    if kws == [] then []
    else
      var rest := MatchingKeywords(t, kws[..|kws| - 1]);
      var k := kws[|kws| - 1];
      assert kws == kws[..|kws| - 1] + [k];
      if Search(t, k).Some? then rest + [k] else rest
  }

  /** The filter keeps keyword order: the keywords kept from a concatenation
      are those kept from its two parts, one after the other. */
  lemma {:induction false} MatchingKeywordsAppend(t: string, a: seq<string>, b: seq<string>)
    ensures MatchingKeywords(t, a + b) == MatchingKeywords(t, a) + MatchingKeywords(t, b)
    decreases |b|
  {
    if b == [] {
      assert a + b == a;
    } else {
      MatchingKeywordsAppend(t, a, b[..|b| - 1]);
      MatchingKeywordsAppendStep(t, a, b);
    }
  }

  lemma MatchingKeywordsAppendStep(t: string, a: seq<string>, b: seq<string>)
    requires b != []
    requires MatchingKeywords(t, a + b[..|b| - 1]) == MatchingKeywords(t, a) + MatchingKeywords(t, b[..|b| - 1])
    ensures MatchingKeywords(t, a + b) == MatchingKeywords(t, a) + MatchingKeywords(t, b)
  {
    var init, k := b[..|b| - 1], b[|b| - 1];
    SplitLast(b);
    assert a + b == (a + init) + [k];
    MatchingKeywordsSnoc(t, a + init, k);
    MatchingKeywordsSnoc(t, init, k);
    AppendAssoc(MatchingKeywords(t, a), MatchingKeywords(t, init), if Search(t, k).Some? then [k] else []);
  }

  /** A single keyword is kept exactly when it matches. */
  lemma MatchingKeywordsSingle(t: string, k: string)
    ensures MatchingKeywords(t, [k]) == if Search(t, k).Some? then [k] else []
  {
    MatchingKeywordsSnoc(t, [], k);
    assert [] + [k] == [k];
  }

  /** A matching keyword listed n times is kept n times. */
  lemma {:induction false} MatchingKeywordsCount(t: string, kws: seq<string>)
    ensures forall k :: multiset(MatchingKeywords(t, kws))[k] == if Search(t, k).Some? then multiset(kws)[k] else 0
    decreases |kws|
  {
    if kws != [] {
      var init, k := kws[..|kws| - 1], kws[|kws| - 1];
      SplitLast(kws);
      MatchingKeywordsCount(t, init);
      MatchingKeywordsSnoc(t, init, k);
    }
  }

  lemma SplitLast(b: seq<string>)
    requires b != []
    ensures b == b[..|b| - 1] + [b[|b| - 1]]
  {
  }

  lemma MatchingKeywordsSnoc(t: string, kws: seq<string>, k: string)
    ensures MatchingKeywords(t, kws + [k]) == MatchingKeywords(t, kws) + (if Search(t, k).Some? then [k] else [])
  {
    assert (kws + [k])[..|kws|] == kws;
  }

  /** One entry per keyword of ks, in order, for fragment t with digest h. */
  function RecordsFor(t: string, ks: seq<string>, h: Hash): (ms: seq<Match>)
    ensures |ms| == |ks|
  {
    if ks == [] then []
    else RecordsFor(t, ks[..|ks| - 1], h) + [Match(ks[|ks| - 1], [HighlightedExcerpt(t, ks[|ks| - 1])], [h])]
  }

  lemma {:induction false} RecordsForAt(t: string, ks: seq<string>, h: Hash)
    ensures forall i | 0 <= i < |ks| :: RecordsFor(t, ks, h)[i] == Match(ks[i], [HighlightedExcerpt(t, ks[i])], [h])
    decreases |ks|
  {
    if ks != [] {
      RecordsForAt(t, ks[..|ks| - 1], h);
    }
  }

  lemma RecordsForSnoc(t: string, ks: seq<string>, j: nat, h: Hash)
    requires j < |ks|
    ensures RecordsFor(t, ks[..j + 1], h)
         == RecordsFor(t, ks[..j], h) + [Match(ks[j], [HighlightedExcerpt(t, ks[j])], [h])]
  {
    assert ks[..j + 1][..j] == ks[..j];
  }

  /** The entries one fragment contributes: none when no keyword matches or
      its digest is known, otherwise one per matching keyword, in keyword
      order, each with the fragment's digest. */
  function TextRecords(t: string, kws: seq<string>, known: seq<Hash>, digest: string -> Hash): seq<Match>
  {
    var ks := MatchingKeywords(t, kws);
    if ks == [] || digest(t) in known then [] else RecordsFor(t, ks, digest(t))
  }

  function RecordsOfText(kws: seq<string>, known: seq<Hash>, digest: string -> Hash): string -> seq<Match>
  {
    t => TextRecords(t, kws, known, digest)
  }

  /** The result of `match_texts`: the entries of each fragment, fragments
      in input order. */
  function MatchTextsSpec(texts: seq<string>, kws: seq<string>, known: seq<Hash>, digest: string -> Hash): seq<Match>
  {
    FlatMap(texts, RecordsOfText(kws, known, digest))
  }

  method MatchTexts(texts: seq<string>, keywords: seq<string>, oldHashes: seq<Hash>, digest: string -> Hash)
    returns (matches: seq<Match>)
    ensures matches == MatchTextsSpec(texts, keywords, oldHashes, digest)
  {
    matches := [];
    for n := 0 to |texts|
      invariant matches == FlatMap(texts[..n], RecordsOfText(keywords, oldHashes, digest))
    {
      FlatMapSnoc(texts, n, RecordsOfText(keywords, oldHashes, digest));
      var text := texts[n];
      var matched := MatchingKeywords(text, keywords);
      if matched == [] {
        continue;
      }
      var textHash := digest(text);
      if textHash !in oldHashes {
        var records := HighlightRecords(text, matched, textHash);
        matches := matches + records;
      }
    }
    assert texts[..|texts|] == texts;
  }

  /** The inner loop of `match_texts` over the matching keywords of a new
      fragment: search again, cut the excerpt, highlight, append. */
  method HighlightRecords(text: string, matched: seq<string>, textHash: Hash) returns (records: seq<Match>)
    requires forall k | k in matched :: Search(text, k).Some?
    ensures records == RecordsFor(text, matched, textHash)
  {
    records := [];
    for j := 0 to |matched|
      invariant records == RecordsFor(text, matched[..j], textHash)
    {
      RecordsForSnoc(text, matched, j, textHash);
      assert matched[j] in matched;
      var k := matched[j];
      var m := Search(text, k).value;
      var hlText := Highlight(Excerpt(text, m, |k|), k);
      assert hlText == HighlightedExcerpt(text, k);
      records := records + [Match(k, [hlText], [textHash])];
    }
    assert matched[..|matched|] == matched;
  }

  /** Entry m is the one a new fragment t gives for keyword m.keyword. */
  predicate RecordOf(m: Match, t: string, kws: seq<string>, known: seq<Hash>, digest: string -> Hash)
  {
    && digest(t) !in known
    && m.keyword in kws
    && Search(t, m.keyword).Some?
    && m.texts == [HighlightedExcerpt(t, m.keyword)]
    && m.hashes == [digest(t)]
  }

  lemma TextRecordsSound(t: string, kws: seq<string>, known: seq<Hash>, digest: string -> Hash)
    ensures forall m | m in TextRecords(t, kws, known, digest) :: RecordOf(m, t, kws, known, digest)
  {
    var ks := MatchingKeywords(t, kws);
    if ks != [] && digest(t) !in known {
      RecordsForAt(t, ks, digest(t));
    }
  }

  /** Every entry comes from a fragment whose digest is unknown and which the
      entry's keyword matches, and carries exactly that fragment's digest. */
  lemma MatchTextsSound(texts: seq<string>, kws: seq<string>, known: seq<Hash>, digest: string -> Hash)
    ensures forall m | m in MatchTextsSpec(texts, kws, known, digest) ::
      exists n | 0 <= n < |texts| :: RecordOf(m, texts[n], kws, known, digest)
  {
    var f := RecordsOfText(kws, known, digest);
    forall m | m in FlatMap(texts, f)
      ensures exists n | 0 <= n < |texts| :: RecordOf(m, texts[n], kws, known, digest)
    {
      FlatMapMember(texts, f, m);
      var n :| 0 <= n < |texts| && m in f(texts[n]);
      TextRecordsSound(texts[n], kws, known, digest);
    }
  }

  /** Every new fragment gives an entry for every keyword that matches it. */
  lemma MatchTextsComplete(texts: seq<string>, kws: seq<string>, known: seq<Hash>,
                           digest: string -> Hash, n: nat, k: string)
    requires n < |texts| && k in kws && Search(texts[n], k).Some? && digest(texts[n]) !in known
    ensures Match(k, [HighlightedExcerpt(texts[n], k)], [digest(texts[n])]) in MatchTextsSpec(texts, kws, known, digest)
  {
    var t := texts[n];
    var ks := MatchingKeywords(t, kws);
    assert k in ks;
    var i :| 0 <= i < |ks| && ks[i] == k;
    RecordsForAt(t, ks, digest(t));
    assert TextRecords(t, kws, known, digest)[i] == Match(k, [HighlightedExcerpt(t, k)], [digest(t)]);
    FlatMapHas(texts, RecordsOfText(kws, known, digest), n, Match(k, [HighlightedExcerpt(t, k)], [digest(t)]));
  }

  /** Entries follow the input order of the fragments. */
  lemma MatchTextsAppend(a: seq<string>, b: seq<string>, kws: seq<string>, known: seq<Hash>, digest: string -> Hash)
    ensures MatchTextsSpec(a + b, kws, known, digest)
         == MatchTextsSpec(a, kws, known, digest) + MatchTextsSpec(b, kws, known, digest)
  {
    FlatMapAppend(a, b, RecordsOfText(kws, known, digest));
  }

  /** Once the digests of a run's entries are known, the same fragments give
      no entry again (the novelty check makes a rerun silent). */
  lemma MatchTextsRerunSilent(texts: seq<string>, kws: seq<string>, known: seq<Hash>, digest: string -> Hash)
    ensures var ms := MatchTextsSpec(texts, kws, known, digest);
      MatchTextsSpec(texts, kws, known + MatchHashes(ms), digest) == []
  {
    var ms := MatchTextsSpec(texts, kws, known, digest);
    var known' := known + MatchHashes(ms);
    forall n | 0 <= n < |texts|
      ensures TextRecords(texts[n], kws, known', digest) == []
    {
      var t := texts[n];
      var ks := MatchingKeywords(t, kws);
      if ks != [] && digest(t) !in known {
        var k := ks[0];
        MatchTextsComplete(texts, kws, known, digest, n, k);
        var m := Match(k, [HighlightedExcerpt(t, k)], [digest(t)]);
        var j :| 0 <= j < |ms| && ms[j] == m;
        FlatMapHas(ms, (m: Match) => m.hashes, j, digest(t));
      }
    }
    FlatMapEmpty(texts, RecordsOfText(kws, known', digest));
  }

  /** No digest of `match_texts`' result is already known. */
  lemma MatchTextsNovel(texts: seq<string>, kws: seq<string>, known: seq<Hash>, digest: string -> Hash)
    ensures forall h | h in MatchHashes(MatchTextsSpec(texts, kws, known, digest)) :: h !in known
  {
    var ms := MatchTextsSpec(texts, kws, known, digest);
    MatchTextsSound(texts, kws, known, digest);
    forall h | h in MatchHashes(ms)
      ensures h !in known
    {
      FlatMapMember(ms, (m: Match) => m.hashes, h);
      var i :| 0 <= i < |ms| && h in ms[i].hashes;
      assert ms[i] in ms;
    }
  }

  // =====================================================================
  // The per-keyword scan of an HTML page (lib/website_matcher.py:136-171)

  /** The fragment text of a text node: `get_text(strip=True)` followed by
      the three replacements. */
  function NodeText(node: string): string
  {
    Normalize(Strip(node))
  }

  /** Node `node` yields a fragment for keyword k: k matches the raw node
      (`find_all(string=k_re)`), and its fragment text has a word character
      and an unknown digest. */
  predicate Accepts(node: string, k: string, known: seq<Hash>, digest: string -> Hash)
  {
    Search(node, k).Some? && HasWordChar(NodeText(node)) && digest(NodeText(node)) !in known
  }

  function AcceptOf(k: string, known: seq<Hash>, digest: string -> Hash): string -> seq<string>
  {
    node => if Accepts(node, k, known, digest) then [NodeText(node)] else []
  }

  /** The fragments accepted for keyword k, in document order. */
  function Accepted(nodes: seq<string>, k: string, known: seq<Hash>, digest: string -> Hash): seq<string>
  {
    FlatMap(nodes, AcceptOf(k, known, digest))
  }

  /** Each accepted fragment has a word character and an unknown digest,
      and is the fragment text of a node the keyword matches. */
  lemma AcceptedSound(nodes: seq<string>, k: string, known: seq<Hash>, digest: string -> Hash)
    ensures forall t | t in Accepted(nodes, k, known, digest) ::
      && HasWordChar(t) && digest(t) !in known
      && exists node | node in nodes :: Search(node, k).Some? && t == NodeText(node)
  {
    forall t | t in Accepted(nodes, k, known, digest)
      ensures HasWordChar(t) && digest(t) !in known
      ensures exists node | node in nodes :: Search(node, k).Some? && t == NodeText(node)
    {
      FlatMapMember(nodes, AcceptOf(k, known, digest), t);
      var i :| 0 <= i < |nodes| && t in AcceptOf(k, known, digest)(nodes[i]);
      assert nodes[i] in nodes;
    }
  }

  /** Every matched node with a new fragment text is accepted. */
  lemma AcceptedComplete(nodes: seq<string>, k: string, known: seq<Hash>, digest: string -> Hash, i: nat)
    requires i < |nodes| && Accepts(nodes[i], k, known, digest)
    ensures NodeText(nodes[i]) in Accepted(nodes, k, known, digest)
  {
    FlatMapHas(nodes, AcceptOf(k, known, digest), i, NodeText(nodes[i]));
  }

  lemma AcceptedAppend(a: seq<string>, b: seq<string>, k: string, known: seq<Hash>, digest: string -> Hash)
    ensures Accepted(a + b, k, known, digest) == Accepted(a, k, known, digest) + Accepted(b, k, known, digest)
  {
    FlatMapAppend(a, b, AcceptOf(k, known, digest));
  }

  /** Every accepted fragment still contains a whole-word match of k after
      normalisation; if not, the source's `m.start()` fails on `None`. */
  predicate AllStillMatch(ts: seq<string>, k: string)
  {
    forall t | t in ts :: Search(t, k).Some?
  }

  function Excerpts(ts: seq<string>, k: string): (xs: seq<string>)
    ensures |xs| == |ts|
  {
    seq(|ts|, i requires 0 <= i < |ts| => HighlightedExcerpt(ts[i], k))
  }

  function Digests(ts: seq<string>, digest: string -> Hash): (hs: seq<Hash>)
    ensures |hs| == |ts|
  {
    seq(|ts|, i requires 0 <= i < |ts| => digest(ts[i]))
  }

  lemma ExcerptsSnoc(ts: seq<string>, t: string, k: string)
    ensures Excerpts(ts + [t], k) == Excerpts(ts, k) + [HighlightedExcerpt(t, k)]
  {
  }

  lemma DigestsSnoc(ts: seq<string>, t: string, digest: string -> Hash)
    ensures Digests(ts + [t], digest) == Digests(ts, digest) + [digest(t)]
  {
  }

  /** The inner loop over the nodes for one keyword: the highlighted excerpts
      and the digests of the accepted fragments, in document order, or None
      when an accepted fragment no longer matches (the run then aborts with
      an AttributeError). */
  method ScanKeyword(nodes: seq<string>, k: string, known: seq<Hash>, digest: string -> Hash)
    returns (r: Option<(seq<string>, seq<Hash>)>)
    ensures r.Some? <==> AllStillMatch(Accepted(nodes, k, known, digest), k)
    ensures r.Some? ==> var ts := Accepted(nodes, k, known, digest);
      r.value.0 == Excerpts(ts, k) && r.value.1 == Digests(ts, digest)
  {
    var sourceList: seq<string> := [];
    var sourceHashes: seq<Hash> := [];
    for n := 0 to |nodes|
      invariant AllStillMatch(Accepted(nodes[..n], k, known, digest), k)
      invariant sourceList == Excerpts(Accepted(nodes[..n], k, known, digest), k)
      invariant sourceHashes == Digests(Accepted(nodes[..n], k, known, digest), digest)
    {
      ghost var ts := Accepted(nodes[..n], k, known, digest);
      FlatMapSnoc(nodes, n, AcceptOf(k, known, digest));
      var elem := nodes[n];
      if Search(elem, k).None? {
        continue;
      }
      var text := NodeText(elem);
      var textHash := digest(text);
      if HasWordChar(text) && textHash !in known {
        assert Accepted(nodes[..n + 1], k, known, digest) == ts + [text];
        var m := Search(text, k);
        if m.None? {
          AcceptedComplete(nodes, k, known, digest, n);
          return None;
        }
        var hlText := Highlight(Excerpt(text, m.value, |k|), k);
        ExcerptsSnoc(ts, text, k);
        DigestsSnoc(ts, text, digest);
        sourceList := sourceList + [hlText];
        sourceHashes := sourceHashes + [textHash];
      }
    }
    assert nodes[..|nodes|] == nodes;
    r := Some((sourceList, sourceHashes));
  }

  /** The keywords that get an entry on the page: those with at least one
      accepted fragment, in keyword order. */
  function EntryKeywords(nodes: seq<string>, kws: seq<string>, known: seq<Hash>, digest: string -> Hash): (ks: seq<string>)
    ensures forall k | k in ks :: k in kws && Accepted(nodes, k, known, digest) != []
    ensures forall k | k in kws && Accepted(nodes, k, known, digest) != [] :: k in ks
  {
    if kws == [] then []
    else
      var rest := EntryKeywords(nodes, kws[..|kws| - 1], known, digest);
      var k := kws[|kws| - 1];
      assert kws == kws[..|kws| - 1] + [k];
      if Accepted(nodes, k, known, digest) != [] then rest + [k] else rest
  }

  lemma EntryKeywordsSnoc(nodes: seq<string>, kws: seq<string>, j: nat, known: seq<Hash>, digest: string -> Hash)
    requires j < |kws|
    ensures EntryKeywords(nodes, kws[..j + 1], known, digest)
         == EntryKeywords(nodes, kws[..j], known, digest)
            + (if Accepted(nodes, kws[j], known, digest) != [] then [kws[j]] else [])
    ensures forall k | k in kws[..j + 1] :: k in kws[..j] || k == kws[j]
  {
    assert kws[..j + 1] == kws[..j] + [kws[j]];
  }

  /** No accepted fragment of any keyword loses its match to normalisation. */
  predicate PageScanOk(nodes: seq<string>, kws: seq<string>, known: seq<Hash>, digest: string -> Hash)
  {
    forall k | k in kws :: AllStillMatch(Accepted(nodes, k, known, digest), k)
  }

  /** Entry m is the page's entry for keyword k: its digests are those of the
      accepted fragments, in order and with repetitions, and its texts are
      their highlighted excerpts without repetitions (`list(set(...))`, in no
      particular order). */
  predicate EntryFor(m: Match, k: string, nodes: seq<string>, known: seq<Hash>, digest: string -> Hash)
  {
    var ts := Accepted(nodes, k, known, digest);
    && m.keyword == k
    && AllStillMatch(ts, k)
    && m.hashes == Digests(ts, digest)
    && NoDup(m.texts)
    && ToSet(m.texts) == ToSet(Excerpts(ts, k))
  }

  /** ms holds, in order, the page's entry for each keyword of ks. */
  predicate EntriesFor(ms: seq<Match>, ks: seq<string>, nodes: seq<string>, known: seq<Hash>, digest: string -> Hash)
  {
    |ms| == |ks| && forall j | 0 <= j < |ks| :: EntryFor(ms[j], ks[j], nodes, known, digest)
  }

  /** ms holds one entry per keyword with an accepted fragment, in keyword
      order. */
  predicate PageEntries(ms: seq<Match>, nodes: seq<string>, kws: seq<string>, known: seq<Hash>, digest: string -> Hash)
  {
    EntriesFor(ms, EntryKeywords(nodes, kws, known, digest), nodes, known, digest)
  }

  lemma EntriesForSnoc(ms: seq<Match>, ks: seq<string>, m: Match, k: string,
                       nodes: seq<string>, known: seq<Hash>, digest: string -> Hash)
    requires EntriesFor(ms, ks, nodes, known, digest) && EntryFor(m, k, nodes, known, digest)
    ensures EntriesFor(ms + [m], ks + [k], nodes, known, digest)
  {
  }

  lemma PageScanOkSnoc(nodes: seq<string>, kws: seq<string>, j: nat, known: seq<Hash>, digest: string -> Hash)
    requires j < |kws|
    ensures PageScanOk(nodes, kws[..j + 1], known, digest) <==>
      PageScanOk(nodes, kws[..j], known, digest) && AllStillMatch(Accepted(nodes, kws[j], known, digest), kws[j])
  {
    assert kws[..j + 1] == kws[..j] + [kws[j]];
  }

  /** The entry built from one keyword's scan: the excerpts without
      repetitions and the digests of the accepted fragments. */
  lemma ScanEntry(k: string, excerpts: seq<string>, hashes: seq<Hash>, nodes: seq<string>, known: seq<Hash>, digest: string -> Hash)
    requires AllStillMatch(Accepted(nodes, k, known, digest), k)
    requires excerpts == Excerpts(Accepted(nodes, k, known, digest), k)
    requires hashes == Digests(Accepted(nodes, k, known, digest), digest)
    ensures EntryFor(Match(k, Dedup(excerpts), hashes), k, nodes, known, digest)
    ensures Dedup(excerpts) == [] <==> Accepted(nodes, k, known, digest) == []
  {
    DedupEmpty(excerpts);
  }

  /** The matching part of an HTML page: None when the scan aborts, otherwise
      the page's entries. */
  method MatchHtmlPage(nodes: seq<string>, keywords: seq<string>, known: seq<Hash>, digest: string -> Hash)
    returns (r: Option<seq<Match>>)
    ensures r.Some? <==> PageScanOk(nodes, keywords, known, digest)
    ensures r.Some? ==> PageEntries(r.value, nodes, keywords, known, digest)
  {
    var matches: seq<Match> := [];
    for j := 0 to |keywords|
      invariant PageScanOk(nodes, keywords[..j], known, digest)
      invariant EntriesFor(matches, EntryKeywords(nodes, keywords[..j], known, digest), nodes, known, digest)
    {
      var kw := keywords[j];
      EntryKeywordsSnoc(nodes, keywords, j, known, digest);
      PageScanOkSnoc(nodes, keywords, j, known, digest);
      var scan := ScanKeyword(nodes, kw, known, digest);
      if scan.None? {
        assert kw in keywords;
        return None;
      }
      ScanEntry(kw, scan.value.0, scan.value.1, nodes, known, digest);
      var uniqueSourceList := Dedup(scan.value.0);
      if |uniqueSourceList| > 0 {
        EntriesForSnoc(matches, EntryKeywords(nodes, keywords[..j], known, digest),
                       Match(kw, uniqueSourceList, scan.value.1), kw, nodes, known, digest);
        matches := matches + [Match(kw, uniqueSourceList, scan.value.1)];
      }
    }
    assert keywords[..|keywords|] == keywords;
    r := Some(matches);
  }

  /** An entry has no more texts than digests: texts lose repetitions,
      digests keep one per accepted fragment. Every digest is unknown and
      every text is the highlighted excerpt of an accepted fragment. */
  lemma EntryShape(m: Match, k: string, nodes: seq<string>, known: seq<Hash>, digest: string -> Hash)
    requires EntryFor(m, k, nodes, known, digest)
    ensures |m.texts| <= |m.hashes|
    ensures forall h | h in m.hashes :: h !in known
    ensures forall x | x in m.texts :: exists t | t in Accepted(nodes, k, known, digest) ::
      Search(t, k).Some? && x == HighlightedExcerpt(t, k)
  {
    var ts := Accepted(nodes, k, known, digest);
    AcceptedSound(nodes, k, known, digest);
    NoDupSubsetLength(m.texts, Excerpts(ts, k));
    forall x | x in m.texts
      ensures exists t | t in ts :: Search(t, k).Some? && x == HighlightedExcerpt(t, k)
    {
      assert x in ToSet(Excerpts(ts, k));
      var i :| 0 <= i < |ts| && Excerpts(ts, k)[i] == x;
      assert ts[i] in ts;
    }
    forall h | h in m.hashes
      ensures h !in known
    {
      var i :| 0 <= i < |ts| && m.hashes[i] == h;
      assert ts[i] in ts;
    }
  }

  /** No digest of a page's entries is already known. */
  lemma EntriesNovel(ms: seq<Match>, ks: seq<string>, nodes: seq<string>, known: seq<Hash>, digest: string -> Hash)
    requires EntriesFor(ms, ks, nodes, known, digest)
    ensures forall h | h in MatchHashes(ms) :: h !in known
  {
    forall h | h in MatchHashes(ms)
      ensures h !in known
    {
      FlatMapMember(ms, (m: Match) => m.hashes, h);
      var j :| 0 <= j < |ms| && h in ms[j].hashes;
      EntryShape(ms[j], ks[j], nodes, known, digest);
    }
  }

  /** Once the digests of a page's entry for k are known, the page gives no
      fragment for k again. */
  lemma AcceptedRerunSilent(nodes: seq<string>, k: string, known: seq<Hash>, digest: string -> Hash)
    ensures var ts := Accepted(nodes, k, known, digest);
      Accepted(nodes, k, known + Digests(ts, digest), digest) == []
  {
    var ts := Accepted(nodes, k, known, digest);
    var known' := known + Digests(ts, digest);
    forall i | 0 <= i < |nodes|
      ensures AcceptOf(k, known', digest)(nodes[i]) == []
    {
      if Accepts(nodes[i], k, known, digest) {
        AcceptedComplete(nodes, k, known, digest, i);
        var q :| 0 <= q < |ts| && ts[q] == NodeText(nodes[i]);
        assert Digests(ts, digest)[q] == digest(NodeText(nodes[i]));
      }
    }
    FlatMapEmpty(nodes, AcceptOf(k, known', digest));
  }

  /** Normalisation squeezes the double space of "foo  bar". */
  lemma FooBarNodeText()
    ensures NodeText("foo  bar") == "foo bar"
  {
    var node := "foo  bar";
    assert Stripped(node);
    StripStripped(node);
    ReplaceAbsentPattern(node, "\n\n", "\n");
    ReplaceAbsentPattern(node, "\n", " ");
    FooBarSqueeze();
  }

  lemma FooBarSqueeze()
    ensures ReplaceAll("foo  bar", "  ", " ") == "foo bar"
  {
    ReplaceAbsentPattern("bar", "  ", " ");
    assert "  bar"[2..] == "bar";
    assert ReplaceAll("  bar", "  ", " ") == " bar";
    assert "o  bar"[1..] == "  bar";
    assert "oo  bar"[1..] == "o  bar";
    assert "foo  bar"[1..] == "oo  bar";
  }

  /** A keyword with two consecutive spaces matches the raw node "foo  bar",
      but not its normalised text "foo bar": the scan aborts. */
  lemma DoubleSpaceKeywordAborts(digest: string -> Hash)
    ensures !PageScanOk(["foo  bar"], ["foo  bar"], [], digest)
  {
    FooBarAccepted(digest);
    FooBarLosesMatch();
    LostMatchAborts("foo  bar", "foo  bar", digest);
  }

  /** A node whose fragment is accepted for k but no longer matches k makes
      the scan of k abort. */
  lemma LostMatchAborts(node: string, k: string, digest: string -> Hash)
    requires Accepts(node, k, [], digest) && Search(NodeText(node), k).None?
    ensures !PageScanOk([node], [k], [], digest)
  {
    AcceptedComplete([node], k, [], digest, 0);
    assert k in [k];
  }

  lemma FooBarAccepted(digest: string -> Hash)
    ensures Accepts("foo  bar", "foo  bar", [], digest)
  {
    var node := "foo  bar";
    assert node[0..8] == node;
    assert MatchesAt(node, node, 0);
    FooBarNodeText();
    assert IsWordChar(NodeText(node)[0]);
  }

  lemma FooBarLosesMatch()
    ensures Search(NodeText("foo  bar"), "foo  bar").None?
  {
    FooBarNodeText();
  }
}

/** lib/website_hash.py: watch the elements a CSS selector picks on one page.
    The texts of the selected elements are normalised like the fragments of
    an HTML page in the crawl, those without a word character are dropped,
    repetitions are removed; a text is a match when some keyword occurs in it
    (the pattern `.*k.*`, case-insensitively, anchored at the start) and its
    digest is not in the hash file. When there is a match, the hash file is
    overwritten with the digests of all the selected texts.

    The download and the CSS selection are not modelled: the page arrives as
    the selected elements, each given by the strings below it in document
    order, or as a failed download. */
module SelectorHash {
  import opened Util
  import opened Text
  import opened Keywords
  import opened Ledger
  import opened Matcher
  import Crawl

  // =====================================================================
  // get_texts_from_selector after the download (lib/website_hash.py:44-63)

  /** A selected element, as the strings below it in document order. */
  type Element = seq<string>

  /** `elem.get_text(strip=True)`: every string below the element, stripped,
      concatenated with no separator. */
  function ElementText(e: Element): string
  {
    FlatMap(e, Strip)
  }

  /** The strings of `<p>a <b>b</b></p>` are "a " and "b": the text is "ab". */
  lemma ElementTextJoinsStrings()
    ensures ElementText(["a ", "b"]) == "ab"
  {
    var e := ["a ", "b"];
    assert Stripped("b") && Stripped("a");
    assert TrimLeft("a ") == "a ";
    assert TrimRight("a ") == TrimRight("a");
    assert Strip("a ") == "a";
    StripStripped("b");
    FlatMapSnoc(e, 1, Strip);
    FlatMapSnoc(e, 0, Strip);
    assert e[..2] == e && e[..0] == [];
  }

  /** The text of an element after the three replacements. */
  function SelectedText(e: Element): string
  {
    Normalize(ElementText(e))
  }

  /** What one selected element contributes: its normalised text, when that
      has a word character (`re.search(r"\w", text)`). */
  function Keep(element: Element): seq<string>
  {
    var text := SelectedText(element);
    if HasWordChar(text) then [text] else []
  }

  /** The texts kept from the selected elements, in document order, with
      repetitions. */
  function Kept(elements: seq<Element>): seq<string>
  {
    FlatMap(elements, Keep)
  }

  /** The kept texts are exactly the normalised texts of the elements that
      have a word character; none of them spans two lines. */
  lemma {:induction false} KeptExactly(elements: seq<Element>)
    ensures forall t | t in Kept(elements) ::
      HasWordChar(t) && '\n' !in t && exists e | e in elements :: t == SelectedText(e)
    ensures forall e | e in elements && HasWordChar(SelectedText(e)) :: SelectedText(e) in Kept(elements)
  {
    forall t | t in Kept(elements)
      ensures HasWordChar(t) && '\n' !in t && exists e | e in elements :: t == SelectedText(e)
    {
      FlatMapMember(elements, Keep, t);
      var i :| 0 <= i < |elements| && t in Keep(elements[i]);
      assert elements[i] in elements;
      NormalizeNoNewline(ElementText(elements[i]));
    }
    forall e | e in elements && HasWordChar(SelectedText(e))
      ensures SelectedText(e) in Kept(elements)
    {
      var i :| 0 <= i < |elements| && elements[i] == e;
      FlatMapHas(elements, Keep, i, SelectedText(e));
    }
  }

  /** The texts of the selected elements: kept texts without repetitions, in
      one of the orders `list(set(...))` may give. */
  method SelectTexts(elements: seq<Element>) returns (texts: seq<string>)
    ensures NoDup(texts)
    ensures ToSet(texts) == ToSet(Kept(elements))
  {
    var sourceList: seq<string> := [];
    for n := 0 to |elements|
      invariant sourceList == FlatMap(elements[..n], Keep)
    {
      FlatMapSnoc(elements, n, Keep);
      var text := SelectedText(elements[n]);
      if HasWordChar(text) {
        sourceList := sourceList + [text];
      }
    }
    assert elements[..|elements|] == elements;
    texts := Dedup(sourceList);
  }

  // =====================================================================
  // match_texts (lib/website_hash.py:86-94)

  /** `any([p.match(text) for p in keywords])` with `p = .*k.*`. */
  function AnyKeyword(t: string, kws: seq<string>): (b: bool)
    ensures b <==> exists k | k in kws :: LineMatch(t, k)
  {
    if kws == [] then false
    else LineMatch(t, kws[0]) || AnyKeyword(t, kws[1..])
  }

  /** A text is a match when some keyword matches it and its digest is new. */
  function MatchOf(kws: seq<string>, known: seq<Hash>, digest: string -> Hash): string -> seq<string>
  {
    t => if AnyKeyword(t, kws) && digest(t) !in known then [t] else []
  }

  /** The result of `match_texts`: the matching texts, in input order. */
  function NewMatches(texts: seq<string>, kws: seq<string>, known: seq<Hash>, digest: string -> Hash): seq<string>
  {
    FlatMap(texts, MatchOf(kws, known, digest))
  }

  method FindMatches(texts: seq<string>, keywords: seq<string>, oldHashes: seq<Hash>, digest: string -> Hash)
    returns (matched: seq<string>)
    ensures matched == NewMatches(texts, keywords, oldHashes, digest)
  {
    matched := [];
    for n := 0 to |texts|
      invariant matched == FlatMap(texts[..n], MatchOf(keywords, oldHashes, digest))
    {
      FlatMapSnoc(texts, n, MatchOf(keywords, oldHashes, digest));
      var text := texts[n];
      if AnyKeyword(text, keywords) {
        var textHash := digest(text);
        if textHash !in oldHashes {
          matched := matched + [text];
        }
      }
    }
    assert texts[..|texts|] == texts;
  }

  /** A text is a match exactly when it is one of the texts, some keyword
      matches it and its digest is new. */
  lemma NewMatchesExactly(texts: seq<string>, kws: seq<string>, known: seq<Hash>, digest: string -> Hash)
    ensures forall t | t in NewMatches(texts, kws, known, digest) ::
      t in texts && AnyKeyword(t, kws) && digest(t) !in known
    ensures forall t | t in texts && AnyKeyword(t, kws) && digest(t) !in known ::
      t in NewMatches(texts, kws, known, digest)
  {
    var f := MatchOf(kws, known, digest);
    forall t | t in FlatMap(texts, f)
      ensures t in texts && AnyKeyword(t, kws) && digest(t) !in known
    {
      FlatMapMember(texts, f, t);
      var i :| 0 <= i < |texts| && t in f(texts[i]);
    }
    forall t | t in texts && AnyKeyword(t, kws) && digest(t) !in known
      ensures t in FlatMap(texts, f)
    {
      var i :| 0 <= i < |texts| && texts[i] == t;
      FlatMapHas(texts, f, i, t);
    }
  }

  /** Matches are distinct when the texts are. */
  lemma {:induction false} NewMatchesNoDup(texts: seq<string>, kws: seq<string>, known: seq<Hash>, digest: string -> Hash)
    requires NoDup(texts)
    ensures NoDup(NewMatches(texts, kws, known, digest))
    decreases |texts|
  {
    if texts != [] {
      var init := texts[..|texts| - 1];
      var last := texts[|texts| - 1];
      assert NoDup(init);
      NewMatchesNoDup(init, kws, known, digest);
      NewMatchesExactly(init, kws, known, digest);
      assert last !in init;
    }
  }

  /** On a selected text, which has no line break, the anchored pattern
      `.*k.*` matches exactly when k occurs anywhere in it, ignoring case;
      the empty keyword (a blank line of the keyword file) matches every
      text. */
  lemma SelectedTextMatch(elements: seq<Element>, t: string, kws: seq<string>)
    requires t in Kept(elements)
    ensures AnyKeyword(t, kws) <==> exists k, i | k in kws :: ContainsAt(t, k, i)
    ensures "" in kws ==> AnyKeyword(t, kws)
  {
    KeptExactly(elements);
    forall k | k in kws
      ensures LineMatch(t, k) <==> exists i :: ContainsAt(t, k, i)
      ensures k == "" ==> LineMatch(t, k)
    {
      LineMatchIsContainment(t, k);
    }
  }

  // =====================================================================
  // get_text_hashes (lib/website_hash.py:97-103)

  method GetTextHashes(texts: seq<string>, digest: string -> Hash) returns (hashes: seq<Hash>)
    ensures hashes == Digests(texts, digest)
  {
    hashes := [];
    for n := 0 to |texts|
      invariant hashes == Digests(texts[..n], digest)
    {
      assert texts[..n + 1] == texts[..n] + [texts[n]];
      DigestsSnoc(texts[..n], texts[n], digest);
      var newHash := digest(texts[n]);
      hashes := hashes + [newHash];
    }
    assert texts[..|texts|] == texts;
  }

  /** Once the digests of all the texts are the known ones, the same texts
      give no match again. */
  lemma SelectorRerunSilent(texts: seq<string>, kws: seq<string>, digest: string -> Hash)
    ensures NewMatches(texts, kws, Digests(texts, digest), digest) == []
  {
    var f := MatchOf(kws, Digests(texts, digest), digest);
    forall i | 0 <= i < |texts|
      ensures f(texts[i]) == []
    {
      assert Digests(texts, digest)[i] == digest(texts[i]);
    }
    FlatMapEmpty(texts, f);
  }

  /** The hash file written after a match reads back as the digests of the
      texts, in order, and forgets every older digest: an unchanged page
      then gives no match. */
  lemma SelectorLedgerRoundTrip(texts: seq<string>, kws: seq<string>, digest: string -> Hash)
    requires forall i | 0 <= i < |texts| :: CleanLine(digest(texts[i])) && digest(texts[i]) != ""
    ensures LoadOldHashes(Some(LedgerFile(Digests(texts, digest)))) == Digests(texts, digest)
    ensures NewMatches(texts, kws, LoadOldHashes(Some(LedgerFile(Digests(texts, digest)))), digest) == []
  {
    var hs := Digests(texts, digest);
    assert forall i | 0 <= i < |hs| :: hs[i] == digest(texts[i]);
    StripLinesJoin(hs);
    SelectorRerunSilent(texts, kws, digest);
  }

  // =====================================================================
  // The main program (lib/website_hash.py:130-157)

  /** Why a run stops early:
      - InvalidType: the `--type` option is neither static nor dynamic;
      - DownloadFailed: the download raises;
      - SelectorNotFound: the selector picks no element (exit status 1). */
  datatype SelectorError = InvalidType(name: string) | DownloadFailed | SelectorNotFound

  /** A finished run: the selected texts, the text written to the `--output`
      file, the matches, the report printed (empty when there is no match),
      and the new content of the hash file, when it is rewritten. */
  datatype Run =
    | Failed(error: SelectorError)
    | Finished(texts: seq<string>, page: string, matches: seq<string>, report: string, ledger: Option<string>)

  /** One run of the script on the selected elements (None when the
      download fails), the keyword file and the hash file (None when it
      cannot be read). */
  method RunSelector(modeName: string, selection: Option<seq<Element>>, keywordFile: string,
                     hashFile: Option<string>, digest: string -> Hash)
    returns (run: Run)
    ensures Crawl.ParseMode(modeName).Invalid? ==> run == Failed(InvalidType(modeName))
    ensures !Crawl.ParseMode(modeName).Invalid? && selection.None? ==> run == Failed(DownloadFailed)
    ensures !Crawl.ParseMode(modeName).Invalid? && selection == Some([]) ==> run == Failed(SelectorNotFound)
    // a valid mode and a non-empty selection always finish
    ensures !Crawl.ParseMode(modeName).Invalid? && selection.Some? && selection.value != [] ==> run.Finished?
    ensures run.Finished? ==>
      && selection.Some? && selection.value != [] && !Crawl.ParseMode(modeName).Invalid?
      && NoDup(run.texts) && ToSet(run.texts) == ToSet(Kept(selection.value))
      && run.page == Join(run.texts, " ")
      && run.matches == NewMatches(run.texts, LoadKeywords(keywordFile), LoadOldHashes(hashFile), digest)
      && NoDup(run.matches)
      && run.report == Join(run.matches, "\n")
    // the hash file is rewritten exactly when there is a match, with the
    // digests of all the texts
    ensures run.Finished? ==> (run.ledger.Some? <==> run.matches != [])
    ensures run.Finished? && run.ledger.Some? ==> run.ledger.value == LedgerFile(Digests(run.texts, digest))
  {
    var mode := Crawl.ParseMode(modeName);
    if mode.Invalid? {
      return Failed(InvalidType(modeName));
    }
    if selection.None? {
      return Failed(DownloadFailed);
    }
    var asList := selection.value;
    if asList == [] {
      return Failed(SelectorNotFound);
    }
    var texts := SelectTexts(asList);
    var sourceText := Join(texts, " ");
    var keywords := LoadKeywords(keywordFile);
    var oldHashes := LoadOldHashes(hashFile);
    var matches := FindMatches(texts, keywords, oldHashes, digest);
    NewMatchesNoDup(texts, keywords, oldHashes, digest);
    if matches != [] {
      var hashes := GetTextHashes(texts, digest);
      run := Finished(texts, sourceText, matches, Join(matches, "\n"), Some(LedgerFile(hashes)));
    } else {
      run := Finished(texts, sourceText, matches, "", None);
    }
  }
}

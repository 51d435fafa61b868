# website-keyword-monitor, modelled in Dafny

The project watches web pages for keywords. Its core is two scripts:

- `lib/website_matcher.py` crawls a start page and the pages it links to, one level deep. On every PDF or HTML page it looks for whole-word, case-insensitive keyword matches.
  - For every new matching fragment it reports a highlighted excerpt of about 70 characters on each side of the first match, together with the SHA-256 digest of the fragment.
  - A fragment is new when its digest is not in the hash ledger. The ledger is a file of digests already reported.
  - At the end, the script writes the sorted, duplicate-free union of the old ledger and the new digests as the new ledger.
- `lib/website_hash.py` watches the elements that one CSS selector picks on one page.
  - A text is a match when some keyword occurs in it and its digest is not in the hash file.
  - When there is a match, the hash file is overwritten with the digests of all the selected texts.

The Dafny modules follow that structure:

| module | file | models |
|---|---|---|
| `Util` | util.dfy | lists without repetitions, `list(set(...))`, a flat-map over lists and its laws |
| `Text` | text.dfy | `strip`, the three replacements that normalise a fragment, `split`/`join`, reading a file line by line |
| `Keywords` | keywords.dfy | the keyword file, whole-word matching (`\b(k)\b`), first-line matching (`.*k.*`), the excerpt window, `**…**` highlighting |
| `Ledger` | ledger.dfy | reading the hash ledger, Python's string order, `sorted(set(...))`, writing the ledger and reading it back |
| `Matcher` | matcher.dfy | `match_texts` of the crawler, and the per-keyword scan of an HTML page |
| `Crawl` | crawler.dfy | `crawl_urls` as a class holding the visited URLs, the hash list and the results, plus the main program |
| `SelectorHash` | selector.dfy | `website_hash.py`: selection, `match_texts`, `get_text_hashes`, the main program |

How the outside world is represented:

- **Digests.** SHA-256 is a function parameter `digest: string -> Hash`. `urljoin` is a parameter `resolve` in the same way.
- **The network.** It is a map from URL to what fetching the URL gives. A PDF arrives as its extracted text. An HTML page arrives as its text nodes and its links. A failed fetch is an explicit case.
- **Files.** They are string parameters. A hash file that cannot be read is `None`.
- **Exceptions.** The ones that end a run are values: `Status`, `Outcome` and `Run`. An aborted crawl keeps the results already written and the URLs already crawled; no new ledger is written.
- **The generator and its consumer.** `crawl_urls` is a generator. Its consumer extends the same list that the crawl checks novelty against. `Crawler.Emit` performs that consumer step at the point where the result is yielded.

In these points the model follows the code:

- A blank line of a keyword file is kept as the empty keyword.
  - For the crawler, `\b()\b` matches every text that has a word character (`EmptyKeywordMatches`).
  - For `website_hash.py`, `.*.*` matches every text (`SelectedTextMatch`).
- A child page's label is `link.string or label`, with no trimming.
- PDF paragraphs are cut to the same ±70-character highlighted window as HTML fragments, not reported whole.
- A crawl ends as soon as a linked page raises an uncaught exception. These are an invalid `--type` on a text page and `m.start()` on `None`. It does not end for a fetch failure on a linked page.

## Model

| member | source | states |
|---|---|---|
| Util.Dedup | lib/website_matcher.py:163 | `list(set(xs))` as one admissible order: no repetitions, the same elements, never longer |
| Util.DedupEmpty | lib/website_matcher.py:163-164 | the de-duplicated list is empty exactly when the list is, so `len(unique) > 0` tests for any accepted fragment |
| Text.StripSpec | lib/website_matcher.py:48 | the result has no surrounding whitespace and is the slice of the input between its leading and its trailing whitespace, all of which is whitespace |
| Text.StripLines | lib/website_matcher.py:58 | one stripped entry per line of the file, in order |
| Text.NormalizeNoNewline | lib/website_matcher.py:146-149 | after the three replacements no newline remains and the text is no longer |
| Text.NormalizeKeepsContent | lib/website_matcher.py:146-149 | the replacements change only blanks: the non-blank characters stay, in order |
| Text.NormalizeKeepsWordChars | lib/website_matcher.py:146-152 | the `\w` test gives the same answer before and after normalisation |
| Text.SpacesNormalize | lib/website_matcher.py:149 | one pass of `replace("  ", " ")` turns n spaces into (n+1)/2, so longer runs are not collapsed |
| Text.NormalizeNotIdempotent | lib/website_matcher.py:147-149 | normalising twice can differ from normalising once |
| Text.SplitPieces | lib/website_matcher.py:109 | no piece of `split` holds the separator, and the first piece is where the text starts |
| Text.JoinSplit | lib/website_matcher.py:109 | the paragraphs of a PDF text, joined back, give the text: no character is lost or added |
| Text.SplitJoin | lib/website_matcher.py:252 | joining pieces that do not contain the separator and splitting again gives the pieces back |
| Text.LinesJoin | lib/website_matcher.py:252-254 | newline-joined lines read back line by line as the same lines, unless the last is empty |
| Text.StripLinesJoin | lib/website_matcher.py:58 | clean lines written with `"\n".join` come back from `[line.strip() for line in f]` unchanged |
| Keywords.LoadKeywords | lib/website_matcher.py:45-51 | one stripped keyword per line of the file, in order, blank lines included |
| Keywords.SearchFrom | lib/website_matcher.py:50 | the result is the first whole-word, case-insensitive match at or after the start; None means there is no match there |
| Keywords.EmptyKeywordMatches | lib/website_matcher.py:50 | the blank keyword's pattern `\b()\b` matches exactly the texts that have a word character |
| Keywords.LineMatchFrom | lib/website_hash.py:71 | `.*k.*` matches exactly when k occurs, ignoring case, before the first line break |
| Keywords.LineMatchIsContainment | lib/website_hash.py:89 | on a text without line breaks, `p.match` means containment ignoring case; the empty keyword matches always |
| Keywords.ExcerptAroundMatch | lib/website_matcher.py:79-80 | the excerpt is the slice from 70 before to 70 after the match, clipped to the text, and still contains the whole-word match |
| Keywords.PiecesErase | lib/website_matcher.py:81 | removing the `**` markers from a highlighted text gives the text back |
| Keywords.PiecesMarksMatch | lib/website_matcher.py:81 | every marked piece equals the keyword, ignoring case |
| Keywords.PiecesMarkSome | lib/website_matcher.py:81 | a text with a whole-word match gets at least one marker |
| Keywords.RenderLength | lib/website_matcher.py:81 | highlighting adds exactly four characters per match |
| Keywords.PiecesExact | lib/website_matcher.py:81 | every marker sits at a whole-word match and no unmarked character starts one (a blank keyword's empty marker aside), so the markers are exactly the leftmost non-overlapping matches |
| Keywords.HighlightMarksEvery | lib/website_matcher.py:81 | both matches of "a" in "a a" are marked: "**a** **a**" |
| Keywords.HighlightedExcerptSpec | lib/website_matcher.py:79-81 | the reported text is the excerpt around the first match with exactly its leftmost non-overlapping matches marked, at least one, four characters longer per mark |
| Ledger.LoadOldHashes | lib/website_matcher.py:54-62 | an unreadable file gives no hashes; otherwise one stripped hash per line |
| Ledger.LexIrreflexive | lib/website_matcher.py:251 | Python's string order is irreflexive |
| Ledger.LexTransitive | lib/website_matcher.py:251 | Python's string order is transitive |
| Ledger.LexTotal | lib/website_matcher.py:251 | any two different strings are ordered one way or the other |
| Ledger.SortedNoDup | lib/website_matcher.py:250-251 | a strictly sorted list has no repetitions |
| Ledger.InsertUnique | lib/website_matcher.py:250-251 | inserting into a sorted duplicate-free list keeps it so and adds exactly that element |
| Ledger.SortedUnique | lib/website_matcher.py:250-251 | `sorted(set(hs))` is strictly sorted and has exactly the elements of hs |
| Ledger.SortedSameSetEqual | lib/website_matcher.py:250-251 | two strictly sorted lists with the same elements are equal, so the ledger does not depend on set iteration order |
| Ledger.LedgerRoundTrip | lib/website_matcher.py:252-254 | a sorted ledger of clean lines reads back unchanged on the next run |
| Matcher.MatchingKeywords | lib/website_matcher.py:68-70 | the kept keywords are keywords that match the text as whole words, and every such keyword is kept |
| Matcher.MatchingKeywordsAppend | lib/website_matcher.py:68 | the filter keeps keyword order: filtering a concatenation gives the filtered parts one after the other |
| Matcher.MatchingKeywordsSingle | lib/website_matcher.py:68 | a single keyword is kept exactly when it matches |
| Matcher.MatchingKeywordsCount | lib/website_matcher.py:68 | a matching keyword listed n times is kept n times, a non-matching one never |
| Matcher.RecordsForAt | lib/website_matcher.py:78-86 | entry i belongs to the i-th matching keyword and holds its highlighted excerpt and the fragment's digest |
| Matcher.HighlightRecords | lib/website_matcher.py:78-86 | the inner loop builds exactly one entry per matching keyword, in order |
| Matcher.MatchTexts | lib/website_matcher.py:65-90 | the loop's result equals the entries of each fragment, fragments in input order |
| Matcher.TextRecordsSound | lib/website_matcher.py:67-86 | every entry of a fragment is for a matching keyword of a fragment whose digest is new |
| Matcher.MatchTextsSound | lib/website_matcher.py:65-90 | every entry comes from an input fragment whose digest is unknown and that its keyword matches |
| Matcher.MatchTextsComplete | lib/website_matcher.py:65-90 | every new fragment yields an entry for every keyword that matches it |
| Matcher.MatchTextsAppend | lib/website_matcher.py:67 | fragments are handled independently and in order |
| Matcher.MatchTextsNovel | lib/website_matcher.py:72-74 | no reported digest is already known |
| Matcher.MatchTextsRerunSilent | lib/website_matcher.py:74 | once the reported digests are known, the same fragments report nothing again |
| Matcher.AcceptedSound | lib/website_matcher.py:141-152 | every accepted fragment comes from a node the keyword matches, has a word character and a new digest |
| Matcher.AcceptedComplete | lib/website_matcher.py:141-152 | every matched node with a new, word-bearing fragment is accepted |
| Matcher.AcceptedAppend | lib/website_matcher.py:145 | nodes are handled independently and in document order |
| Matcher.ScanKeyword | lib/website_matcher.py:141-161 | the scan gives the excerpts and the digests of the accepted fragments in order, or aborts exactly when an accepted fragment lost its match |
| Matcher.EntryKeywords | lib/website_matcher.py:163-171 | a keyword gets an entry exactly when it has an accepted fragment |
| Matcher.MatchHtmlPage | lib/website_matcher.py:136-171 | the page is scanned without abort exactly when no accepted fragment loses its match; it then has one entry per keyword with accepted fragments, each with those fragments' digests and distinct excerpts |
| Matcher.EntryShape | lib/website_matcher.py:163-171 | an entry has no more texts than digests, every digest is new, and every text is an excerpt of an accepted fragment |
| Matcher.EntriesNovel | lib/website_matcher.py:150-152 | no digest of a page's entries is already known |
| Matcher.AcceptedRerunSilent | lib/website_matcher.py:152 | once a page's digests for k are known, the page gives no fragment for k again |
| Matcher.FooBarNodeText | lib/website_matcher.py:146-149 | the node "foo  bar" normalises to "foo bar" |
| Matcher.LostMatchAborts | lib/website_matcher.py:150-156 | an accepted fragment whose normalised text no longer matches the keyword makes the page's scan abort |
| Matcher.DoubleSpaceKeywordAborts | lib/website_matcher.py:141-156 | a keyword with two consecutive spaces matches a raw node but not its normalised text, so the scan aborts |
| Crawl.ParseMode | lib/website_matcher.py:124-129 | `--type` selects static or dynamic download; anything else is invalid |
| Crawl.RecordKeeps | lib/website_matcher.py:98-102 | recording a URL not yet crawled keeps the crawl invariant, and that URL has no result yet |
| Crawl.EmitKeeps | lib/website_matcher.py:240-241 | consuming a result with new digests keeps the invariant: one result per URL, digests never repeated, hash list = loaded + reported |
| Crawl.CrawlReportsOnce | lib/website_matcher.py:240-241 | no reported digest is in the loaded ledger, and no two results share a digest |
| Crawl.Crawler.constructor | lib/website_matcher.py:236-238 | the crawl starts with no URL visited, no result and the loaded hashes |
| Crawl.Crawler.Emit | lib/website_matcher.py:239-247 | the result is written and the hash list is extended by its digests |
| Crawl.Crawler.Crawl | lib/website_matcher.py:93-134 | too deep, empty or already crawled URLs change nothing; otherwise the URL is recorded first and the page is crawled as its fetch dictates (see Visit); at level 1 at most the page's own result follows; at most 501 pages from level 0; a fetch failure ends the run only at level 0; every exception has its cause |
| Crawl.Crawler.Visit | lib/website_matcher.py:105-134 | by fetch outcome: an unreachable or unsupported page raises at level 0 and is ignored deeper; an invalid `--type` raises at any level for a text page; a PDF yields exactly its `match_texts` result; an HTML page whose scan loses a match raises with its URL; otherwise the HTML page's own result comes first, then its links' (see VisitHtml) |
| Crawl.Crawler.VisitPdf | lib/website_matcher.py:107-121 | a PDF page yields exactly one result with the `match_texts` entries of its paragraphs, if there are any |
| Crawl.Crawler.ScanHtml | lib/website_matcher.py:136-180 | an HTML page's scan aborts exactly when a fragment loses its match; otherwise its result, if any, has one entry per keyword with accepted fragments |
| Crawl.Crawler.VisitHtml | lib/website_matcher.py:136-204 | an abort of the scan raises with the page's URL and changes nothing; otherwise the page's own result, when some keyword has an entry, comes before every result of its links; at level 1 no link is crawled; at level 0 the link loop ends as FollowLinks states |
| Crawl.Crawler.FollowLinks | lib/website_matcher.py:182-204 | the first 500 links are walked in order; every one not skipped (empty, `#`, `mailto:`) is crawled at its `urljoin` target one level deeper; only those targets are crawled, so no more new URLs than links; a trace records, link by link, that each new target is crawled at level 1 with the whole outcome its fetch dictates (its result or none, against the loaded hashes plus the digests reported so far); every new result belongs to the first link to its URL and carries that link's text or else the page's label; the loop ends after the last link, or at the first linked page that raised, which is the last URL crawled; a linked page's fetch failure never ends it |
| Crawl.Crawler.FollowLink | lib/website_matcher.py:183-204 | one turn of the loop: a skipped, empty or known target changes nothing, any other is crawled at level 1 as its fetch dictates; the walk's invariant holds over one more link, and a raising link ends the walk there |
| Crawl.TraceStep | lib/website_matcher.py:183-204 | one more link crawled as stated extends the trace of the link loop by one step |
| Crawl.FollowedStep | lib/website_matcher.py:183-204 | a link crawled with its full outcome keeps the earlier results and adds at most its target's own result, labelled by the link |
| Crawl.WalkedBound | lib/website_matcher.py:182-204 | a walk that crawls no URL twice adds no more URLs than the page has links to walk, which are at most 500 |
| Crawl.TwoPagesCrawl | lib/website_matcher.py:182-204 | a start page with one link to a PDF: the crawl completes, crawls exactly the two pages, and yields exactly the PDF's own result under the start page's label |
| Crawl.ThreePagesCrawl | lib/website_matcher.py:182-204 | a start page linking first to a PDF, then to an HTML page without text: the crawl completes, crawls the three pages in link order, and the HTML page keeps the PDF's result, so the results are exactly the PDF's own |
| Crawl.WalkStep | lib/website_matcher.py:183-204 | crawling one more link (nothing for a skipped link, an empty or known target; else the target recorded with at most its own result) extends the walked prefix: targets crawled, only targets crawled, results labelled by their first link |
| Crawl.OwnFirstIntro | lib/website_matcher.py:173-180 | the page's result, yielded before the links are walked, is the first new result and holds the page's entries |
| Crawl.CompletedCrawlFollowsLinks | lib/website_matcher.py:182-204 | a start page whose crawl completed had every link among its first 500 that is not skipped and has a non-empty target crawled, and nothing else besides the start page |
| Crawl.CrawlSite | lib/website_matcher.py:238-248 | the crawl from the start URL at level 0 starts from nothing crawled, crawls the start URL first, keeps the crawl invariant and ends as the start page's fetch dictates, each linked page crawled with its own full outcome |
| Crawl.Conclude | lib/website_matcher.py:250-255 | an exception leaves no ledger; otherwise the ledger is the sorted, duplicate-free hash list, with exactly the loaded and the reported digests |
| Crawl.RunMatcher | lib/website_matcher.py:235-258 | the new ledger is sorted and duplicate-free and holds exactly the old and the reported digests; the start page is crawled first, no page twice, at most 501; a digest is reported at most once; the run ends as the start page's crawl dictates, down to each linked page's results; an unreachable or unsupported start page aborts with nothing written; a PDF start page completes with exactly its own result |
| SelectorHash.ElementTextJoinsStrings | lib/website_hash.py:52 | `get_text(strip=True)` strips every string below the element and joins them with no separator: `<p>a <b>b</b></p>` gives "ab" |
| SelectorHash.KeptExactly | lib/website_hash.py:50-57 | the kept texts are exactly the normalised element texts (every string below the element stripped and concatenated) that have a word character; none has a line break |
| SelectorHash.SelectTexts | lib/website_hash.py:44-63 | the selected texts are the kept texts without repetitions |
| SelectorHash.AnyKeyword | lib/website_hash.py:89 | true exactly when some keyword's `.*k.*` matches the text |
| SelectorHash.FindMatches | lib/website_hash.py:86-94 | the loop's result is the matching texts in input order |
| SelectorHash.NewMatchesExactly | lib/website_hash.py:86-94 | a text is a match exactly when it is selected, some keyword matches it and its digest is new |
| SelectorHash.NewMatchesNoDup | lib/website_hash.py:86-94 | the matches are distinct when the texts are |
| SelectorHash.SelectedTextMatch | lib/website_hash.py:71 | on a selected text a keyword matches exactly when it occurs anywhere, ignoring case; a blank keyword line matches every text |
| SelectorHash.GetTextHashes | lib/website_hash.py:97-103 | one digest per text, in order |
| SelectorHash.SelectorRerunSilent | lib/website_hash.py:151-154 | once the digests of all texts are known, the same texts give no match |
| SelectorHash.SelectorLedgerRoundTrip | lib/website_hash.py:151-154 | the rewritten hash file reads back as exactly the digests of the texts, dropping the older ones, so an unchanged page gives no match |
| SelectorHash.RunSelector | lib/website_hash.py:130-157 | an invalid type, a failed download or an empty selection ends the run, and a valid type with a non-empty selection always finishes; a finished run has the selected texts, the page text joined by spaces, exactly the new matches, which are distinct, and the match report; the hash file is rewritten with the digests of all texts exactly when there is a match |

## Left out

- Downloading is not modelled. This covers `lib/download.py`, HTTP retries, time-outs, TLS verification, Selenium, and the content-type probe. The crawler sees a map from URL to a `Page`. The selector script sees the selected elements or a failed download.
- `lib/website_matcher.py:106` calls `dl.get_content_type`, which `lib/download.py` does not define. As written, every crawl would raise `AttributeError` at level 0. The model assumes a content-type probe that classifies the page as PDF, text or unsupported.
- `lib/website_matcher.py:127` calls `dl.download_with_selenium(url, timeout)`, passing the wait time where `lib/download.py:61` takes a CSS selector. The model gives the dynamic fetch the same page as the static one.
- In `lib/download.py` as written, `pdfdownload` passes an unsupported `silent` argument to `download_content`. A real PDF fetch would therefore raise `TypeError`. `lib/download.py` is not part of this model, and the model treats PDF text as delivered.
- HTML parsing and CSS selection (BeautifulSoup) are not modelled. A page is given as its text nodes and links in document order, or as the strings below each selected element, in document order. `.string` of a link is given as an option.
- SHA-256 and `urljoin` are function parameters. Their own properties are not modelled.
- `urljoin` can raise `ValueError`, for instance on an href `http://[::1`. The `try` around a link (lib/website_matcher.py:184-192) catches only `KeyError`, so that error would end the run at any level. `resolve` is total, and that case is not modelled.
- Text.Lines splits a file at `"\n"` only. Python's universal newlines also end a line at a lone `"\r"`, so a file with such line ends is read as fewer lines in the model. A `"\r\n"` line end gives the same stripped line either way.
- Keywords are literal strings. Regular-expression syntax inside a keyword file line is not interpreted.
- `\w`, whitespace and case folding are modelled on the Latin-1 range, not all of Unicode.
- Logging, command-line parsing, the `--wait` time-out, and the JSON-lines and print formatting are left out. A `Run` or an `Outcome` carries the values those would write.
- The keyword file of either script is assumed to be readable. A missing keyword file raises in the source.
- The two fetch modes (static and dynamic) give the same page in the model. Only the invalid mode is distinguished.
- SelectorHash.SelectTexts: gives the order of `list(set(...))` only up to the set of elements and no repetitions. Python's set iteration order is not modelled. Util.Dedup is one admissible order.
- Matcher.MatchHtmlPage: states each entry's texts only up to their set, without repetitions, for the same reason.

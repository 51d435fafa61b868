/** The crawl of lib/website_matcher.py: `crawl_urls` visits a start page and
    the pages it links to (one level deep), matches the keywords on each PDF
    or HTML page, and yields one result per page with new matches; the main
    program consumes the results, adds their digests to the hash list, and
    finally writes the sorted, duplicate-free hash list as the new ledger.

    The network is a parameter: a map from URL to what fetching it gives. The
    generator and its consumer run interleaved in the source (the consumer
    extends the very list the crawl checks novelty against); here the
    crawler object holds both the visited list and the hash list, and
    emitting a result performs the consumer's step. */
module Crawl {
  import opened Util
  import opened Text
  import opened Keywords
  import opened Ledger
  import opened Matcher

  type Url = string

  /** A link found on an HTML page (`find_all('a', href=True)`): its href and
      its `.string`, which is None when the tag has no single text child. */
  datatype Anchor = Anchor(href: string, text: Option<string>)

  /** What fetching a URL gives:
      - Unreachable: the content-type probe or the PDF download fails;
      - Unsupported: the content type is neither PDF nor text;
      - Pdf: a PDF whose extracted text is `content`;
      - Html: a text page with its text nodes and its links in document order;
      - TextUnreachable: a text page whose download fails. */
  datatype Page =
    | Unreachable
    | Unsupported
    | Pdf(content: string)
    | Html(nodes: seq<string>, anchors: seq<Anchor>)
    | TextUnreachable

  /** The `--type` option. */
  datatype FetchMode = Static | Dynamic | Invalid(name: string)

  function ParseMode(s: string): (m: FetchMode)
    ensures m.Static? <==> s == "static"
    ensures m.Dynamic? <==> s == "dynamic"
    ensures m.Invalid? ==> m.name == s
  {
    if s == "static" then Static else if s == "dynamic" then Dynamic else Invalid(s)
  }

  datatype Kind = PdfPage | HtmlPage

  /** One yielded result: a page with new matches. */
  datatype PageResult = PageResult(kind: Kind, group: string, url: Url, pageLabel: string, matches: seq<Match>)

  /** The exceptions that end the run:
      - FetchFailed: the start page cannot be fetched or is not PDF or text
        (re-raised at level 0 only);
      - InvalidType: the fetch mode is neither static nor dynamic;
      - NoMatchObject: an accepted fragment lost its match to normalisation
        (`m.start()` on None). */
  datatype CrawlError = FetchFailed(url: Url) | InvalidType(name: string) | NoMatchObject(url: Url)

  datatype Status = Done | Raised(error: CrawlError)

  /** The digests a result adds to the hash list. */
  function ResultDigests(r: PageResult): seq<Hash>
  {
    MatchHashes(r.matches)
  }

  /** The digests of a list of results, in order. */
  function ResultHashes(rs: seq<PageResult>): seq<Hash>
  {
    FlatMap(rs, ResultDigests)
  }

  /** At most this many pages are visited from one call at the given level:
      the page itself and, at levels below 2, up to 500 links. */
  function MaxVisits(level: nat): nat
    decreases if level < 2 then 2 - level else 0
  {
    if level >= 2 then 0 else 1 + 500 * MaxVisits(level + 1)
  }

  /** `link.string or label`: the label passed to a linked page. */
  function ChildLabel(a: Anchor, pageLabel: string): (l: string)
    ensures a.text.Some? && a.text.value != [] ==> l == a.text.value
    ensures a.text.None? || a.text.value == [] ==> l == pageLabel
  {
    if a.text.Some? && a.text.value != [] then a.text.value else pageLabel
  }

  /** Links that are not followed: empty, in-page anchors and mail links. */
  predicate Skipped(href: string)
  {
    href == [] || IsPrefix("#", href) || IsPrefix("mailto:", href)
  }

  /** The crawl's fixed arguments: the network, the keywords, the fetch mode,
      the group, the digest (SHA-256), `urljoin` and the hashes loaded from
      the old ledger. */
  datatype Env = Env(web: map<Url, Page>, keywords: seq<string>, mode: FetchMode, group: string,
                     digest: string -> Hash, resolve: (Url, string) -> Url, loaded: seq<Hash>)

  /** What fetching `url` gives; a URL outside the network is unreachable. */
  function Fetch(env: Env, url: Url): Page
  {
    if url in env.web then env.web[url] else Unreachable
  }

  /** The status of a fetch that fails: raised on the start page, ignored on
      a linked page. */
  function FetchFailure(level: nat, url: Url): Status
  {
    if level == 0 then Raised(FetchFailed(url)) else Done
  }

  /** `find_all('a', href=True, limit=500)`: the links the loop walks. */
  function LinksOf(anchors: seq<Anchor>): (links: seq<Anchor>)
    ensures |links| <= 500 && |links| <= |anchors| && links == anchors[..|links|]
    ensures |anchors| <= 500 ==> links == anchors
  {
    anchors[..Min(500, |anchors|)]
  }

  /** The link `a` on the page at `from` is followed, to the URL `to`. */
  predicate LinkTo(env: Env, from: Url, a: Anchor, to: Url)
  {
    !Skipped(a.href) && env.resolve(from, a.href) == to
  }

  /** Every link before position n that is followed to a non-empty URL has
      its target among the crawled URLs vs. */
  ghost predicate LinksVisited(env: Env, from: Url, links: seq<Anchor>, n: nat, vs: seq<Url>)
  {
    forall q | 0 <= q < n && q < |links| && !Skipped(links[q].href) && env.resolve(from, links[q].href) != [] ::
      env.resolve(from, links[q].href) in vs
  }

  /** Every URL of vs is the target of a link before position n. */
  ghost predicate OnlyLinks(env: Env, from: Url, links: seq<Anchor>, n: nat, vs: seq<Url>)
  {
    forall v | v in vs :: exists q | 0 <= q < n && q < |links| :: LinkTo(env, from, links[q], v)
  }

  /** The link at position q is the first one that leads to `to`. */
  ghost predicate FirstLinkTo(env: Env, from: Url, links: seq<Anchor>, q: nat, to: Url)
  {
    q < |links| && LinkTo(env, from, links[q], to) && forall p | 0 <= p < q :: !LinkTo(env, from, links[p], to)
  }

  /** A result is of the kind of the page at its URL. */
  ghost predicate KindFits(env: Env, r: PageResult)
  {
    || (r.kind == PdfPage && Fetch(env, r.url).Pdf?)
    || (r.kind == HtmlPage && Fetch(env, r.url).Html?)
  }

  /** r is the result of a page crawled through one of the first n links of
      the page at `from`: the first link that leads to it, labelled by that
      link's text or else by the parent's label. */
  ghost predicate ChildResult(env: Env, from: Url, pageLabel: string, links: seq<Anchor>, n: nat, r: PageResult)
  {
    && r.group == env.group
    && KindFits(env, r)
    && exists q | 0 <= q < n :: FirstLinkTo(env, from, links, q, r.url) && r.pageLabel == ChildLabel(links[q], pageLabel)
  }

  /** The shape of LinkFollowed that the walk's invariant WalkedTo keeps
      (FollowedStep derives it): crawling the link `a` at level 1 did
      nothing to the crawled URLs (va to vb) and the results (ra to rb) for
      a skipped link, an empty target or one crawled before; otherwise the
      target is recorded and yields at most one result, its own. */
  ghost predicate LinkStep(env: Env, from: Url, pageLabel: string, a: Anchor,
                           va: seq<Url>, ra: seq<PageResult>, vb: seq<Url>, rb: seq<PageResult>)
  {
    var t := env.resolve(from, a.href);
    if Skipped(a.href) || t == [] || t in va then vb == va && rb == ra
    else
      && vb == va + [t] && IsPrefix(ra, rb) && |rb| <= |ra| + 1
      && (|rb| == |ra| + 1 ==>
            && rb[|ra|].url == t && rb[|ra|].pageLabel == ChildLabel(a, pageLabel)
            && rb[|ra|].group == env.group && KindFits(env, rb[|ra|]))
  }

  /** The link loop of the page at `from`, which started with the crawled
      URLs v0 and m0 results, has walked the first n links: each followed
      link's target is crawled, only those were crawled, and every new result
      is a linked page's. */
  ghost predicate WalkedTo(env: Env, from: Url, pageLabel: string, links: seq<Anchor>, n: nat,
                           v0: seq<Url>, m0: nat, vs: seq<Url>, rs: seq<PageResult>)
  {
    && |v0| <= |vs| && m0 <= |rs|
    && LinksVisited(env, from, links, n, vs)
    && OnlyLinks(env, from, links, n, vs[|v0|..])
    && (forall j | m0 <= j < |rs| :: ChildResult(env, from, pageLabel, links, n, rs[j]))
  }

  /** The link loop ended after walking `stop` links: after the last link, or
      at the first linked page that raised, which is the last URL crawled. */
  ghost predicate WalkStopped(env: Env, from: Url, pageLabel: string, links: seq<Anchor>, stop: nat,
                              v0: seq<Url>, m0: nat, vs: seq<Url>, rs: seq<PageResult>, status: Status)
  {
    && stop <= |links|
    && WalkedTo(env, from, pageLabel, links, stop, v0, m0, vs, rs)
    && (status == Done ==> stop == |links|)
    && (status.Raised? ==>
          && 0 < stop && |v0| < |vs| && LinkTo(env, from, links[stop - 1], vs[|vs| - 1])
          && (status.error.NoMatchObject? ==> status.error.url == vs[|vs| - 1]))
  }

  /** What crawling the link `a` does to the crawled URLs (va to vb) and the
      results (ra to rb), with status st: nothing for a skipped link, an empty
      target or one crawled before; otherwise the target is recorded and
      crawled one level deeper, labelled by the link, against the hash list
      as it stands: the loaded hashes and the digests of the results so far. */
  ghost predicate LinkFollowed(env: Env, from: Url, pageLabel: string, a: Anchor,
                               va: seq<Url>, ra: seq<PageResult>, vb: seq<Url>, rb: seq<PageResult>, st: Status)
  {
    var t := env.resolve(from, a.href);
    if Skipped(a.href) || t == [] || t in va then vb == va && rb == ra && st == Done
    else PageOutcome(env, t, ChildLabel(a, pageLabel), 1, va + [t], ra, env.loaded + ResultHashes(ra), vb, rb, st)
  }

  /** vt and rt are the crawled URLs and the results before each of the
      first n links and after the last of them: every link was crawled as
      LinkFollowed says, the last one ending with `last`, the others with
      Done. */
  ghost predicate Traced(env: Env, from: Url, pageLabel: string, links: seq<Anchor>, n: nat,
                         vt: seq<seq<Url>>, rt: seq<seq<PageResult>>, last: Status)
  {
    && n <= |links| && |vt| == n + 1 && |rt| == n + 1
    && forall q | 0 <= q < n ::
         LinkFollowed(env, from, pageLabel, links[q], vt[q], rt[q], vt[q + 1], rt[q + 1], if q + 1 == n then last else Done)
  }

  /** A link crawled as LinkFollowed states has the shape LinkStep states. */
  lemma FollowedStep(env: Env, from: Url, pageLabel: string, a: Anchor,
                     va: seq<Url>, ra: seq<PageResult>, vb: seq<Url>, rb: seq<PageResult>, st: Status)
    requires LinkFollowed(env, from, pageLabel, a, va, ra, vb, rb, st)
    ensures LinkStep(env, from, pageLabel, a, va, ra, vb, rb)
  {
    var t := env.resolve(from, a.href);
    if !(Skipped(a.href) || t == [] || t in va) {
      var childLabel := ChildLabel(a, pageLabel);
      var k := env.loaded + ResultHashes(ra);
      assert PageOutcome(env, t, childLabel, 1, va + [t], ra, k, vb, rb, st);
      match Fetch(env, t)
      case Pdf(_) =>
        assert rb == ra + PdfResult(env, t, childLabel, k);
        assert rb[..|ra|] == ra;
      case Html(nodes, _) =>
        if !env.mode.Invalid? && PageScanOk(nodes, env.keywords, k, env.digest) {
          assert OwnFirst(env, t, childLabel, nodes, ra, k, rb);
        }
      case _ =>
    }
  }

  /** The trace vt, rt of the link loop runs from the crawled URLs v0 and
      the first m0 results to vs and rs. */
  ghost predicate TraceSpans(env: Env, from: Url, pageLabel: string, links: seq<Anchor>, n: nat,
                             vt: seq<seq<Url>>, rt: seq<seq<PageResult>>,
                             v0: seq<Url>, m0: nat, vs: seq<Url>, rs: seq<PageResult>, status: Status)
  {
    && m0 <= |rs|
    && Traced(env, from, pageLabel, links, n, vt, rt, status)
    && vt[0] == v0 && rt[0] == rs[..m0] && vt[n] == vs && rt[n] == rs
  }

  /** The link loop ended after `stop` links, with the trace vt, rt. */
  ghost predicate WalkRecord(env: Env, from: Url, pageLabel: string, links: seq<Anchor>, stop: nat,
                             vt: seq<seq<Url>>, rt: seq<seq<PageResult>>,
                             v0: seq<Url>, m0: nat, vs: seq<Url>, rs: seq<PageResult>, status: Status)
  {
    && WalkStopped(env, from, pageLabel, links, stop, v0, m0, vs, rs, status)
    && TraceSpans(env, from, pageLabel, links, stop, vt, rt, v0, m0, vs, rs, status)
  }

  /** The link loop ended, after some number of links. */
  ghost predicate WalkEnded(env: Env, from: Url, pageLabel: string, links: seq<Anchor>,
                            v0: seq<Url>, m0: nat, vs: seq<Url>, rs: seq<PageResult>, status: Status)
  {
    exists stop, vt, rt :: WalkRecord(env, from, pageLabel, links, stop, vt, rt, v0, m0, vs, rs, status)
  }

  /** The results r0 from before the page are kept, and the page's own
      result comes first among the new results rs[|r0|..], when some keyword
      has an entry, with the page's entries. */
  ghost predicate OwnFirst(env: Env, url: Url, pageLabel: string, nodes: seq<string>,
                           r0: seq<PageResult>, k0: seq<Hash>, rs: seq<PageResult>)
  {
    var own := if EntryKeywords(nodes, env.keywords, k0, env.digest) == [] then 0 else 1;
    && IsPrefix(r0, rs) && |r0| + own <= |rs|
    && (own == 1 ==>
          && rs[|r0|].kind == HtmlPage && rs[|r0|].group == env.group
          && rs[|r0|].url == url && rs[|r0|].pageLabel == pageLabel
          && PageEntries(rs[|r0|].matches, nodes, env.keywords, k0, env.digest))
  }

  /** An HTML page whose scan succeeded: its own result first; at level 1
      nothing follows it, at level 0 the link loop's results do. */
  ghost predicate HtmlOutcome(env: Env, url: Url, pageLabel: string, level: nat, nodes: seq<string>, anchors: seq<Anchor>,
                              v0: seq<Url>, r0: seq<PageResult>, k0: seq<Hash>, vs: seq<Url>, rs: seq<PageResult>, status: Status)
  {
    var own := if EntryKeywords(nodes, env.keywords, k0, env.digest) == [] then 0 else 1;
    && OwnFirst(env, url, pageLabel, nodes, r0, k0, rs)
    && (level == 1 ==> status == Done && vs == v0 && |rs| == |r0| + own)
    && (level == 0 ==> WalkEnded(env, url, pageLabel, LinksOf(anchors), v0, |r0| + own, vs, rs, status))
  }

  /** What a PDF page at `url` yields, given the hash list k0: one result
      with the `match_texts` entries of its paragraphs, if there are any. */
  function PdfResult(env: Env, url: Url, pageLabel: string, k0: seq<Hash>): seq<PageResult>
  {
    match Fetch(env, url)
    case Pdf(content) =>
      var ms := MatchTextsSpec(Split(content, "\n\n"), env.keywords, k0, env.digest);
      if ms == [] then [] else [PageResult(PdfPage, env.group, url, pageLabel, ms)]
    case _ => []
  }

  /** What crawling the recorded page `url` does by itself, by what fetching
      it gives: the crawled URLs go from v0 to vs and the results from r0 to
      rs, with the hash list k0 at the start. An HTML page at level 0 goes
      on with its links, which VisitOutcome adds; at level 1 this is all. */
  ghost predicate PageOutcome(env: Env, url: Url, pageLabel: string, level: nat,
                              v0: seq<Url>, r0: seq<PageResult>, k0: seq<Hash>, vs: seq<Url>, rs: seq<PageResult>, status: Status)
  {
    match Fetch(env, url)
    case Unreachable => status == FetchFailure(level, url) && vs == v0 && rs == r0
    case Unsupported => status == FetchFailure(level, url) && vs == v0 && rs == r0
    case TextUnreachable =>
      && status == (if env.mode.Invalid? then Raised(InvalidType(env.mode.name)) else FetchFailure(level, url))
      && vs == v0 && rs == r0
    case Pdf(_) => status == Done && vs == v0 && rs == r0 + PdfResult(env, url, pageLabel, k0)
    case Html(nodes, anchors) =>
      if env.mode.Invalid? then status == Raised(InvalidType(env.mode.name)) && vs == v0 && rs == r0
      else if !PageScanOk(nodes, env.keywords, k0, env.digest) then status == Raised(NoMatchObject(url)) && vs == v0 && rs == r0
      else
        var own := if EntryKeywords(nodes, env.keywords, k0, env.digest) == [] then 0 else 1;
        && OwnFirst(env, url, pageLabel, nodes, r0, k0, rs)
        && (level == 1 ==> status == Done && vs == v0 && |rs| == |r0| + own)
  }

  /** What crawling the recorded page `url` does: PageOutcome, and for an
      HTML page at level 0 whose scan succeeded, the link loop after its own
      result. */
  ghost predicate VisitOutcome(env: Env, url: Url, pageLabel: string, level: nat,
                               v0: seq<Url>, r0: seq<PageResult>, k0: seq<Hash>, vs: seq<Url>, rs: seq<PageResult>, status: Status)
  {
    && PageOutcome(env, url, pageLabel, level, v0, r0, k0, vs, rs, status)
    && match Fetch(env, url)
       case Html(nodes, anchors) =>
         level == 0 && !env.mode.Invalid? && PageScanOk(nodes, env.keywords, k0, env.digest) ==>
           HtmlOutcome(env, url, pageLabel, level, nodes, anchors, v0, r0, k0, vs, rs, status)
       case _ => true
  }

  /** A crawled page at level 1 (a leaf) yields at most its own result, and
      raises only before yielding it, with its own URL. */
  ghost predicate LeafOutcome(env: Env, url: Url, pageLabel: string, r0: seq<PageResult>, rs: seq<PageResult>, status: Status)
  {
    && |r0| <= |rs| <= |r0| + 1
    && (|rs| == |r0| + 1 ==>
          && rs[|r0|].url == url && rs[|r0|].pageLabel == pageLabel
          && rs[|r0|].group == env.group && KindFits(env, rs[|r0|]))
    && (status.Raised? ==> |rs| == |r0| && (status.error.NoMatchObject? ==> status.error.url == url))
  }

  /** Why an exception was raised, given the hash list `known` at that time:
      a start page that cannot be fetched, an unknown fetch mode, or an HTML
      page whose scan loses a match. */
  ghost predicate RaiseExplained(env: Env, status: Status, known: seq<Hash>)
  {
    status.Raised? ==>
      match status.error
      case FetchFailed(u) =>
        Fetch(env, u).Unreachable? || Fetch(env, u).Unsupported? || (Fetch(env, u).TextUnreachable? && !env.mode.Invalid?)
      case InvalidType(n) => env.mode.Invalid? && n == env.mode.name
      case NoMatchObject(u) => Fetch(env, u).Html? && !PageScanOk(Fetch(env, u).nodes, env.keywords, known, env.digest)
  }

  /** The scan's entries `scan`, yielded as the page's result when there are
      any (taking the results from r0 to r1), come first in rs. */
  lemma OwnFirstIntro(env: Env, url: Url, pageLabel: string, nodes: seq<string>, r0: seq<PageResult>, k0: seq<Hash>,
                      scan: seq<Match>, r1: seq<PageResult>, rs: seq<PageResult>)
    requires PageEntries(scan, nodes, env.keywords, k0, env.digest)
    requires scan == [] <==> EntryKeywords(nodes, env.keywords, k0, env.digest) == []
    requires r1 == r0 + (if scan == [] then [] else [PageResult(HtmlPage, env.group, url, pageLabel, scan)])
    requires IsPrefix(r1, rs)
    ensures OwnFirst(env, url, pageLabel, nodes, r0, k0, rs)
    ensures |r1| == |r0| + if EntryKeywords(nodes, env.keywords, k0, env.digest) == [] then 0 else 1
  {
    assert r1[..|r0|] == r0;
    PrefixTrans(r0, r1, rs);
    if scan != [] {
      assert rs[|r0|] == r1[|r0|] == PageResult(HtmlPage, env.group, url, pageLabel, scan);
    }
  }

  /** An HTML page's outcome, from its own result and its link loop (which
      takes the results from r1 to rs). */
  lemma HtmlVisited(env: Env, url: Url, pageLabel: string, level: nat, nodes: seq<string>, anchors: seq<Anchor>,
                    v0: seq<Url>, r0: seq<PageResult>, k0: seq<Hash>, r1: seq<PageResult>,
                    vs: seq<Url>, rs: seq<PageResult>, status: Status)
    requires level < 2 && Fetch(env, url).Html?
    requires OwnFirst(env, url, pageLabel, nodes, r0, k0, rs)
    requires |r1| == |r0| + if EntryKeywords(nodes, env.keywords, k0, env.digest) == [] then 0 else 1
    requires level == 1 ==> status == Done && vs == v0 && rs == r1
    requires level == 0 ==> WalkEnded(env, url, pageLabel, LinksOf(anchors), v0, |r1|, vs, rs, status)
    ensures HtmlOutcome(env, url, pageLabel, level, nodes, anchors, v0, r0, k0, vs, rs, status)
    ensures level == 1 ==> LeafOutcome(env, url, pageLabel, r0, rs, status)
  {
  }

  /** The link loop ends after its last link. */
  lemma WalkDone(env: Env, from: Url, pageLabel: string, links: seq<Anchor>,
                 v0: seq<Url>, m0: nat, vs: seq<Url>, rs: seq<PageResult>)
    requires WalkedTo(env, from, pageLabel, links, |links|, v0, m0, vs, rs)
    ensures WalkStopped(env, from, pageLabel, links, |links|, v0, m0, vs, rs, Done)
  {
  }

  /** The link loop ends at the link at position i, whose target raised. */
  lemma WalkRaised(env: Env, from: Url, pageLabel: string, links: seq<Anchor>, i: nat,
                   v0: seq<Url>, m0: nat, vs: seq<Url>, rs: seq<PageResult>, status: Status)
    requires i < |links|
    requires WalkedTo(env, from, pageLabel, links, i + 1, v0, m0, vs, rs)
    requires status.Raised?
    requires |v0| < |vs|
    requires LinkTo(env, from, links[i], vs[|vs| - 1])
    requires status.error.NoMatchObject? ==> status.error.url == vs[|vs| - 1]
    ensures WalkStopped(env, from, pageLabel, links, i + 1, v0, m0, vs, rs, status)
  {
  }

  /** A walk that stopped somewhere has ended. */
  lemma WalkEndedIntro(env: Env, from: Url, pageLabel: string, links: seq<Anchor>, stop: nat,
                       vt: seq<seq<Url>>, rt: seq<seq<PageResult>>,
                       v0: seq<Url>, m0: nat, vs: seq<Url>, rs: seq<PageResult>, status: Status)
    requires WalkStopped(env, from, pageLabel, links, stop, v0, m0, vs, rs, status)
    requires TraceSpans(env, from, pageLabel, links, stop, vt, rt, v0, m0, vs, rs, status)
    ensures WalkEnded(env, from, pageLabel, links, v0, m0, vs, rs, status)
  {
    assert WalkRecord(env, from, pageLabel, links, stop, vt, rt, v0, m0, vs, rs, status);
  }

  /** One more link crawled as LinkFollowed says extends the trace. */
  lemma TraceStep(env: Env, from: Url, pageLabel: string, links: seq<Anchor>, n: nat,
                  vt: seq<seq<Url>>, rt: seq<seq<PageResult>>, vb: seq<Url>, rb: seq<PageResult>, st: Status)
    requires n < |links| && Traced(env, from, pageLabel, links, n, vt, rt, Done)
    requires LinkFollowed(env, from, pageLabel, links[n], vt[n], rt[n], vb, rb, st)
    ensures Traced(env, from, pageLabel, links, n + 1, vt + [vb], rt + [rb], st)
  {
    var vt', rt' := vt + [vb], rt + [rb];
    forall q | 0 <= q < n + 1
      ensures LinkFollowed(env, from, pageLabel, links[q], vt'[q], rt'[q], vt'[q + 1], rt'[q + 1], if q + 1 == n + 1 then st else Done)
    {
      if q < n {
        assert vt'[q] == vt[q] && vt'[q + 1] == vt[q + 1] && rt'[q] == rt[q] && rt'[q + 1] == rt[q + 1];
      }
    }
  }

  /** One more link crawled as LinkFollowed says extends a trace that spans
      the crawl from v0 and the first m0 results r0 to va and ra. */
  lemma SpansStep(env: Env, from: Url, pageLabel: string, links: seq<Anchor>, n: nat,
                  vt: seq<seq<Url>>, rt: seq<seq<PageResult>>, v0: seq<Url>, r0: seq<PageResult>,
                  va: seq<Url>, ra: seq<PageResult>, vb: seq<Url>, rb: seq<PageResult>, st: Status)
    requires n < |links| && TraceSpans(env, from, pageLabel, links, n, vt, rt, v0, |r0|, va, ra, Done)
    requires IsPrefix(r0, ra) && IsPrefix(r0, rb)
    requires LinkFollowed(env, from, pageLabel, links[n], va, ra, vb, rb, st)
    ensures TraceSpans(env, from, pageLabel, links, n + 1, vt + [vb], rt + [rb], v0, |r0|, vb, rb, st)
  {
    TraceStep(env, from, pageLabel, links, n, vt, rt, vb, rb, st);
  }

  /** One step of the link loop keeps its invariant. */
  lemma WalkStep(env: Env, from: Url, pageLabel: string, links: seq<Anchor>, n: nat, v0: seq<Url>, m0: nat,
                 va: seq<Url>, ra: seq<PageResult>, vb: seq<Url>, rb: seq<PageResult>)
    requires n < |links|
    requires WalkedTo(env, from, pageLabel, links, n, v0, m0, va, ra)
    requires LinkStep(env, from, pageLabel, links[n], va, ra, vb, rb)
    ensures WalkedTo(env, from, pageLabel, links, n + 1, v0, m0, vb, rb)
  {
    var a := links[n];
    var t := env.resolve(from, a.href);
    forall v | v in vb[|v0|..]
      ensures exists q | 0 <= q < n + 1 && q < |links| :: LinkTo(env, from, links[q], v)
    {
      if v in va[|v0|..] {
        var q :| 0 <= q < n && q < |links| && LinkTo(env, from, links[q], v);
      } else {
        assert vb != va;
        assert vb[|v0|..] == va[|v0|..] + [t];
        assert LinkTo(env, from, links[n], v);
      }
    }
    forall j | m0 <= j < |rb|
      ensures ChildResult(env, from, pageLabel, links, n + 1, rb[j])
    {
      if j < |ra| {
        assert rb[j] == ra[j];
        var q :| 0 <= q < n && FirstLinkTo(env, from, links, q, ra[j].url) && ra[j].pageLabel == ChildLabel(links[q], pageLabel);
      } else {
        assert !(Skipped(a.href) || t == [] || t in va);
        forall p | 0 <= p < n
          ensures !LinkTo(env, from, links[p], t)
        {
        }
        assert FirstLinkTo(env, from, links, n, rb[j].url);
      }
    }
  }

  /** The link targets, in link order. */
  function Targets(env: Env, from: Url, links: seq<Anchor>): (ts: seq<Url>)
    ensures |ts| == |links|
    ensures forall q | 0 <= q < |links| :: ts[q] == env.resolve(from, links[q].href)
  {
    seq(|links|, q requires 0 <= q < |links| => env.resolve(from, links[q].href))
  }

  /** A walk crawls no more new URLs than there are links: the new URLs are
      distinct link targets. */
  lemma WalkedBound(env: Env, from: Url, pageLabel: string, links: seq<Anchor>, n: nat,
                    v0: seq<Url>, m0: nat, vs: seq<Url>, rs: seq<PageResult>)
    requires WalkedTo(env, from, pageLabel, links, n, v0, m0, vs, rs) && NoDup(vs)
    ensures |vs| <= |v0| + |links|
  {
    var added, ts := vs[|v0|..], Targets(env, from, links);
    assert NoDup(added) by {
      forall i, j | 0 <= i < j < |added|
        ensures added[i] != added[j]
      {
        assert added[i] == vs[|v0| + i] && added[j] == vs[|v0| + j];
      }
    }
    forall v | v in ToSet(added)
      ensures v in ToSet(ts)
    {
      var q :| 0 <= q < n && q < |links| && LinkTo(env, from, links[q], v);
      assert ts[q] == v;
    }
    NoDupSubsetLength(added, ts);
  }

  /** A link loop that ended without an exception walked every link. */
  lemma WalkEndedDone(env: Env, from: Url, pageLabel: string, links: seq<Anchor>,
                      v0: seq<Url>, m0: nat, vs: seq<Url>, rs: seq<PageResult>)
    requires WalkEnded(env, from, pageLabel, links, v0, m0, vs, rs, Done)
    ensures WalkedTo(env, from, pageLabel, links, |links|, v0, m0, vs, rs)
  {
    var stop, vt, rt :| WalkRecord(env, from, pageLabel, links, stop, vt, rt, v0, m0, vs, rs, Done);
  }

  /** A start page whose crawl completed had every one of its first 500
      links followed: each link that is not skipped and resolves to a
      non-empty URL was crawled, and every other crawled URL is the target of
      one of those links. */
  lemma CompletedCrawlFollowsLinks(env: Env, url: Url, pageLabel: string, nodes: seq<string>, anchors: seq<Anchor>,
                                   k0: seq<Hash>, vs: seq<Url>, rs: seq<PageResult>)
    requires Fetch(env, url) == Html(nodes, anchors) && !env.mode.Invalid?
    requires PageScanOk(nodes, env.keywords, k0, env.digest)
    requires VisitOutcome(env, url, pageLabel, 0, [url], [], k0, vs, rs, Done)
    ensures forall q | 0 <= q < |anchors| && q < 500 && !Skipped(anchors[q].href) && env.resolve(url, anchors[q].href) != [] ::
      env.resolve(url, anchors[q].href) in vs
    ensures forall i | 1 <= i < |vs| :: LinkedFrom(env, url, anchors, vs[i])
  {
    var m0 := if EntryKeywords(nodes, env.keywords, k0, env.digest) == [] then 0 else 1;
    assert WalkEnded(env, url, pageLabel, LinksOf(anchors), [url], m0, vs, rs, Done);
    WalkEndedDone(env, url, pageLabel, LinksOf(anchors), [url], m0, vs, rs);
    AnchorsWalked(env, url, pageLabel, anchors, m0, vs, rs);
  }

  /** The link facts of a full walk of the first 500 anchors, stated on the
      anchors themselves. */
  lemma AnchorsWalked(env: Env, url: Url, pageLabel: string, anchors: seq<Anchor>, m0: nat, vs: seq<Url>, rs: seq<PageResult>)
    requires WalkedTo(env, url, pageLabel, LinksOf(anchors), |LinksOf(anchors)|, [url], m0, vs, rs)
    ensures forall q | 0 <= q < |anchors| && q < 500 && !Skipped(anchors[q].href) && env.resolve(url, anchors[q].href) != [] ::
      env.resolve(url, anchors[q].href) in vs
    ensures forall i | 1 <= i < |vs| :: LinkedFrom(env, url, anchors, vs[i])
  {
    var links := LinksOf(anchors);
    forall q | 0 <= q < |anchors| && q < 500 && !Skipped(anchors[q].href) && env.resolve(url, anchors[q].href) != []
      ensures env.resolve(url, anchors[q].href) in vs
    {
      assert anchors[q] == links[q];
    }
    forall i | 1 <= i < |vs|
      ensures LinkedFrom(env, url, anchors, vs[i])
    {
      assert vs[i] in vs[1..];
      var q :| 0 <= q < |links| && LinkTo(env, url, links[q], vs[i]);
      assert anchors[q] == links[q];
    }
  }

  /** Some link among the first 500 anchors of the page at from leads to v. */
  ghost predicate LinkedFrom(env: Env, from: Url, anchors: seq<Anchor>, v: Url)
  {
    exists q | 0 <= q < |anchors| && q < 500 :: LinkTo(env, from, anchors[q], v)
  }

  /** A two-page network: the start page "u" has no text and one link, to
      the PDF "u2". */
  function TwoPages(digest: string -> Hash): Env
  {
    Env(map["u" := Html([], [Anchor("x", None)]), "u2" := Pdf("foo")], ["foo"], Static, "g", digest,
        (from: Url, href: string) => if href == "x" then "u2" else [], [])
  }

  /** Crawling the start page of TwoPages crawls the linked PDF at level 1,
      labelled with the start page's label, and yields exactly what the PDF
      yields, against the empty hash list. */
  lemma TwoPagesCrawl(digest: string -> Hash, vs: seq<Url>, rs: seq<PageResult>, status: Status)
    requires VisitOutcome(TwoPages(digest), "u", "L", 0, ["u"], [], [], vs, rs, status)
    ensures status == Done && vs == ["u", "u2"] && rs == PdfResult(TwoPages(digest), "u2", "L", [])
  {
    var env := TwoPages(digest);
    var a := Anchor("x", None);
    assert Fetch(env, "u") == Html([], [a]);
    assert EntryKeywords([], env.keywords, [], digest) == [];
    assert LinksOf([a]) == [a];
    assert WalkEnded(env, "u", "L", [a], ["u"], 0, vs, rs, status);
    var stop, vt, rt :| WalkRecord(env, "u", "L", [a], stop, vt, rt, ["u"], 0, vs, rs, status);
    assert WalkStopped(env, "u", "L", [a], stop, ["u"], 0, vs, rs, status);
    assert stop == 1;
    assert TraceSpans(env, "u", "L", [a], 1, vt, rt, ["u"], 0, vs, rs, status);
    assert Traced(env, "u", "L", [a], 1, vt, rt, status);
    assert LinkFollowed(env, "u", "L", a, vt[0], rt[0], vt[1], rt[1], status);
    assert "x"[..1] == "x";
    assert env.resolve("u", "x") == "u2" && !Skipped("x");
    assert ChildLabel(a, "L") == "L";
    assert vt[0] == ["u"] && rt[0] == [] && vt[1] == vs && rt[1] == rs;
    assert ["u"] + ["u2"] == ["u", "u2"] && env.loaded + ResultHashes([]) == [];
    assert VisitOutcome(env, "u2", "L", 1, ["u", "u2"], [], [], vs, rs, status);
  }

  /** A three-page network: the start page "u" has no text and two links,
      first to the PDF "p", then to the HTML page "h", which has no text. */
  function ThreePages(digest: string -> Hash): Env
  {
    Env(map["u" := Html([], [Anchor("p", None), Anchor("h", None)]), "p" := Pdf("foo"), "h" := Html([], [])],
        ["foo"], Static, "g", digest, (from: Url, href: string) => href, [])
  }

  /** Crawling the start page of ThreePages crawls both linked pages in link
      order, and the HTML page crawled after the PDF keeps the PDF's result:
      the results are exactly what the PDF yields. */
  lemma ThreePagesCrawl(digest: string -> Hash, vs: seq<Url>, rs: seq<PageResult>, status: Status)
    requires VisitOutcome(ThreePages(digest), "u", "L", 0, ["u"], [], [], vs, rs, status)
    ensures status == Done && vs == ["u", "p", "h"] && rs == PdfResult(ThreePages(digest), "p", "L", [])
  {
    var env := ThreePages(digest);
    var links := [Anchor("p", None), Anchor("h", None)];
    assert Fetch(env, "u") == Html([], links);
    assert EntryKeywords([], env.keywords, [], digest) == [];
    assert LinksOf(links) == links;
    assert WalkEnded(env, "u", "L", links, ["u"], 0, vs, rs, status);
    var stop, vt, rt :| WalkRecord(env, "u", "L", links, stop, vt, rt, ["u"], 0, vs, rs, status);
    assert WalkStopped(env, "u", "L", links, stop, ["u"], 0, vs, rs, status);
    assert TraceSpans(env, "u", "L", links, stop, vt, rt, ["u"], 0, vs, rs, status);
    assert Traced(env, "u", "L", links, stop, vt, rt, status);
    assert 0 < stop && vt[0] == ["u"] && rt[0] == [];
    // the PDF link completes, so the walk goes on to the second link
    var s0 := if stop == 1 then status else Done;
    assert LinkFollowed(env, "u", "L", links[0], vt[0], rt[0], vt[1], rt[1], s0);
    PdfLinkOfThree(digest, vt[1], rt[1], s0);
    assert stop == 2;
    assert LinkFollowed(env, "u", "L", links[1], vt[1], rt[1], vt[2], rt[2], status);
    HtmlLinkOfThree(digest, rt[1], vt[2], rt[2], status);
  }

  /** The first link of ThreePages crawls the PDF, which yields its result. */
  lemma PdfLinkOfThree(digest: string -> Hash, vb: seq<Url>, rb: seq<PageResult>, st: Status)
    requires LinkFollowed(ThreePages(digest), "u", "L", Anchor("p", None), ["u"], [], vb, rb, st)
    ensures st == Done && vb == ["u", "p"] && rb == PdfResult(ThreePages(digest), "p", "L", [])
  {
    var env := ThreePages(digest);
    assert "p"[..1] == "p" && !Skipped("p") && env.resolve("u", "p") == "p";
    assert ["u"] + ["p"] == ["u", "p"] && env.loaded + ResultHashes([]) == [];
    assert PageOutcome(env, "p", "L", 1, ["u", "p"], [], [], vb, rb, st);
  }

  /** The second link of ThreePages crawls the HTML page "h", which has no
      text: it yields nothing and keeps the results ra. */
  lemma HtmlLinkOfThree(digest: string -> Hash, ra: seq<PageResult>, vb: seq<Url>, rb: seq<PageResult>, st: Status)
    requires LinkFollowed(ThreePages(digest), "u", "L", Anchor("h", None), ["u", "p"], ra, vb, rb, st)
    ensures st == Done && vb == ["u", "p", "h"] && rb == ra
  {
    var env := ThreePages(digest);
    var k := env.loaded + ResultHashes(ra);
    assert "h"[..1] == "h" && !Skipped("h") && env.resolve("u", "h") == "h";
    assert ["u", "p"] + ["h"] == ["u", "p", "h"];
    assert PageOutcome(env, "h", "L", 1, ["u", "p", "h"], ra, k, vb, rb, st);
    assert Fetch(env, "h") == Html([], []);
    assert Accepted([], "foo", k, digest) == [];
    assert PageScanOk([], env.keywords, k, digest) && EntryKeywords([], env.keywords, k, digest) == [];
    assert OwnFirst(env, "h", "L", [], ra, k, rb);
    assert rb[..|ra|] == ra;
  }

  /** None of the digests hs is in the list known. */
  predicate Fresh(hs: seq<Hash>, known: seq<Hash>)
  {
    forall h | h in hs :: h !in known
  }

  /** The crawl's invariant on its state: no URL is crawled twice, every
      result belongs to a crawled URL, no two results share a URL, every
      result has matches, no result repeats a loaded digest or a digest of
      another result, and the hash list is the loaded one extended by the
      digests of the results. */
  ghost predicate CrawlState(visited: seq<Url>, results: seq<PageResult>, known: seq<Hash>, loaded: seq<Hash>)
  {
    && NoDup(visited)
    && (forall i | 0 <= i < |results| :: results[i].url in visited && results[i].matches != [])
    && (forall i, j | 0 <= i < j < |results| :: results[i].url != results[j].url)
    && (forall j | 0 <= j < |results| :: Fresh(ResultDigests(results[j]), loaded))
    && (forall i, j | 0 <= i < j < |results| :: Fresh(ResultDigests(results[j]), ResultDigests(results[i])))
    && known == loaded + ResultHashes(results)
  }

  /** Recording a new URL keeps the invariant. */
  lemma RecordKeeps(visited: seq<Url>, results: seq<PageResult>, known: seq<Hash>, loaded: seq<Hash>, url: Url)
    requires CrawlState(visited, results, known, loaded) && url !in visited
    ensures CrawlState(visited + [url], results, known, loaded)
    ensures forall i | 0 <= i < |results| :: results[i].url != url
  {
    forall i | 0 <= i < |results|
      ensures results[i].url in visited + [url]
    {
    }
  }

  /** Consuming a result for a crawled URL without one, whose digests are not
      in the hash list, keeps the invariant. */
  lemma EmitKeeps(visited: seq<Url>, results: seq<PageResult>, known: seq<Hash>, loaded: seq<Hash>, r: PageResult)
    requires CrawlState(visited, results, known, loaded)
    requires r.url in visited && r.matches != [] && Fresh(ResultDigests(r), known)
    requires forall i | 0 <= i < |results| :: results[i].url != r.url
    ensures CrawlState(visited, results + [r], known + ResultDigests(r), loaded)
  {
    calc {
      loaded + ResultHashes(results + [r]);
      { FlatMapAppend(results, [r], ResultDigests); }
      loaded + (ResultHashes(results) + FlatMap([r], ResultDigests));
      { assert [r][..0] == []; }
      loaded + (ResultHashes(results) + ResultDigests(r));
      (loaded + ResultHashes(results)) + ResultDigests(r);
    }
    var rs := results + [r];
    forall i, j | 0 <= i < j < |rs|
      ensures rs[i].url != rs[j].url
    {
      if j == |results| {
        assert rs[j] == r;
      }
    }
    forall i | 0 <= i < |results|
      ensures Fresh(ResultDigests(r), ResultDigests(results[i]))
    {
      forall h | h in ResultDigests(results[i])
        ensures h in known
      {
        FlatMapHas(results, ResultDigests, i, h);
      }
    }
  }

  /** No digest belongs to two results. */
  ghost predicate DigestsDisjoint(rs: seq<PageResult>)
  {
    forall i, j, h | 0 <= i < |rs| && 0 <= j < |rs| && i != j && h in ResultDigests(rs[i]) :: h !in ResultDigests(rs[j])
  }

  /** A digest is reported at most once: the digests of the results are new
      to the loaded ledger and pairwise disjoint. */
  lemma CrawlReportsOnce(visited: seq<Url>, results: seq<PageResult>, known: seq<Hash>, loaded: seq<Hash>)
    requires CrawlState(visited, results, known, loaded)
    ensures Fresh(ResultHashes(results), loaded)
    ensures DigestsDisjoint(results)
  {
    forall h | h in ResultHashes(results)
      ensures h !in loaded
    {
      FlatMapMember(results, ResultDigests, h);
    }
  }

  class Crawler {
    const web: map<Url, Page>
    const keywords: seq<string>
    const mode: FetchMode
    const group: string
    const digest: string -> Hash
    const resolve: (Url, string) -> Url
    /** The hashes loaded from the old ledger. */
    const loaded: seq<Hash>

    /** `all_urls`: every URL whose crawl started, in order. */
    var visited: seq<Url>
    /** `hashes`: the loaded hashes followed by the digests of every result. */
    var known: seq<Hash>
    /** The results consumed so far (written to the output file). */
    var results: seq<PageResult>

    ghost predicate Valid()
      reads this
    {
      CrawlState(visited, results, known, loaded)
    }

    /** The crawl's fixed arguments. */
    function Setup(): Env
    {
      Env(web, keywords, mode, group, digest, resolve, loaded)
    }

    constructor(web: map<Url, Page>, keywords: seq<string>, mode: FetchMode, group: string,
                digest: string -> Hash, resolve: (Url, string) -> Url, loaded: seq<Hash>)
      ensures Valid()
      ensures this.web == web && this.keywords == keywords && this.mode == mode && this.group == group
      ensures this.digest == digest && this.resolve == resolve && this.loaded == loaded
      ensures visited == [] && known == loaded && results == []
    {
      this.web := web;
      this.keywords := keywords;
      this.mode := mode;
      this.group := group;
      this.digest := digest;
      this.resolve := resolve;
      this.loaded := loaded;
      visited := [];
      known := loaded;
      results := [];
    }

    /** No result belongs to `url` yet. */
    ghost predicate Unreported(url: Url)
      reads this
    {
      forall i | 0 <= i < |results| :: results[i].url != url
    }

    /** The consumer's step for one yielded result: write it and extend the
        hash list with its digests. */
    method Emit(r: PageResult)
      requires Valid() && r.url in visited && r.matches != [] && Unreported(r.url)
      requires Fresh(ResultDigests(r), known)
      modifies this
      ensures Valid()
      ensures results == old(results) + [r]
      ensures known == old(known) + MatchHashes(r.matches)
      ensures visited == old(visited)
    {
      EmitKeeps(visited, results, known, loaded, r);
      results := results + [r];
      known := known + ResultDigests(r);
    }

    /** `crawl_urls(url, label, ..., level, ...)`, with its results consumed
        as they are yielded. */
    method Crawl(url: Url, pageLabel: string, level: nat) returns (status: Status)
      requires Valid()
      modifies this
      decreases if level < 2 then 2 - level else 0, 4
      ensures Valid()
      ensures IsPrefix(old(visited), visited) && IsPrefix(old(results), results)
      ensures |visited| <= |old(visited)| + MaxVisits(level)
      // nothing happens for a too deep level, an empty URL or a known URL
      ensures level >= 2 || url == [] || url in old(visited) ==>
        status == Done && visited == old(visited) && results == old(results) && known == old(known)
      // otherwise the URL is recorded before anything else, then the page
      // is crawled
      ensures !(level >= 2 || url == [] || url in old(visited)) ==>
        && |visited| > |old(visited)| && visited[|old(visited)|] == url
        && VisitOutcome(Setup(), url, pageLabel, level, old(visited) + [url], old(results), old(known), visited, results, status)
      ensures level == 1 && url != [] && url !in old(visited) ==>
        visited == old(visited) + [url] && LeafOutcome(Setup(), url, pageLabel, old(results), results, status)
      ensures RaiseExplained(Setup(), status, known)
      // a failed fetch ends the run only on the start page
      ensures status.Raised? && status.error.FetchFailed? ==>
        level == 0 && status.error.url == url && results == old(results)
    {
      if level >= 2 || url == [] {
        return Done;
      }
      if url in visited {
        return Done;
      }
      ghost var v0 := visited;
      RecordKeeps(visited, results, known, loaded, url);
      visited := visited + [url];
      assert visited[..|v0|] == v0;
      ghost var v1 := visited;
      status := Visit(url, pageLabel, level);
      PrefixTrans(v0, v1, visited);
      assert visited[|v0|] == v1[|v0|];
    }

    /** The body of `crawl_urls` once `url` is recorded: the fetch, its error
        handling, and the PDF or HTML page. */
    method Visit(url: Url, pageLabel: string, level: nat) returns (status: Status)
      requires Valid() && level < 2 && url in visited && Unreported(url)
      modifies this
      decreases 2 - level, 3
      ensures Valid()
      ensures IsPrefix(old(visited), visited) && IsPrefix(old(results), results)
      ensures |visited| <= |old(visited)| + 500 * MaxVisits(level + 1)
      ensures VisitOutcome(Setup(), url, pageLabel, level, old(visited), old(results), old(known), visited, results, status)
      ensures level == 1 ==> visited == old(visited) && LeafOutcome(Setup(), url, pageLabel, old(results), results, status)
      ensures RaiseExplained(Setup(), status, known)
      ensures status.Raised? && status.error.FetchFailed? ==>
        level == 0 && status.error.url == url && results == old(results)
    {
      var page := Fetch(Setup(), url);
      match page {
        case Unreachable =>
          status := FetchFailure(level, url);
        case Unsupported =>
          status := FetchFailure(level, url);
        case TextUnreachable =>
          if mode.Invalid? {
            return Raised(InvalidType(mode.name));
          }
          status := FetchFailure(level, url);
        case Pdf(content) =>
          VisitPdf(url, pageLabel, content);
          status := Done;
        case Html(nodes, anchors) =>
          if mode.Invalid? {
            return Raised(InvalidType(mode.name));
          }
          status := VisitHtml(url, pageLabel, level, nodes, anchors);
      }
    }

    /** A PDF page: its text split into paragraphs, matched by `match_texts`,
        and yielded when there are matches. */
    method VisitPdf(url: Url, pageLabel: string, content: string)
      requires Valid() && url in visited && Unreported(url)
      modifies this
      ensures Valid()
      ensures var ms := MatchTextsSpec(Split(content, "\n\n"), keywords, old(known), digest);
        && visited == old(visited)
        && results == old(results) + (if ms == [] then [] else [PageResult(PdfPage, group, url, pageLabel, ms)])
    {
      var texts := Split(content, "\n\n");
      var matches := MatchTexts(texts, keywords, known, digest);
      if matches != [] {
        MatchTextsNovel(texts, keywords, known, digest);
        Emit(PageResult(PdfPage, group, url, pageLabel, matches));
      }
    }

    /** An HTML page: the per-keyword scan and the page's result (see
        ScanHtml), then its links. */
    method VisitHtml(url: Url, pageLabel: string, level: nat, nodes: seq<string>, anchors: seq<Anchor>)
      returns (status: Status)
      requires Valid() && level < 2 && url in visited && Unreported(url)
      requires Fetch(Setup(), url) == Html(nodes, anchors) && !mode.Invalid?
      modifies this
      decreases 2 - level, 2
      ensures Valid()
      ensures IsPrefix(old(visited), visited) && IsPrefix(old(results), results)
      ensures |visited| <= |old(visited)| + 500 * MaxVisits(level + 1)
      ensures !PageScanOk(nodes, keywords, old(known), digest) ==>
        status == Raised(NoMatchObject(url)) && visited == old(visited) && results == old(results)
      ensures PageScanOk(nodes, keywords, old(known), digest) ==>
        HtmlOutcome(Setup(), url, pageLabel, level, nodes, anchors, old(visited), old(results), old(known), visited, results, status)
      ensures level == 1 ==> visited == old(visited) && LeafOutcome(Setup(), url, pageLabel, old(results), results, status)
      ensures RaiseExplained(Setup(), status, known)
      ensures status.Raised? ==> !status.error.FetchFailed?
    {
      ghost var r0 := results;
      var scan := ScanHtml(url, pageLabel, nodes);
      if scan.None? {
        assert Fetch(Setup(), url).nodes == nodes;
        return Raised(NoMatchObject(url));
      }
      ghost var r1 := results;
      assert r1[..|r0|] == r0;
      ghost var stop, vt, rt;
      status, stop, vt, rt := FollowLinks(url, pageLabel, level, anchors);
      // a linked page at level 1 is a leaf; nothing is visited at level 2
      assert MaxVisits(2) == 0 && MaxVisits(1) == 1;
      PrefixTrans(r0, r1, results);
      OwnFirstIntro(Setup(), url, pageLabel, nodes, r0, old(known), scan.value, r1, results);
      if level == 0 {
        WalkEndedIntro(Setup(), url, pageLabel, LinksOf(anchors), stop, vt, rt, old(visited), |r1|, visited, results, status);
      }
      HtmlVisited(Setup(), url, pageLabel, level, nodes, anchors, old(visited), r0, old(known), r1, visited, results, status);
    }

    /** The per-keyword scan of an HTML page and its result, yielded when
        some keyword has an entry. */
    method ScanHtml(url: Url, pageLabel: string, nodes: seq<string>) returns (scan: Option<seq<Match>>)
      requires Valid() && url in visited && Unreported(url)
      modifies this
      ensures Valid() && visited == old(visited)
      ensures scan.Some? <==> PageScanOk(nodes, keywords, old(known), digest)
      ensures scan.None? ==> results == old(results)
      ensures scan.Some? ==>
        && PageEntries(scan.value, nodes, keywords, old(known), digest)
        && (scan.value == [] <==> EntryKeywords(nodes, keywords, old(known), digest) == [])
        && results == old(results) + (if scan.value == [] then [] else [PageResult(HtmlPage, group, url, pageLabel, scan.value)])
    {
      scan := MatchHtmlPage(nodes, keywords, known, digest);
      if scan.Some? && scan.value != [] {
        EntriesNovel(scan.value, EntryKeywords(nodes, keywords, known, digest), nodes, known, digest);
        Emit(PageResult(HtmlPage, group, url, pageLabel, scan.value));
      }
    }

    /** The link loop of `crawl_urls`: the first 500 links of the page, each
        not skipped crawled one level deeper; an exception of a linked page
        ends the loop and is passed on. At level 1 the linked pages are past
        the depth limit and nothing changes. The ghost vt and rt trace the
        crawled URLs and the results link by link. */
    method FollowLinks(url: Url, pageLabel: string, level: nat, anchors: seq<Anchor>)
      returns (status: Status, ghost stop: nat, ghost vt: seq<seq<Url>>, ghost rt: seq<seq<PageResult>>)
      requires Valid() && level < 2
      modifies this
      decreases 2 - level, 1
      ensures Valid()
      ensures IsPrefix(old(visited), visited) && IsPrefix(old(results), results)
      ensures level == 1 ==> status == Done && visited == old(visited) && results == old(results)
      ensures |visited| <= |old(visited)| + |LinksOf(anchors)|
      ensures level == 0 ==>
        && WalkStopped(Setup(), url, pageLabel, LinksOf(anchors), stop, old(visited), |old(results)|, visited, results, status)
        && TraceSpans(Setup(), url, pageLabel, LinksOf(anchors), stop, vt, rt, old(visited), |old(results)|, visited, results, status)
      ensures RaiseExplained(Setup(), status, known)
      ensures status.Raised? ==> !status.error.FetchFailed?
    {
      var links := LinksOf(anchors);
      ghost var env := Setup();
      ghost var v0, r0 := visited, results;
      vt, rt := [visited], [results];
      assert results[..|r0|] == r0;
      var i := 0;
      status := Done;
      while i < |links| && status == Done
        invariant 0 <= i <= |links| <= 500
        invariant Valid()
        invariant IsPrefix(v0, visited) && IsPrefix(r0, results)
        invariant level == 1 ==> status == Done && visited == v0 && results == r0
        invariant level == 0 ==> WalkedTo(env, url, pageLabel, links, i, v0, |r0|, visited, results)
        invariant level == 0 ==> TraceSpans(env, url, pageLabel, links, i, vt, rt, v0, |r0|, visited, results, status)
        invariant level == 0 && status.Raised? ==> WalkStopped(env, url, pageLabel, links, i, v0, |r0|, visited, results, status)
        invariant RaiseExplained(env, status, known)
        invariant status.Raised? ==> !status.error.FetchFailed?
      {
        status, vt, rt := FollowLink(url, pageLabel, level, links, i, v0, r0, vt, rt);
        i := i + 1;
      }
      stop := i;
      if level == 0 {
        if status == Done {
          WalkDone(env, url, pageLabel, links, v0, |r0|, visited, results);
        }
        WalkedBound(env, url, pageLabel, links, stop, v0, |r0|, visited, results);
      }
    }

    /** One turn of the link loop, at the link at position i of the links
        walked, with the crawled URLs v0 and the results r0 at the start of
        the loop: a link that is not skipped is crawled one level deeper,
        labelled by its text or else by the page's label. */
    method FollowLink(url: Url, pageLabel: string, level: nat, links: seq<Anchor>, i: nat,
                      ghost v0: seq<Url>, ghost r0: seq<PageResult>, ghost vt: seq<seq<Url>>, ghost rt: seq<seq<PageResult>>)
      returns (status: Status, ghost vt': seq<seq<Url>>, ghost rt': seq<seq<PageResult>>)
      requires Valid() && level < 2 && i < |links|
      requires IsPrefix(v0, visited) && IsPrefix(r0, results)
      requires level == 1 ==> visited == v0 && results == r0
      requires level == 0 ==> WalkedTo(Setup(), url, pageLabel, links, i, v0, |r0|, visited, results)
      requires level == 0 ==> TraceSpans(Setup(), url, pageLabel, links, i, vt, rt, v0, |r0|, visited, results, Done)
      modifies this
      decreases 2 - level, 0
      ensures Valid()
      ensures IsPrefix(v0, visited) && IsPrefix(r0, results)
      ensures level == 1 ==> status == Done && visited == v0 && results == r0
      ensures level == 0 ==> WalkedTo(Setup(), url, pageLabel, links, i + 1, v0, |r0|, visited, results)
      ensures level == 0 ==> LinkFollowed(Setup(), url, pageLabel, links[i], old(visited), old(results), visited, results, status)
      ensures level == 0 ==> TraceSpans(Setup(), url, pageLabel, links, i + 1, vt', rt', v0, |r0|, visited, results, status)
      ensures level == 0 && status.Raised? ==>
        WalkStopped(Setup(), url, pageLabel, links, i + 1, v0, |r0|, visited, results, status)
      ensures RaiseExplained(Setup(), status, known)
      ensures status.Raised? ==> !status.error.FetchFailed?
    {
      var link := links[i];
      ghost var va, ra := visited, results;
      if Skipped(link.href) {
        status := Done;
      } else {
        status := Crawl(resolve(url, link.href), ChildLabel(link, pageLabel), level + 1);
      }
      PrefixTrans(v0, va, visited);
      PrefixTrans(r0, ra, results);
      if level == 0 {
        ghost var env := Setup();
        assert LinkFollowed(env, url, pageLabel, link, va, ra, visited, results, status);
        FollowedStep(env, url, pageLabel, link, va, ra, visited, results, status);
        WalkStep(env, url, pageLabel, links, i, v0, |r0|, va, ra, visited, results);
        if status.Raised? {
          WalkRaised(env, url, pageLabel, links, i, v0, |r0|, visited, results, status);
        }
        SpansStep(env, url, pageLabel, links, i, vt, rt, v0, r0, va, ra, visited, results, status);
      }
      vt', rt' := vt + [visited], rt + [results];
    }
  }

  /** How a run of lib/website_matcher.py ends: either the crawl completes,
      with the results written, the new ledger and every crawled URL, or an
      exception ends it after the results written so far and before a new
      ledger is written. */
  datatype Outcome =
    | Completed(results: seq<PageResult>, ledger: seq<Hash>, crawled: seq<Url>)
    | Aborted(results: seq<PageResult>, error: CrawlError, crawled: seq<Url>)

  /** The crawl's status at the end of a run. */
  function EndStatus(out: Outcome): Status
  {
    if out.Completed? then Done else Raised(out.error)
  }

  /** The crawl's fixed arguments for a run of the main program. */
  function RunEnv(web: map<Url, Page>, keywordFile: string, hashFile: Option<string>, modeName: string, group: string,
                  digest: string -> Hash, resolve: (Url, string) -> Url): Env
  {
    Env(web, LoadKeywords(keywordFile), ParseMode(modeName), group, digest, resolve, LoadOldHashes(hashFile))
  }

  /** The crawl of the main program, from the start URL at level 0 with
      nothing crawled yet and the hashes loaded into env, every result
      consumed as it is yielded. */
  method CrawlSite(env: Env, url: Url, pageLabel: string)
    returns (status: Status, results: seq<PageResult>, crawled: seq<Url>)
    ensures CrawlState(crawled, results, env.loaded + ResultHashes(results), env.loaded)
    ensures |crawled| <= 501
    ensures url == [] ==> status == Done && crawled == [] && results == []
    ensures url != [] ==>
      && crawled != [] && crawled[0] == url
      && VisitOutcome(env, url, pageLabel, 0, [url], [], env.loaded, crawled, results, status)
    ensures RaiseExplained(env, status, env.loaded + ResultHashes(results))
    ensures status.Raised? && status.error.FetchFailed? ==> results == [] && status.error.url == url
  {
    var c := new Crawler(env.web, env.keywords, env.mode, env.group, env.digest, env.resolve, env.loaded);
    assert c.Setup() == env;
    assert [] + [url] == [url];
    status := c.Crawl(url, pageLabel, 0);
    results, crawled := c.results, c.visited;
    assert MaxVisits(2) == 0 && MaxVisits(1) == 1 && MaxVisits(0) == 501;
  }

  /** The end of the main program once the crawl has ended with `status`:
      an exception leaves no new ledger; otherwise the hash list, the loaded
      hashes extended by the digests of the results, is written sorted and
      without repetitions. */
  function Conclude(status: Status, results: seq<PageResult>, crawled: seq<Url>, hashes: seq<Hash>): (out: Outcome)
    ensures out.results == results && out.crawled == crawled && EndStatus(out) == status
    ensures out.Completed? ==> out.ledger == SortedUnique(hashes + ResultHashes(results))
    ensures out.Completed? ==> StrictlySorted(out.ledger)
    ensures out.Completed? ==> ToSet(out.ledger) == ToSet(hashes) + ToSet(ResultHashes(results))
    ensures results == [] && status == Done ==> out.ledger == SortedUnique(hashes)
  {
    if status.Raised? then Aborted(results, status.error, crawled)
    else
      assert ToSet(hashes + ResultHashes(results)) == ToSet(hashes) + ToSet(ResultHashes(results));
      assert results == [] ==> ResultHashes(results) == [] && hashes + ResultHashes(results) == hashes;
      Completed(results, SortedUnique(hashes + ResultHashes(results)), crawled)
  }

  /** The main program: load the keywords and the old ledger, crawl from the
      start URL at level 0 consuming every result, then write the sorted,
      duplicate-free hash list as the new ledger. */
  method RunMatcher(web: map<Url, Page>, keywordFile: string, hashFile: Option<string>, url: Url,
                    pageLabel: string, group: string, modeName: string,
                    digest: string -> Hash, resolve: (Url, string) -> Url)
    returns (out: Outcome)
    // the new ledger is the old digests and those of the results, sorted and
    // without repetitions
    ensures out.Completed? ==> out.ledger == SortedUnique(LoadOldHashes(hashFile) + ResultHashes(out.results))
    ensures out.Completed? ==> StrictlySorted(out.ledger)
    ensures out.Completed? ==>
      ToSet(out.ledger) == ToSet(LoadOldHashes(hashFile)) + ToSet(ResultHashes(out.results))
    // the start page is crawled first, no page twice, at most 501 pages
    ensures NoDup(out.crawled) && |out.crawled| <= 501
    ensures url != [] ==> out.crawled != [] && out.crawled[0] == url
    ensures forall i | 0 <= i < |out.results| :: out.results[i].url in out.crawled
    // one result per page at most, each with matches
    ensures forall i, j | 0 <= i < j < |out.results| :: out.results[i].url != out.results[j].url
    ensures forall i | 0 <= i < |out.results| :: out.results[i].matches != []
    // a digest is reported once: never one of the old ledger, never twice
    ensures Fresh(ResultHashes(out.results), LoadOldHashes(hashFile))
    ensures DigestsDisjoint(out.results)
    // without a start URL the old ledger is rewritten in order
    ensures url == [] ==> out == Completed([], SortedUnique(LoadOldHashes(hashFile)), [])
    // the start page is crawled at level 0 as its fetch dictates
    ensures url != [] ==>
      VisitOutcome(RunEnv(web, keywordFile, hashFile, modeName, group, digest, resolve), url, pageLabel, 0,
                   [url], [], LoadOldHashes(hashFile), out.crawled, out.results, EndStatus(out))
    // every exception has its cause
    ensures out.Aborted? ==>
      RaiseExplained(RunEnv(web, keywordFile, hashFile, modeName, group, digest, resolve), Raised(out.error),
                     LoadOldHashes(hashFile) + ResultHashes(out.results))
    // a start page that cannot be fetched ends the run with nothing written
    ensures out.Aborted? && out.error.FetchFailed? ==> out.results == [] && out.error.url == url
    ensures url != [] && (url !in web || web[url].Unreachable? || web[url].Unsupported?) ==>
      out == Aborted([], FetchFailed(url), [url])
    // a PDF start page completes the run with its own result alone
    ensures url != [] && Fetch(RunEnv(web, keywordFile, hashFile, modeName, group, digest, resolve), url).Pdf? ==>
      && out.Completed? && out.crawled == [url]
      && out.results == PdfResult(RunEnv(web, keywordFile, hashFile, modeName, group, digest, resolve), url, pageLabel, LoadOldHashes(hashFile))
  {
    var hashes := LoadOldHashes(hashFile);
    var status, results, crawled := CrawlSite(RunEnv(web, keywordFile, hashFile, modeName, group, digest, resolve), url, pageLabel);
    CrawlReportsOnce(crawled, results, hashes + ResultHashes(results), hashes);
    out := Conclude(status, results, crawled, hashes);
  }
}

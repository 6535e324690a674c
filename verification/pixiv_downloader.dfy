/**
 * The legacy command-line downloader (`pixiv_downloader.py`): its tag filter, file
 * naming, the jobs it queues for an artwork and what they do, the retrying crawl of
 * related artworks, the paged listings of bookmarks and user works, and the checks on
 * its command-line arguments.
 */
module PixivDownloader {
  import opened Wrappers
  import opened Text
  import opened Media
  import opened Crawl

  const TagBlacklist: seq<string> := ["guro", "巨乳", "爆乳化"]
  const TagWhitelist: seq<string> := []

  /** `DOWNLOAD_UGOIRA_STATIC_PREVIEW_INSTEAD`. */
  const StaticPreviewInstead: bool := false

  /** Extra detail requests after an empty reply, and the unit of the growing wait. */
  const MaxTries: nat := 3
  const SleepTime: nat := 120

  /** Related artworks looked at per visit. */
  const RelatedLimit: nat := 30

  /** The characters `_make_safe_filename` replaces with `_`. */
  const InvalidChars: seq<char> := ['/', '\\', ':', '*', '?', '"', '<', '>', '|']

  /** The configured lists, applied by the regular-expression engine `matches`. */
  function Rules(matches: Matcher): TagRules {
    TagRules(TagBlacklist, TagWhitelist, matches)
  }

  // ---------------------------------------------------------------------------
  // Tag filter

  /** The admission rule of the configuration comment: the artwork has tags, no
      blacklist pattern matches any of them, and when the whitelist is not empty some
      whitelist pattern matches one of them. */
  predicate Admits(illust: Option<Illust>, rules: TagRules) {
    && illust.Some?
    && illust.value.tags.Some?
    && !AnyMatch(rules.blacklist, illust.value.tags.value, rules.matches)
    && (rules.whitelist != [] ==> AnyMatch(rules.whitelist, illust.value.tags.value, rules.matches))
  }

  /** `_is_illust_allowed`: the blacklist scan with its early rejection, then the
      whitelist scan that stops at the first match. */
  method IsIllustAllowed(illust: Option<Illust>, rules: TagRules) returns (allowed: bool)
    ensures allowed <==> Admits(illust, rules)
  {
    if illust.None? || illust.value.tags.None? {
      return false;
    }
    var tags := illust.value.tags.value;
    var a := 0;
    while a < |rules.blacklist|
      invariant 0 <= a <= |rules.blacklist|
      invariant forall p, t :: 0 <= p < a && 0 <= t < |tags| ==> !rules.matches(rules.blacklist[p], tags[t])
    {
      var b := 0;
      while b < |tags|
        invariant 0 <= b <= |tags|
        invariant forall t :: 0 <= t < b ==> !rules.matches(rules.blacklist[a], tags[t])
      {
        if rules.matches(rules.blacklist[a], tags[b]) {
          return false;
        }
        b := b + 1;
      }
      a := a + 1;
    }
    if rules.whitelist != [] {
      var found := false;
      a := 0;
      while a < |rules.whitelist|
        invariant 0 <= a <= |rules.whitelist|
        invariant found ==> AnyMatch(rules.whitelist, tags, rules.matches)
        invariant !found ==> forall p, t :: 0 <= p < a && 0 <= t < |tags| ==> !rules.matches(rules.whitelist[p], tags[t])
      {
        var b := 0;
        while b < |tags|
          invariant 0 <= b <= |tags|
          invariant found ==> AnyMatch(rules.whitelist, tags, rules.matches)
          invariant !found ==> forall t :: 0 <= t < b ==> !rules.matches(rules.whitelist[a], tags[t])
        {
          if rules.matches(rules.whitelist[a], tags[b]) {
            found := true;
            break;
          }
          b := b + 1;
        }
        if found {
          break;
        }
        a := a + 1;
      }
      if !found {
        return false;
      }
    }
    return true;
  }

  /** With no whitelist configured, an artwork whose tag list is present but empty is
      admitted. */
  lemma EmptyTagsAdmitted(illust: Illust, matches: Matcher)
    requires illust.tags == Some([])
    ensures Admits(Some(illust), Rules(matches))
  {
  }

  // ---------------------------------------------------------------------------
  // File naming

  /** `_make_safe_filename`. */
  function SafeFilename(s: string): (r: string)
    ensures |r| == |s|
    ensures forall i :: 0 <= i < |s| ==> r[i] == (if s[i] in InvalidChars then '_' else s[i])
    ensures forall i :: 0 <= i < |r| ==> r[i] !in InvalidChars
  {
    ReplaceEach(s, InvalidChars, '_')
  }

  lemma SafeFilenameIdempotent(s: string)
    ensures SafeFilename(SafeFilename(s)) == SafeFilename(s)
  {
    ReplaceEachIdempotent(s, InvalidChars, '_');
  }

  /** `url.split('.')[-1].split('?')[0]`. */
  function Extension(url: string): (ext: string)
    ensures '.' !in ext && '?' !in ext && |ext| <= |url|
  {
    BeforeFirst(AfterLast(url, '.'), '?')
  }

  /** The extension starts right after the URL's last `.` (or at its start when it has
      none) and runs up to the first `?` after it or to the end. */
  lemma ExtensionIsLastSegment(url: string)
    ensures var ext := Extension(url);
      exists p :: 0 <= p <= |url| - |ext| && (p == 0 || url[p - 1] == '.') && '.' !in url[p..]
        && ext == url[p..p + |ext|] && (p + |ext| == |url| || url[p + |ext|] == '?')
  {
    var tail := AfterLast(url, '.');
    var ext := Extension(url);
    var p := |url| - |tail|;
    assert url[p..] == tail;
    assert url[p..p + |ext|] == tail[..|ext|];
    assert p + |ext| == |url| || url[p + |ext|] == tail[|ext|];
  }

  /** The extension of a file URL with or without a query string is the suffix after its
      last dot. */
  lemma ExtensionOfFileUrl(stem: string, ext: string, query: string)
    requires '.' !in ext && '?' !in ext && '.' !in query
    ensures Extension(stem + "." + ext) == ext
    ensures Extension(stem + "." + ext + "?" + query) == ext
  {
    AfterLastOfJoin(stem, '.', ext);
    assert BeforeFirst(ext, '?') == ext;
    assert stem + "." + ext + "?" + query == stem + ['.'] + (ext + ['?'] + query);
    AfterLastOfJoin(stem, '.', ext + ['?'] + query);
    BeforeFirstOfJoin(ext, '?', query);
  }

  /** `[{user.id}_{artist}]_[{illust.id}_{title}]` with artist and title sanitised. */
  function BaseNameOf(illust: Illust): string {
    BaseName(illust.user.id, SafeFilename(illust.user.name), illust.id, SafeFilename(illust.title))
  }

  // ---------------------------------------------------------------------------
  // The jobs of one artwork

  /** The URL of a single-page artwork: the original image, else the large preview. */
  function SingleUrl(illust: Illust): string {
    if illust.originalImageUrl != "" then illust.originalImageUrl else illust.largeImageUrl
  }

  /** `_download_illust`: the jobs queued for one admitted artwork. */
  function Resolve(illust: Illust, staticPreview: bool): (jobs: seq<Job>)
    ensures NamedAfter(jobs, BaseNameOf(illust))
    ensures illust.kind == TypeUgoira && !staticPreview ==> jobs == [UgoiraMp4(illust.id, BaseNameOf(illust))]
    ensures illust.kind == TypeUgoira && staticPreview ==>
      if illust.largeImageUrl == "" then jobs == []
      else jobs == [Transfer(illust.largeImageUrl, BaseNameOf(illust) + "." + Extension(illust.largeImageUrl))]
    ensures illust.kind != TypeUgoira && illust.kind != TypeManga && illust.pageCount == 1 ==>
      if SingleUrl(illust) == "" then jobs == []
      else jobs == [Transfer(SingleUrl(illust), BaseNameOf(illust) + "." + Extension(SingleUrl(illust)))]
    ensures illust.kind != TypeUgoira && (illust.kind == TypeManga || illust.pageCount > 1) ==>
      |jobs| == |illust.pageUrls| &&
      forall i :: 0 <= i < |jobs| ==>
        jobs[i] == Transfer(illust.pageUrls[i], PageName(BaseNameOf(illust), i, Extension(illust.pageUrls[i])))
    ensures illust.kind != TypeUgoira && illust.kind != TypeManga && illust.pageCount < 1 ==> jobs == []
  {
    var base := BaseNameOf(illust);
    if illust.kind == TypeUgoira then
      if staticPreview then
        var url := illust.largeImageUrl;
        if url == "" then []
        else
          var job := Transfer(url, base + "." + Extension(url));
          OneJobNamedAfter(job, base, Extension(url));
          [job]
      else
        OneJobNamedAfter(UgoiraMp4(illust.id, base), base, "mp4");
        [UgoiraMp4(illust.id, base)]
    else if illust.kind != TypeManga && illust.pageCount == 1 then
      var url := SingleUrl(illust);
      if url == "" then []
      else
        var job := Transfer(url, base + "." + Extension(url));
        OneJobNamedAfter(job, base, Extension(url));
        [job]
    else if illust.kind == TypeManga || illust.pageCount > 1 then
      PageJobs(base, illust.pageUrls, Extension)
    else []
  }

  // ---------------------------------------------------------------------------
  // What a job does

  /** `_ugoira_download_via_api_job` for the video `name`: skip an existing file, ask
      the conversion service, and stream the video; a failed stream removes whatever
      part of the file was written. */
  function RunUgoira(files: set<string>, name: string, reply: ConversionReply, stream: string -> StreamResult): (r: JobRun)
    ensures r.outcome == Skipped <==> name in files
    ensures r.outcome == Skipped ==> r.files == files && r.requests == 0
    ensures r.outcome == Abandoned <==> name !in files && VideoUrl(reply).None?
    ensures r.outcome == Abandoned ==> r.requests == 1
    ensures r.outcome == Downloaded <==> name !in files && VideoUrl(reply).Some? && stream(VideoUrl(reply).value).StreamOk?
    ensures r.outcome in {Downloaded, Failed} ==> r.requests == 2
    ensures r.files == (if r.outcome == Downloaded then files + {name} else files)
  {
    if name in files then JobRun(Skipped, files, 0)
    else match VideoUrl(reply)
      case None => JobRun(Abandoned, files, 1)
      case Some(url) =>
        match stream(url)
        case StreamOk => JobRun(Downloaded, files + {name}, 2)
        case _ => JobRun(Failed, files, 2)
  }

  function RunJob(net: Network, files: set<string>, job: Job): (r: JobRun)
    ensures JobContract(files, job, r)
  {
    match job
    case Transfer(url, name) => RunTransfer(files, name, net.transfer(url))
    case UgoiraMp4(id, base) => RunUgoira(files, base + ".mp4", net.convert(id), net.stream)
  }

  lemma JobsHonest(net: Network)
    ensures Honest((files, job) => RunJob(net, files, job))
  {
  }

  /** The worker pool of one batch of jobs. */
  function RunBatch(net: Network, files: set<string>, jobs: seq<Job>): (r: BatchRun)
    ensures |r.outcomes| == |jobs|
    ensures files <= r.files
    ensures forall n :: n in r.files && n !in files ==> exists j :: 0 <= j < |jobs| && TargetName(jobs[j]) == n
  {
    JobsHonest(net);
    RunJobs((files, job) => RunJob(net, files, job), files, jobs)
  }

  /** A video whose stream failed leaves no file behind, so the next run asks again. */
  lemma FailedVideoRetried(net: Network, files: set<string>, id: nat, base: string)
    requires base + ".mp4" !in files
    requires RunJob(net, files, UgoiraMp4(id, base)).outcome == Failed
    ensures var after := RunJob(net, files, UgoiraMp4(id, base)).files;
      RunJob(net, after, UgoiraMp4(id, base)).outcome != Skipped
  {
  }

  // ---------------------------------------------------------------------------
  // The crawl

  /** The detail requests of one visit: the artwork obtained, whether a request raised,
      how many requests were made and the waits before the repeated ones. */
  datatype Fetch = Fetch(illust: Option<Illust>, raised: bool, calls: nat, waits: seq<nat>)

  /** The waits of the retry loop are `120 * 1`, `120 * 2`, ... in order. */
  predicate Backoff(waits: seq<nat>) {
    forall k :: 0 <= k < |waits| ==> waits[k] == SleepTime * (k + 1)
  }

  /** The detail request and the retry loop around it: after a reply without an artwork
      it waits `120 * tries` seconds and asks again, at most three more times; a raised
      error ends the visit. */
  function FetchDetail(detail: (nat, nat) -> DetailReply, id: nat): (f: Fetch)
    ensures 1 <= f.calls <= MaxTries + 1
    ensures |f.waits| == f.calls - 1 && Backoff(f.waits)
    ensures forall a :: 0 <= a < f.calls - 1 ==> detail(id, a).NoIllust?
    ensures f.raised <==> detail(id, f.calls - 1).DetailRaised?
    ensures f.illust.Some? <==> detail(id, f.calls - 1).Got?
    ensures f.illust.Some? ==> f.illust.value == detail(id, f.calls - 1).illust
    ensures f.calls <= MaxTries ==> !detail(id, f.calls - 1).NoIllust?
  {
    Attempt(detail, id, 0, [])
  }

  function Attempt(detail: (nat, nat) -> DetailReply, id: nat, a: nat, waits: seq<nat>): (f: Fetch)
    requires a <= MaxTries
    requires |waits| == a && Backoff(waits)
    requires forall b :: 0 <= b < a ==> detail(id, b).NoIllust?
    ensures a + 1 <= f.calls <= MaxTries + 1
    ensures |f.waits| == f.calls - 1 && Backoff(f.waits)
    ensures forall b :: 0 <= b < f.calls - 1 ==> detail(id, b).NoIllust?
    ensures f.raised <==> detail(id, f.calls - 1).DetailRaised?
    ensures f.illust.Some? <==> detail(id, f.calls - 1).Got?
    ensures f.illust.Some? ==> f.illust.value == detail(id, f.calls - 1).illust
    ensures f.calls <= MaxTries ==> !detail(id, f.calls - 1).NoIllust?
    decreases MaxTries - a
  {
    match detail(id, a)
    case Got(illust) => Fetch(Some(illust), false, a + 1, waits)
    case DetailRaised => Fetch(None, true, a + 1, waits)
    case NoIllust =>
      if a < MaxTries then Attempt(detail, id, a + 1, waits + [SleepTime * (a + 1)])
      else Fetch(None, false, a + 1, waits)
  }

  function Sum(xs: seq<nat>): nat {
    if xs == [] then 0 else xs[0] + Sum(xs[1..])
  }

  /** One visit waits at most 120 + 240 + 360 seconds in all. */
  lemma FetchWaitBound(detail: (nat, nat) -> DetailReply, id: nat)
    ensures Sum(FetchDetail(detail, id).waits) <= SleepTime * (1 + 2 + 3)
  {
    var w := FetchDetail(detail, id).waits;
    if |w| >= 1 {
      assert Sum(w) == w[0] + Sum(w[1..]);
    }
    if |w| >= 2 {
      assert Sum(w[1..]) == w[1] + Sum(w[2..]);
    }
    if |w| == 3 {
      assert Sum(w[2..]) == w[2] + Sum(w[3..]);
    }
  }

  /** The related ids a visit adds to the next layer: those of the examined artworks that
      are unprocessed and pass the filter. */
  function Discover(examined: seq<Illust>, processed: set<nat>, rules: TagRules): (ids: seq<nat>)
    ensures forall d :: d in ids <==>
      exists e :: e in examined && e.id == d && d !in processed && Admits(Some(e), rules)
  {
    if examined == [] then []
    else
      var rest := Discover(examined[1..], processed, rules);
      assert forall e :: e in examined <==> e == examined[0] || e in examined[1..];
      var e := examined[0];
      if e.id !in processed && Admits(Some(e), rules) then [e.id] + rest else rest
  }

  /** One iteration of the loop over a layer for an unprocessed `id`. */
  function Visit1(api: Api, rules: TagRules, layer: nat, id: nat, expand: bool, processed: set<nat>): (v: Visit)
    ensures Coherent(v, layer, id, expand, processed)
    ensures v.calls == FetchDetail(api.detail, id).calls && v.waits == FetchDetail(api.detail, id).waits
    ensures v.illust == FetchDetail(api.detail, id).illust
    ensures v.admitted <==> Admits(v.illust, rules)
    ensures v.expanded <==> v.admitted && expand && api.related(id).RelatedList?
    ensures v.expanded ==> v.examined == Take(api.related(id).illusts, RelatedLimit)
    ensures forall d :: d in v.discovered <==>
      exists e :: e in v.examined && e.id == d && d !in processed && Admits(Some(e), rules)
  {
    var f := FetchDetail(api.detail, id);
    if !Admits(f.illust, rules) then
      Visit(layer, id, f.calls, f.waits, f.illust, false, false, [], [])
    else if !expand || api.related(id).RelatedRaised? then
      Visit(layer, id, f.calls, f.waits, f.illust, true, false, [], [])
    else
      var examined := Take(api.related(id).illusts, RelatedLimit);
      Visit(layer, id, f.calls, f.waits, f.illust, true, true, examined, Discover(examined, processed, rules))
  }

  function VisitFor(api: Api, rules: TagRules): VisitFn {
    (layer: nat, id: nat, expand: bool, processed: set<nat>) => Visit1(api, rules, layer, id, expand, processed)
  }

  lemma VisitSound(api: Api, rules: TagRules)
    ensures Sound(VisitFor(api, rules))
  {
  }

  /** What every visit of the legacy crawl satisfies. */
  predicate VisitOk(v: Visit, rules: TagRules) {
    && 1 <= v.calls <= MaxTries + 1
    && |v.waits| == v.calls - 1
    && Backoff(v.waits)
    && (v.admitted <==> Admits(v.illust, rules))
    && (forall d :: d in v.discovered ==> exists e :: e in v.examined && e.id == d && Admits(Some(e), rules))
  }

  /** `download_related_recursive` from `initial` with the processed set it starts with. */
  function DownloadRelatedRecursive(api: Api, rules: TagRules, initial: nat, depth: int, processed: set<nat>): (r: CrawlRun)
    ensures depth >= 0 ==> 1 <= r.layers <= depth + 1
    ensures depth < 0 ==> r.visits == [] && r.processed == processed
    ensures r.processed == processed + VisitIds(r.visits)
    ensures Fresh(r.visits, processed)
    ensures DiscoveredFresh(r.visits, processed)
    ensures Traced(r.visits, [initial], 0)
    ensures StopsOnEmpty(r, 0)
    ensures forall k :: 0 <= k < |r.visits| ==> (r.visits[k].expanded ==> r.visits[k].layer < depth)
    ensures AllVisits(r.visits, v => VisitOk(v, rules))
  {
    VisitSound(api, rules);
    var visit := VisitFor(api, rules);
    RunDiscoveredFresh(visit, [initial], 0, depth, processed);
    RunProvenance(visit, [initial], 0, depth, processed);
    RunStopsOnEmptyFrontier(visit, [initial], 0, depth, processed);
    RunVisitsSatisfy(visit, v => VisitOk(v, rules), [initial], 0, depth, processed);
    Run(visit, [initial], 0, depth, processed)
  }

  /** Every artwork the crawl downloads passed the filter, and so did every artwork whose
      id entered a later layer. */
  lemma CrawlAdmitsOnlyAllowed(api: Api, rules: TagRules, initial: nat, depth: int, processed: set<nat>)
    ensures var r := DownloadRelatedRecursive(api, rules, initial, depth, processed);
      forall x :: x in Admitted(r.visits) ==> Admits(Some(x), rules)
    ensures var r := DownloadRelatedRecursive(api, rules, initial, depth, processed);
      forall k, d :: 0 <= k < |r.visits| && d in r.visits[k].discovered ==>
        exists e :: e in r.visits[k].examined && e.id == d && Admits(Some(e), rules)
  {
    var r := DownloadRelatedRecursive(api, rules, initial, depth, processed);
    assert AllVisits(r.visits, v => VisitOk(v, rules));
    VisitsAdmitOnlyAllowed(r.visits, rules);
  }

  lemma VisitsAdmitOnlyAllowed(vs: seq<Visit>, rules: TagRules)
    requires forall k :: 0 <= k < |vs| ==> VisitOk(vs[k], rules)
    ensures forall x :: x in Admitted(vs) ==> Admits(Some(x), rules)
    ensures forall k, d :: 0 <= k < |vs| && d in vs[k].discovered ==>
      exists e :: e in vs[k].examined && e.id == d && Admits(Some(e), rules)
  {
    forall x | x in Admitted(vs) ensures Admits(Some(x), rules) {
      var k :| 0 <= k < |vs| && vs[k].admitted && vs[k].illust == Some(x);
      assert VisitOk(vs[k], rules);
    }
    forall k, d | 0 <= k < |vs| && d in vs[k].discovered
      ensures exists e :: e in vs[k].examined && e.id == d && Admits(Some(e), rules)
    {
      assert VisitOk(vs[k], rules);
    }
  }

  // ---------------------------------------------------------------------------
  // Paged listings

  /** One page request of a listing: a page (with or without an `illusts` key, and its
      `next_url`, empty on the last page), or a raised error. */
  datatype PageReply = Page(illusts: Option<seq<Illust>>, nextUrl: string) | PageRaised

  /** A page after which `_fetch_all` stops. */
  predicate Final(p: PageReply) {
    p.PageRaised? || p.nextUrl == ""
  }

  function PageIllusts(p: PageReply): seq<Illust> {
    match p
    case Page(Some(xs), _) => xs
    case _ => []
  }

  /** The artworks the given pages carry, in order. */
  function Carried(pages: seq<PageReply>): seq<Illust> {
    if pages == [] then [] else PageIllusts(pages[0]) + Carried(pages[1..])
  }

  datatype Listing = Listing(illusts: seq<Illust>, pagesRead: nat)

  /** `_fetch_all` over the pages the server answers, request after request; the server
      eventually sends a last page or an error. */
  function FetchAll(pages: seq<PageReply>): (r: Listing)
    requires |pages| > 0 && Final(pages[|pages| - 1])
    ensures 1 <= r.pagesRead <= |pages|
    ensures Final(pages[r.pagesRead - 1])
    ensures forall k :: 0 <= k < r.pagesRead - 1 ==> !Final(pages[k])
    ensures r.illusts == Carried(pages[..r.pagesRead])
  {
    FetchFrom(pages, 0)
  }

  function FetchFrom(pages: seq<PageReply>, k: nat): (r: Listing)
    requires k < |pages| && Final(pages[|pages| - 1])
    ensures k + 1 <= r.pagesRead <= |pages|
    ensures Final(pages[r.pagesRead - 1])
    ensures forall j :: k <= j < r.pagesRead - 1 ==> !Final(pages[j])
    ensures r.illusts == Carried(pages[k..r.pagesRead])
    decreases |pages| - k
  {
    if Final(pages[k]) then
      assert pages[k..k + 1] == [pages[k]];
      assert Carried(pages[k..k + 1]) == PageIllusts(pages[k]) + Carried([]);
      Listing(PageIllusts(pages[k]), k + 1)
    else
      var rest := FetchFrom(pages, k + 1);
      assert pages[k..rest.pagesRead][1..] == pages[k + 1..rest.pagesRead];
      Listing(PageIllusts(pages[k]) + rest.illusts, rest.pagesRead)
  }

  function Ids(xs: seq<Illust>): set<nat> {
    set x | x in xs :: x.id
  }

  /** The ids of the listed artworks that are not processed yet and pass the filter. */
  function NewAdmittedIds(illusts: seq<Illust>, processed: set<nat>, rules: TagRules): set<nat> {
    set x | x in illusts && x.id !in processed && Admits(Some(x), rules) :: x.id
  }

  /** The loop of `download_bookmarks` and `download_user_illusts` over a fetched
      listing: an artwork whose id is already processed is skipped; one that passes the
      filter is marked processed and queued. */
  method SelectListing(illusts: seq<Illust>, processed: set<nat>, rules: TagRules) returns (queued: seq<Illust>, after: set<nat>)
    ensures after == processed + Ids(queued)
    ensures after == processed + NewAdmittedIds(illusts, processed, rules)
    ensures forall q :: q in queued ==> q in illusts && q.id !in processed && Admits(Some(q), rules)
    ensures forall i, j :: 0 <= i < j < |queued| ==> queued[i].id != queued[j].id
    ensures forall x :: x in illusts && x.id !in processed && Admits(Some(x), rules) ==> x.id in Ids(queued)
  {
    queued := [];
    after := processed;
    var n := 0;
    while n < |illusts|
      invariant 0 <= n <= |illusts|
      invariant after == processed + Ids(queued)
      invariant forall q :: q in queued ==> q in illusts[..n] && q.id !in processed && Admits(Some(q), rules)
      invariant forall i, j :: 0 <= i < j < |queued| ==> queued[i].id != queued[j].id
      invariant forall x :: x in illusts[..n] && x.id !in processed && Admits(Some(x), rules) ==> x.id in Ids(queued)
    {
      var x := illusts[n];
      assert illusts[..n + 1] == illusts[..n] + [x];
      if x.id !in after {
        var ok := IsIllustAllowed(Some(x), rules);
        if ok {
          assert x in queued + [x];
          assert Ids(queued + [x]) == Ids(queued) + {x.id};
          queued := queued + [x];
          after := after + {x.id};
        }
      }
      n := n + 1;
    }
    assert illusts[..n] == illusts;
  }

  /** `download_bookmarks` / `download_user_illusts`: fetch every page, select the new
      admitted artworks, and queue their jobs. Only the pages up to the first last page
      are read; the ids marked processed are exactly the new admitted ones among them;
      every job belongs to such an artwork, and each such artwork's id was queued with
      all of its jobs. */
  method DownloadListing(pages: seq<PageReply>, processed: set<nat>, rules: TagRules) returns (jobs: seq<Job>, after: set<nat>)
    requires |pages| > 0 && Final(pages[|pages| - 1])
    ensures var read := Carried(pages[..FetchAll(pages).pagesRead]);
      after == processed + NewAdmittedIds(read, processed, rules)
    ensures var read := Carried(pages[..FetchAll(pages).pagesRead]);
      forall j :: 0 <= j < |jobs| ==>
        exists x :: x in read && x.id in after - processed && Admits(Some(x), rules) && jobs[j] in Resolve(x, StaticPreviewInstead)
    ensures var read := Carried(pages[..FetchAll(pages).pagesRead]);
      forall x :: x in read && x.id !in processed && Admits(Some(x), rules) ==>
        exists q :: q in read && q.id == x.id && Admits(Some(q), rules) && forall j :: j in Resolve(q, StaticPreviewInstead) ==> j in jobs
  {
    var listing := FetchAll(pages);
    var read := listing.illusts;
    assert read == Carried(pages[..FetchAll(pages).pagesRead]);
    var queued;
    queued, after := SelectListing(read, processed, rules);
    jobs := JobsFor(queued, ListingJobs);
    QueuedJobs(read, processed, rules, queued, after);
  }

  /** What `_download_illust` queues for an artwork of a listing. */
  function ListingJobs(x: Illust): seq<Job> {
    Resolve(x, StaticPreviewInstead)
  }

  /** The jobs of the artworks `SelectListing` queued: each belongs to a new admitted
      artwork, and each new admitted artwork is covered by a queued one with the same id
      whose jobs are all there. */
  lemma QueuedJobs(read: seq<Illust>, processed: set<nat>, rules: TagRules, queued: seq<Illust>, after: set<nat>)
    requires after == processed + Ids(queued)
    requires forall q :: q in queued ==> q in read && q.id !in processed && Admits(Some(q), rules)
    requires forall x :: x in read && x.id !in processed && Admits(Some(x), rules) ==> x.id in Ids(queued)
    ensures var jobs := JobsFor(queued, ListingJobs);
      forall j :: 0 <= j < |jobs| ==>
        exists x :: x in read && x.id in after - processed && Admits(Some(x), rules) && jobs[j] in Resolve(x, StaticPreviewInstead)
    ensures var jobs := JobsFor(queued, ListingJobs);
      forall x :: x in read && x.id !in processed && Admits(Some(x), rules) ==>
        exists q :: q in read && q.id == x.id && Admits(Some(q), rules) && forall j :: j in Resolve(q, StaticPreviewInstead) ==> j in jobs
  {
    var jobs := JobsFor(queued, ListingJobs);
    forall j | 0 <= j < |jobs|
      ensures exists x :: x in read && x.id in after - processed && Admits(Some(x), rules) && jobs[j] in Resolve(x, StaticPreviewInstead)
    {
      var x :| x in queued && jobs[j] in ListingJobs(x);
      assert x.id in Ids(queued);
    }
    forall x | x in read && x.id !in processed && Admits(Some(x), rules)
      ensures exists q :: q in read && q.id == x.id && Admits(Some(q), rules) && forall j :: j in Resolve(q, StaticPreviewInstead) ==> j in jobs
    {
      var q :| q in queued && q.id == x.id;
      assert forall j :: j in ListingJobs(q) ==> j in jobs;
    }
  }

  // ---------------------------------------------------------------------------
  // Command line

  datatype Launch = InvalidUrl | InvalidDepth | Start(id: nat, depth: nat)

  /** The checks of the main block before the crawl starts: an id that is missing or 0
      rejects the URL, then a negative depth is rejected. */
  function CheckArgs(url: string, depth: int): (r: Launch)
    ensures r.InvalidUrl? <==> ParseArtworkId(url).None? || ParseArtworkId(url) == Some(0)
    ensures r.InvalidDepth? <==> !r.InvalidUrl? && depth < 0
    ensures r.Start? ==> ParseArtworkId(url) == Some(r.id) && r.id > 0 && r.depth == depth
  {
    match ParseArtworkId(url)
    case None => InvalidUrl
    case Some(id) =>
      if id == 0 then InvalidUrl
      else if depth < 0 then InvalidDepth
      else Start(id, depth)
  }

  /** An artwork page URL with a positive id and a depth of at least 0 starts the crawl
      from that id. */
  lemma CheckArgsOfPageUrl(prefix: string, n: nat, rest: string, depth: nat)
    requires forall k :: 0 <= k <= |prefix| ==> !MarkerAt(prefix, k)
    requires rest == [] || !IsDigit(rest[0])
    requires n > 0
    ensures CheckArgs(prefix + ArtworksMarker + NatToString(n) + rest, depth) == Start(n, depth)
  {
    ParseArtworkIdOfPageUrl(prefix, n, rest);
  }
}

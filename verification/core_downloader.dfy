/**
 * The downloader of the web application (`app/core/downloader.py`): a later revision
 * of the legacy script with a blacklist-only filter, a wider sanitiser, extensions
 * taken without stripping a query string, no retry of the detail request, no filter
 * on related artworks, and a video download that keeps whatever the GET returned.
 */
module CoreDownloader {
  import opened Wrappers
  import opened Text
  import opened Media
  import opened Crawl

  const TagBlacklist: seq<string> := ["guro", "巨乳", "爆乳化"]

  /** Declared next to the blacklist but never consulted by the filter. */
  const TagWhitelist: seq<string> := []

  const RelatedLimit: nat := 30

  /** The characters `_make_safe_filename` replaces with `_`: the legacy nine plus the
      space and `#`. */
  const InvalidChars: seq<char> := ['/', '\\', ':', '*', '?', '"', '<', '>', '|', ' ', '#']

  function Rules(matches: Matcher): TagRules {
    TagRules(TagBlacklist, TagWhitelist, matches)
  }

  // ---------------------------------------------------------------------------
  // Tag filter

  /** The artwork has tags and no blacklist pattern matches any of them. */
  predicate Admits(illust: Option<Illust>, rules: TagRules) {
    && illust.Some?
    && illust.value.tags.Some?
    && !AnyMatch(rules.blacklist, illust.value.tags.value, rules.matches)
  }

  /** `_is_illust_allowed`: the blacklist scan with its early rejection. */
  method IsIllustAllowed(illust: Option<Illust>, rules: TagRules) returns (allowed: bool)
    ensures allowed <==> Admits(illust, rules)
  {
    if illust.None? || illust.value.tags.None? {
      return false;
    }
    var tags := illust.value.tags.value;
    var a := 0;
    while a < |rules.blacklist|
      invariant 0 <= a <= |rules.blacklist|
      invariant forall p, t :: 0 <= p < a && 0 <= t < |tags| ==> !rules.matches(rules.blacklist[p], tags[t])
    {
      var b := 0;
      while b < |tags|
        invariant 0 <= b <= |tags|
        invariant forall t :: 0 <= t < b ==> !rules.matches(rules.blacklist[a], tags[t])
      {
        if rules.matches(rules.blacklist[a], tags[b]) {
          return false;
        }
        b := b + 1;
      }
      a := a + 1;
    }
    return true;
  }

  // ---------------------------------------------------------------------------
  // File naming

  /** `_make_safe_filename`. */
  function SafeFilename(s: string): (r: string)
    ensures |r| == |s|
    ensures forall i :: 0 <= i < |s| ==> r[i] == (if s[i] in InvalidChars then '_' else s[i])
    ensures forall i :: 0 <= i < |r| ==> r[i] !in InvalidChars
  {
    ReplaceEach(s, InvalidChars, '_')
  }

  lemma SafeFilenameIdempotent(s: string)
    ensures SafeFilename(SafeFilename(s)) == SafeFilename(s)
  {
    ReplaceEachIdempotent(s, InvalidChars, '_');
  }

  /** `url.split('.')[-1]`: everything after the last dot, query string included. */
  function Extension(url: string): (ext: string)
    ensures '.' !in ext && |ext| <= |url|
    ensures ext == url[|url| - |ext|..]
  {
    AfterLast(url, '.')
  }

  /** The extension is all of a dot-free URL, else exactly what follows its last dot:
      it is such a suffix, and any such suffix `e` is the extension. */
  lemma ExtensionIsLastSegment(url: string, e: string)
    ensures var ext := Extension(url);
      && '.' !in ext && ext == url[|url| - |ext|..]
      && (|ext| == |url| || url[|url| - |ext| - 1] == '.')
    ensures '.' !in e && |e| <= |url| && e == url[|url| - |e|..] && (|e| == |url| || url[|url| - |e| - 1] == '.') ==>
      e == Extension(url)
  {
    assert Extension(url) == AfterLast(url, '.');
    if '.' !in e && |e| <= |url| && e == url[|url| - |e|..] && (|e| == |url| || url[|url| - |e| - 1] == '.') {
      AfterLastUnique(url, '.', e);
    }
  }

  /** A query string after the file's extension stays in the extension. */
  lemma ExtensionKeepsQuery(stem: string, ext: string, query: string)
    requires '.' !in ext && '.' !in query
    ensures Extension(stem + "." + ext + "?" + query) == ext + "?" + query
  {
    assert stem + "." + ext + "?" + query == stem + ['.'] + (ext + "?" + query);
    AfterLastOfJoin(stem, '.', ext + "?" + query);
  }

  function BaseNameOf(illust: Illust): string {
    BaseName(illust.user.id, SafeFilename(illust.user.name), illust.id, SafeFilename(illust.title))
  }

  // ---------------------------------------------------------------------------
  // The jobs of one artwork

  /** `original_image_url or image_urls.large`. */
  function SingleUrl(illust: Illust): string {
    if illust.originalImageUrl != "" then illust.originalImageUrl else illust.largeImageUrl
  }

  /** `_download_illust`: the jobs submitted for one admitted artwork. A single page is
      submitted even when it has no URL; a manga of one page and an artwork with no page
      count get no job. */
  function Resolve(illust: Illust): (jobs: seq<Job>)
    ensures NamedAfter(jobs, BaseNameOf(illust))
    ensures illust.kind == TypeUgoira ==> jobs == [UgoiraMp4(illust.id, BaseNameOf(illust))]
    ensures illust.kind != TypeUgoira && illust.kind != TypeManga && illust.pageCount == 1 ==>
      jobs == [Transfer(SingleUrl(illust), BaseNameOf(illust) + "." + Extension(SingleUrl(illust)))]
    ensures illust.kind != TypeUgoira && !(illust.kind != TypeManga && illust.pageCount == 1) && illust.pageCount > 1 ==>
      |jobs| == |illust.pageUrls| &&
      forall i :: 0 <= i < |jobs| ==>
        jobs[i] == Transfer(illust.pageUrls[i], PageName(BaseNameOf(illust), i, Extension(illust.pageUrls[i])))
    ensures illust.kind != TypeUgoira && illust.pageCount <= 1 && !(illust.kind != TypeManga && illust.pageCount == 1) ==>
      jobs == []
  {
    var base := BaseNameOf(illust);
    if illust.kind == TypeUgoira then
      OneJobNamedAfter(UgoiraMp4(illust.id, base), base, "mp4");
      [UgoiraMp4(illust.id, base)]
    else if illust.kind != TypeManga && illust.pageCount == 1 then
      var url := SingleUrl(illust);
      var job := Transfer(url, base + "." + Extension(url));
      OneJobNamedAfter(job, base, Extension(url));
      [job]
    else if illust.pageCount > 1 then PageJobs(base, illust.pageUrls, Extension)
    else []
  }

  // ---------------------------------------------------------------------------
  // What a job does

  /** `_ugoira_download` for the video `name`: skip an existing file, ask the conversion
      service, and write whatever the GET returns; the status of the GET is not checked
      and a broken stream leaves its partial file. */
  function RunUgoira(files: set<string>, name: string, reply: ConversionReply, stream: string -> StreamResult): (r: JobRun)
    ensures r.outcome == Skipped <==> name in files
    ensures r.outcome == Skipped ==> r.files == files && r.requests == 0
    ensures r.outcome == Abandoned <==> name !in files && VideoUrl(reply).None?
    ensures r.outcome == Abandoned ==> r.files == files && r.requests == 1
    ensures r.outcome == Downloaded <==> name !in files && VideoUrl(reply).Some? && stream(VideoUrl(reply).value).StreamOk?
    ensures r.outcome in {Downloaded, Failed} ==> r.requests == 2
    ensures name !in files && VideoUrl(reply).Some? && stream(VideoUrl(reply).value).StreamHttpError? ==>
      r.outcome == Failed && r.files == files + {name}
    ensures files <= r.files <= files + {name}
  {
    if name in files then JobRun(Skipped, files, 0)
    else match VideoUrl(reply)
      case None => JobRun(Abandoned, files, 1)
      case Some(url) =>
        match stream(url)
        case StreamOk => JobRun(Downloaded, files + {name}, 2)
        case StreamHttpError => JobRun(Failed, files + {name}, 2)
        case StreamBroken(partial) => JobRun(Failed, if partial then files + {name} else files, 2)
  }

  function RunJob(net: Network, files: set<string>, job: Job): (r: JobRun)
    ensures JobContract(files, job, r)
  {
    match job
    case Transfer(url, name) => RunTransfer(files, name, net.transfer(url))
    case UgoiraMp4(id, base) => RunUgoira(files, base + ".mp4", net.convert(id), net.stream)
  }

  lemma JobsHonest(net: Network)
    ensures Honest((files, job) => RunJob(net, files, job))
  {
  }

  function RunBatch(net: Network, files: set<string>, jobs: seq<Job>): (r: BatchRun)
    ensures |r.outcomes| == |jobs|
    ensures files <= r.files
    ensures forall n :: n in r.files && n !in files ==> exists j :: 0 <= j < |jobs| && TargetName(jobs[j]) == n
  {
    JobsHonest(net);
    RunJobs((files, job) => RunJob(net, files, job), files, jobs)
  }

  // ---------------------------------------------------------------------------
  // The crawl

  /** The related ids a visit adds to the next layer: every examined id not yet
      processed, with no filter. */
  function Discover(examined: seq<Illust>, processed: set<nat>): (ids: seq<nat>)
    ensures forall d :: d in ids <==> exists e :: e in examined && e.id == d && d !in processed
  {
    if examined == [] then []
    else
      var rest := Discover(examined[1..], processed);
      assert forall e :: e in examined <==> e == examined[0] || e in examined[1..];
      if examined[0].id !in processed then [examined[0].id] + rest else rest
  }

  /** The artwork of one detail request; a reply without one and a raised error both
      end the visit. */
  function Detail(reply: DetailReply): Option<Illust> {
    if reply.Got? then Some(reply.illust) else None
  }

  /** One iteration of the loop over a layer for an unprocessed `id`. */
  function Visit2(api: Api, rules: TagRules, layer: nat, id: nat, expand: bool, processed: set<nat>): (v: Visit)
    ensures Coherent(v, layer, id, expand, processed)
    ensures v.calls == 1 && v.waits == []
    ensures v.illust == Detail(api.detail(id, 0))
    ensures v.admitted <==> Admits(v.illust, rules)
    ensures v.expanded <==> v.admitted && expand && api.related(id).RelatedList?
    ensures v.expanded ==> v.examined == Take(api.related(id).illusts, RelatedLimit)
    ensures forall d :: d in v.discovered <==> exists e :: e in v.examined && e.id == d && d !in processed
  {
    var illust := Detail(api.detail(id, 0));
    if !Admits(illust, rules) then
      Visit(layer, id, 1, [], illust, false, false, [], [])
    else if !expand || api.related(id).RelatedRaised? then
      Visit(layer, id, 1, [], illust, true, false, [], [])
    else
      var examined := Take(api.related(id).illusts, RelatedLimit);
      Visit(layer, id, 1, [], illust, true, true, examined, Discover(examined, processed))
  }

  function VisitFor(api: Api, rules: TagRules): VisitFn {
    (layer: nat, id: nat, expand: bool, processed: set<nat>) => Visit2(api, rules, layer, id, expand, processed)
  }

  lemma VisitSound(api: Api, rules: TagRules)
    ensures Sound(VisitFor(api, rules))
  {
  }

  /** What every visit of this revision satisfies. */
  predicate VisitOk(v: Visit, rules: TagRules) {
    && v.calls == 1
    && v.waits == []
    && (v.admitted <==> Admits(v.illust, rules))
    && (forall d :: d in v.discovered ==> exists e :: e in v.examined && e.id == d)
  }

  /** `download_recursive` from `initial` with the processed set it starts with. */
  function DownloadRecursive(api: Api, rules: TagRules, initial: nat, depth: int, processed: set<nat>): (r: CrawlRun)
    ensures depth >= 0 ==> 1 <= r.layers <= depth + 1
    ensures depth < 0 ==> r.visits == [] && r.processed == processed
    ensures r.processed == processed + VisitIds(r.visits)
    ensures Fresh(r.visits, processed)
    ensures DiscoveredFresh(r.visits, processed)
    ensures Traced(r.visits, [initial], 0)
    ensures StopsOnEmpty(r, 0)
    ensures forall k :: 0 <= k < |r.visits| ==> (r.visits[k].expanded ==> r.visits[k].layer < depth)
    ensures AllVisits(r.visits, v => VisitOk(v, rules))
  {
    VisitSound(api, rules);
    var visit := VisitFor(api, rules);
    RunDiscoveredFresh(visit, [initial], 0, depth, processed);
    RunProvenance(visit, [initial], 0, depth, processed);
    RunStopsOnEmptyFrontier(visit, [initial], 0, depth, processed);
    RunVisitsSatisfy(visit, v => VisitOk(v, rules), [initial], 0, depth, processed);
    Run(visit, [initial], 0, depth, processed)
  }

  /** Without retries, a run asks for the details of each id at most once. */
  lemma OneDetailRequestPerId(api: Api, rules: TagRules, initial: nat, depth: int, processed: set<nat>)
    ensures var r := DownloadRecursive(api, rules, initial, depth, processed);
      forall j, k :: 0 <= j < |r.visits| && 0 <= k < |r.visits| && r.visits[j].id == r.visits[k].id ==> j == k
    ensures var r := DownloadRecursive(api, rules, initial, depth, processed);
      forall k :: 0 <= k < |r.visits| ==> r.visits[k].calls == 1
  {
    var r := DownloadRecursive(api, rules, initial, depth, processed);
    assert Fresh(r.visits, processed);
    forall k | 0 <= k < |r.visits| ensures r.visits[k].calls == 1 {
      assert VisitOk(r.visits[k], rules);
    }
  }

  // ---------------------------------------------------------------------------
  // Command line

  datatype Launch = Ignored | Start(id: nat, depth: int)

  /** The main block: the crawl starts only when `parse_id` finds a non-zero id; the depth
      is passed on unchecked, and a negative one runs no layer. */
  function StartCrawl(url: string, depth: int): (r: Launch)
    ensures r.Ignored? <==> ParseArtworkId(url).None? || ParseArtworkId(url) == Some(0)
    ensures r.Start? ==> ParseArtworkId(url) == Some(r.id) && r.id > 0 && r.depth == depth
  {
    match ParseArtworkId(url)
    case Some(id) => if id != 0 then Start(id, depth) else Ignored
    case None => Ignored
  }

  /** A launch with a negative depth visits nothing and leaves the processed set as it
      was. */
  lemma NegativeDepthVisitsNothing(api: Api, rules: TagRules, url: string, depth: int)
    requires depth < 0
    requires StartCrawl(url, depth).Start?
    ensures DownloadRecursive(api, rules, StartCrawl(url, depth).id, depth, {}).visits == []
    ensures DownloadRecursive(api, rules, StartCrawl(url, depth).id, depth, {}).processed == {}
  {
  }
}

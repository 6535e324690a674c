/**
 * The data both downloader revisions work on: artworks ("illusts") as the Pixiv app
 * API returns them, the tag rules, the building blocks of file naming, the unit of
 * download work ("job") with its outcomes, the reply of the ugoira.com conversion
 * service, and the artwork-URL parser both entry points share.
 */
module Media {
  import opened Wrappers
  import opened Text

  /** The API's `type` field: 'illust', 'manga', 'ugoira' or anything else. */
  datatype IllustType = TypeIllust | TypeManga | TypeUgoira | TypeOther(name: string)

  datatype User = User(id: nat, name: string)

  /**
   * One artwork. A URL the API leaves out is the empty string (falsy, like `None`);
   * `tags` is `None` when the record has no `tags` attribute at all.
   */
  datatype Illust = Illust(
    id: nat,
    title: string,
    user: User,
    kind: IllustType,
    pageCount: int,
    originalImageUrl: string,   // meta_single_page.original_image_url
    largeImageUrl: string,      // image_urls.large
    pageUrls: seq<string>,      // meta_pages[i].image_urls.original, in page order
    tags: Option<seq<string>>   // tag names, in order
  )

  /** `matches(pattern, tag)`: `re.compile(pattern, re.IGNORECASE).search(tag)` finds a match. */
  type Matcher = (string, string) -> bool

  /** The configured tag pattern lists and the regular-expression engine that applies them. */
  datatype TagRules = TagRules(blacklist: seq<string>, whitelist: seq<string>, matches: Matcher)

  /** Some pattern matches some tag. */
  predicate AnyMatch(patterns: seq<string>, tags: seq<string>, matches: Matcher) {
    exists a, b :: 0 <= a < |patterns| && 0 <= b < |tags| && matches(patterns[a], tags[b])
  }

  // ---------------------------------------------------------------------------
  // File naming

  function ReplaceChar(s: string, c: char, sub: char): (r: string)
    ensures |r| == |s|
    ensures forall i :: 0 <= i < |s| ==> r[i] == (if s[i] == c then sub else s[i])
  {
    seq(|s|, i requires 0 <= i < |s| => if s[i] == c then sub else s[i])
  }

  /** The chain `s.replace(cs[0], sub).replace(cs[1], sub)...` of a `_make_safe_filename`:
      every character listed in `cs` becomes `sub`, every other one stays. */
  function ReplaceEach(s: string, cs: seq<char>, sub: char): (r: string)
    ensures |r| == |s|
    ensures forall i :: 0 <= i < |s| ==> r[i] == (if s[i] in cs then sub else s[i])
    decreases |cs|
  {
    if cs == [] then s else ReplaceEach(ReplaceChar(s, cs[0], sub), cs[1..], sub)
  }

  /** Replacing again changes nothing once the replacement character is not itself listed. */
  lemma ReplaceEachIdempotent(s: string, cs: seq<char>, sub: char)
    requires sub !in cs
    ensures ReplaceEach(ReplaceEach(s, cs, sub), cs, sub) == ReplaceEach(s, cs, sub)
  {
  }

  /** `[{user.id}_{artist}]_[{illust.id}_{title}]`, the stem of every file of an artwork. */
  function BaseName(userId: nat, artist: string, illustId: nat, title: string): string {
    "[" + NatToString(userId) + "_" + artist + "]_[" + NatToString(illustId) + "_" + title + "]"
  }

  /** The stem is bracketed, and every character in it comes from the artist or the
      title or is a digit, a bracket or an underscore: the stem adds no character that
      the sanitised names do not already allow. */
  lemma BaseNameChars(userId: nat, artist: string, illustId: nat, title: string)
    ensures var r := BaseName(userId, artist, illustId, title);
      && |r| >= 2 && r[0] == '[' && r[|r| - 1] == ']'
      && forall k :: 0 <= k < |r| ==> r[k] in artist || r[k] in title || IsDigit(r[k]) || r[k] in "[]_"
  {
    var u := NatToString(userId);
    var n := NatToString(illustId);
    var r := BaseName(userId, artist, illustId, title);
    assert forall k :: 0 <= k < |r| ==>
      (r[k] in "[" || r[k] in u || r[k] in "_" || r[k] in artist || r[k] in "]_[" || r[k] in n || r[k] in title || r[k] in "]");
  }

  /** `{base}_p{i}.{ext}`, the file of page `i` of a multi-page artwork. */
  function PageName(base: string, i: nat, ext: string): string {
    base + "_p" + NatToString(i) + "." + ext
  }

  /** A page's file name starts with the artwork's stem, and a dot-free `ext` is what
      follows its last dot. */
  lemma PageNameParts(base: string, i: nat, ext: string)
    ensures var r := PageName(base, i, ext);
      |base| < |r| && r[..|base|] == base && ('.' !in ext ==> AfterLast(r, '.') == ext)
  {
    var stem := base + "_p" + NatToString(i);
    assert PageName(base, i, ext) == stem + ['.'] + ext;
    if '.' !in ext {
      AfterLastOfJoin(stem, '.', ext);
    }
  }

  /** Two pages of one artwork never share a file name, whatever their extensions. */
  lemma PageNamesDistinct(base: string, i: nat, j: nat, ei: string, ej: string)
    requires i != j
    ensures PageName(base, i, ei) != PageName(base, j, ej)
  {
    if PageName(base, i, ei) == PageName(base, j, ej) {
      var n := |base + "_p"|;
      assert PageName(base, i, ei)[n..] == NatToString(i) + ['.'] + ei;
      assert PageName(base, j, ej)[n..] == NatToString(j) + ['.'] + ej;
      DigitsBeforeStop(NatToString(i), NatToString(j), ei, ej, '.');
      NatToStringInjective(i, j);
    }
  }

  /** One transfer per page, named `{base}_p{i}.{ext}` in page order, where `ext` is the
      extension a revision takes from the page's URL. */
  function PageJobs(base: string, urls: seq<string>, ext: string -> string): (jobs: seq<Job>)
    ensures |jobs| == |urls|
    ensures forall i :: 0 <= i < |jobs| ==> jobs[i] == Transfer(urls[i], PageName(base, i, ext(urls[i])))
    ensures NamedAfter(jobs, base)
  {
    var jobs := seq(|urls|, i requires 0 <= i < |urls| => Transfer(urls[i], PageName(base, i, ext(urls[i]))));
    forall i, j | 0 <= i < j < |jobs| ensures TargetName(jobs[i]) != TargetName(jobs[j]) {
      PageNamesDistinct(base, i, j, ext(urls[i]), ext(urls[j]));
    }
    jobs
  }

  // ---------------------------------------------------------------------------
  // Download jobs

  /** Work handed to the worker pool: a plain transfer of `url` into `name`, or the
      conversion-service download of an animation into `{baseName}.mp4`. */
  datatype Job = Transfer(url: string, name: string) | UgoiraMp4(illustId: nat, baseName: string)

  function TargetName(j: Job): string {
    match j
    case Transfer(_, name) => name
    case UgoiraMp4(_, base) => base + ".mp4"
  }

  /** Every job of an artwork writes a name beginning with the artwork's base name, and
      no two jobs of one artwork write the same name. */
  predicate NamedAfter(jobs: seq<Job>, base: string) {
    && (forall j :: 0 <= j < |jobs| ==> |base| <= |TargetName(jobs[j])| && TargetName(jobs[j])[..|base|] == base)
    && (forall i, j :: 0 <= i < j < |jobs| ==> TargetName(jobs[i]) != TargetName(jobs[j]))
  }

  /** A single job writing `{base}.{ext}`, or the video of `base`, is named after `base`. */
  lemma OneJobNamedAfter(j: Job, base: string, ext: string)
    requires j.Transfer? ==> j.name == base + "." + ext
    requires j.UgoiraMp4? ==> j.baseName == base
    ensures NamedAfter([j], base)
  {
    var name := TargetName(j);
    if j.Transfer? {
      assert name[..|base|] == base;
    } else {
      assert name == base + ".mp4";
      assert name[..|base|] == base;
    }
  }

  /** The jobs of a list of artworks, artwork after artwork, each resolved by `resolve`:
      every job belongs to one of the artworks and every artwork's jobs are all there. */
  function JobsFor(illusts: seq<Illust>, resolve: Illust -> seq<Job>): (jobs: seq<Job>)
    ensures forall j :: 0 <= j < |jobs| ==> exists x :: x in illusts && jobs[j] in resolve(x)
    ensures forall x, j :: x in illusts && j in resolve(x) ==> j in jobs
  {
    if illusts == [] then []
    else
      var first := resolve(illusts[0]);
      var rest := JobsFor(illusts[1..], resolve);
      assert forall j :: 0 <= j < |rest| ==> (first + rest)[|first| + j] == rest[j];
      first + rest
  }

  datatype Outcome = Skipped | Downloaded | Failed | Abandoned

  /** What a job did: its outcome, the names in the download directory afterwards, and
      how many network requests it made. */
  datatype JobRun = JobRun(outcome: Outcome, files: set<string>, requests: nat)

  /** How the API's `download` call went; a failed transfer may leave a partial file. */
  datatype TransferResult = TransferOk | TransferError(partialWritten: bool)

  /** `_download_job`: skip an existing file, otherwise transfer once and log any error. */
  function RunTransfer(files: set<string>, name: string, t: TransferResult): (r: JobRun)
    ensures r.outcome == Skipped <==> name in files
    ensures r.outcome == Skipped ==> r.files == files && r.requests == 0
    ensures r.outcome != Skipped ==> r.requests == 1
    ensures r.outcome == Downloaded <==> name !in files && t.TransferOk?
    ensures r.outcome == Downloaded ==> r.files == files + {name}
    ensures files <= r.files <= files + {name}
  {
    if name in files then JobRun(Skipped, files, 0)
    else match t
      case TransferOk => JobRun(Downloaded, files + {name}, 1)
      case TransferError(partial) => JobRun(Failed, if partial then files + {name} else files, 1)
  }

  /** The reply of the ugoira.com queue endpoint: the request failed (network error or
      HTTP error status), the body was not JSON, or a JSON object with `ok` and `data`. */
  datatype ConversionReply = RequestFailed | NotJson | Reply(ok: bool, data: Option<seq<ReplyEntry>>)

  datatype ReplyEntry = ReplyEntry(preview: Option<Preview>)

  datatype Preview = Preview(mp4: Option<string>)

  /** The streamed GET of the converted video. */
  datatype StreamResult = StreamOk | StreamHttpError | StreamBroken(partialWritten: bool)

  /** Python's `xs[:n]`. */
  function Take<T>(xs: seq<T>, n: nat): (r: seq<T>)
    ensures |r| <= n && |r| <= |xs| && r == xs[..|r|]
    ensures |r| == n || r == xs
  {
    if |xs| <= n then xs else xs[..n]
  }

  /** The video address a conversion reply yields, if any: `ok` set, `data` present and
      non-empty, and `data[0].preview.mp4` present and non-empty. A reply failing any of
      these makes both revisions give up before requesting the video. */
  function VideoUrl(reply: ConversionReply): (u: Option<string>)
    ensures u.Some? ==> u.value != "" && reply.Reply? && reply.ok && reply.data.Some? && |reply.data.value| > 0
    ensures u.Some? ==> reply.data.value[0].preview == Some(Preview(Some(u.value)))
    ensures u.None? && reply.Reply? && reply.ok && reply.data.Some? && |reply.data.value| > 0 ==>
      match reply.data.value[0].preview
      case None => true
      case Some(p) => p.mp4.None? || p.mp4 == Some("")
  {
    match reply
    case Reply(ok, data) =>
      if !ok || data.None? || |data.value| == 0 then None
      else (match data.value[0].preview
        case None => None
        case Some(p) => if p.mp4.None? || p.mp4.value == "" then None else p.mp4)
    case _ => None
  }

  /** The outside world a batch of jobs meets: how the transfer of each URL goes, the
      conversion service's reply for each artwork id, and how the GET of each video
      address goes. */
  datatype Network = Network(
    transfer: string -> TransferResult,
    convert: nat -> ConversionReply,
    stream: string -> StreamResult
  )

  /** What every job of either revision does: it skips (with no request and no change)
      exactly when its target name exists, and otherwise it can only add its target. */
  predicate JobContract(files: set<string>, job: Job, r: JobRun) {
    && (r.outcome == Skipped <==> TargetName(job) in files)
    && (r.outcome == Skipped ==> r.files == files && r.requests == 0)
    && (r.outcome == Downloaded ==> TargetName(job) in r.files)
    && files <= r.files <= files + {TargetName(job)}
  }

  type JobRunner = (set<string>, Job) -> JobRun

  ghost predicate Honest(run: JobRunner) {
    forall files, job :: JobContract(files, job, run(files, job))
  }

  /** A worker pool's whole batch, taken one job after the other, in submission order. */
  datatype BatchRun = BatchRun(outcomes: seq<Outcome>, files: set<string>, requests: nat)

  function RunJobs(run: JobRunner, files: set<string>, jobs: seq<Job>): (r: BatchRun)
    requires Honest(run)
    ensures |r.outcomes| == |jobs|
    ensures files <= r.files
    ensures forall n :: n in r.files && n !in files ==> exists j :: 0 <= j < |jobs| && TargetName(jobs[j]) == n
    ensures forall j :: 0 <= j < |jobs| && r.outcomes[j] == Downloaded ==> TargetName(jobs[j]) in r.files
    decreases |jobs|
  {
    if jobs == [] then BatchRun([], files, 0)
    else
      var first := run(files, jobs[0]);
      assert JobContract(files, jobs[0], first);
      var rest := RunJobs(run, first.files, jobs[1..]);
      assert forall j :: 1 <= j < |jobs| ==> jobs[j] == jobs[1..][j - 1];
      BatchRun([first.outcome] + rest.outcomes, rest.files, first.requests + rest.requests)
  }

  /** A batch whose every target already exists is a no-op: all jobs skip and nothing is
      requested. */
  lemma {:induction false} RunJobsAllPresent(run: JobRunner, files: set<string>, jobs: seq<Job>)
    requires Honest(run)
    requires forall j :: 0 <= j < |jobs| ==> TargetName(jobs[j]) in files
    ensures RunJobs(run, files, jobs).files == files
    ensures RunJobs(run, files, jobs).requests == 0
    ensures forall j :: 0 <= j < |jobs| ==> RunJobs(run, files, jobs).outcomes[j] == Skipped
    decreases |jobs|
  {
    if jobs != [] {
      var first := run(files, jobs[0]);
      assert JobContract(files, jobs[0], first);
      RunJobsAllPresent(run, first.files, jobs[1..]);
    }
  }

  /** After a batch in which no job failed or gave up, every target exists. */
  lemma {:induction false} RunJobsCompletes(run: JobRunner, files: set<string>, jobs: seq<Job>)
    requires Honest(run)
    requires forall j :: 0 <= j < |jobs| ==> RunJobs(run, files, jobs).outcomes[j] in {Skipped, Downloaded}
    ensures forall j :: 0 <= j < |jobs| ==> TargetName(jobs[j]) in RunJobs(run, files, jobs).files
    decreases |jobs|
  {
    if jobs != [] {
      var first := run(files, jobs[0]);
      assert JobContract(files, jobs[0], first);
      var rest := RunJobs(run, first.files, jobs[1..]);
      assert RunJobs(run, files, jobs).outcomes == [first.outcome] + rest.outcomes;
      forall j | 0 <= j < |jobs| - 1 ensures rest.outcomes[j] in {Skipped, Downloaded} {
        assert rest.outcomes[j] == RunJobs(run, files, jobs).outcomes[j + 1];
      }
      RunJobsCompletes(run, first.files, jobs[1..]);
      forall j | 1 <= j < |jobs| ensures TargetName(jobs[j]) in rest.files {
        assert jobs[j] == jobs[1..][j - 1];
      }
    }
  }

  /** Running a batch again after a run with no failures makes no request and changes
      nothing. */
  lemma RunJobsSettles(run: JobRunner, files: set<string>, jobs: seq<Job>)
    requires Honest(run)
    requires forall j :: 0 <= j < |jobs| ==> RunJobs(run, files, jobs).outcomes[j] in {Skipped, Downloaded}
    ensures var after := RunJobs(run, files, jobs).files;
      RunJobs(run, after, jobs).files == after && RunJobs(run, after, jobs).requests == 0
  {
    RunJobsCompletes(run, files, jobs);
    RunJobsAllPresent(run, RunJobs(run, files, jobs).files, jobs);
  }

  // ---------------------------------------------------------------------------
  // Pixiv app API replies

  /** One `illust_detail` call: a reply carrying the artwork, a reply without one, or a
      raised error. */
  datatype DetailReply = Got(illust: Illust) | NoIllust | DetailRaised

  /** One `illust_related` call: a raised error, or the list it returned. */
  datatype RelatedReply = RelatedRaised | RelatedList(illusts: seq<Illust>)

  /** The API as a crawl sees it: `detail(id, a)` answers the `a`-th detail call for `id`
      (counting from 0) and `related(id)` the related-artworks call for `id`. */
  datatype Api = Api(detail: (nat, nat) -> DetailReply, related: nat -> RelatedReply)

  // ---------------------------------------------------------------------------
  // Seed URL

  const ArtworksMarker: string := "/artworks/"

  /** `/artworks/(\d+)` matches at position `k`. */
  predicate ArtworksAt(url: string, k: nat) {
    && k + |ArtworksMarker| < |url|
    && url[k..k + |ArtworksMarker|] == ArtworksMarker
    && IsDigit(url[k + |ArtworksMarker|])
  }

  /** The integer value of the digits captured by a match at `k`. */
  function IdAt(url: string, k: nat): nat
    requires ArtworksAt(url, k)
  {
    var start := k + |ArtworksMarker|;
    DigitsValue(url[start..DigitRunEnd(url, start)])
  }

  /** `parse_illust_id_from_url` / `parse_id`: the id of the first `/artworks/<digits>`. */
  function ParseArtworkId(url: string): (r: Option<nat>)
    ensures r.None? <==> forall k :: 0 <= k <= |url| ==> !ArtworksAt(url, k)
    ensures r.Some? ==> exists k :: 0 <= k <= |url| && ArtworksAt(url, k) && r.value == IdAt(url, k)
                                    && forall i :: 0 <= i < k ==> !ArtworksAt(url, i)
  {
    match FirstMatch(url, 0, ArtworksAt)
    case None => None
    case Some(k) => Some(IdAt(url, k))
  }

  /** The marker occurs at position `k` of `s`. */
  predicate MarkerAt(s: string, k: nat) {
    k + |ArtworksMarker| <= |s| && s[k..k + |ArtworksMarker|] == ArtworksMarker
  }

  lemma MarkerHasNoDigit()
    ensures forall i :: 0 <= i < |ArtworksMarker| ==> !IsDigit(ArtworksMarker[i])
  {
  }

  /** No match starts inside a prefix that does not contain the marker itself. */
  lemma NoMatchBefore(prefix: string, tail: string, k: nat)
    requires forall i :: 0 <= i <= |prefix| ==> !MarkerAt(prefix, i)
    requires |ArtworksMarker| <= |tail| && tail[..|ArtworksMarker|] == ArtworksMarker
    requires k < |prefix|
    ensures !ArtworksAt(prefix + tail, k)
  {
    var url := prefix + tail;
    var m := |ArtworksMarker|;
    if k + m <= |prefix| {
      assert url[k..k + m] == prefix[k..k + m];
      assert !MarkerAt(prefix, k);
    } else if k + m < |url| {
      MarkerHasNoDigit();
      assert url[k + m] == tail[k + m - |prefix|] == ArtworksMarker[k + m - |prefix|];
    }
  }

  /** The greedy digit run at `start` covers exactly the digits written there. */
  lemma RunCovers(url: string, start: nat, d: string, rest: string)
    requires start + |d| + |rest| == |url| && url[start..] == d + rest
    requires AllDigits(d) && (rest == [] || !IsDigit(rest[0]))
    ensures DigitRunEnd(url, start) == start + |d|
    ensures url[start..start + |d|] == d
  {
    assert forall i :: start <= i < start + |d| ==> url[i] == d[i - start];
    assert start + |d| < |url| ==> url[start + |d|] == rest[0];
  }

  /** An artwork page URL gives back the id written into it. */
  lemma ParseArtworkIdOfPageUrl(prefix: string, n: nat, rest: string)
    requires forall k :: 0 <= k <= |prefix| ==> !MarkerAt(prefix, k)
    requires rest == [] || !IsDigit(rest[0])
    ensures ParseArtworkId(prefix + ArtworksMarker + NatToString(n) + rest) == Some(n)
  {
    var tail := ArtworksMarker + NatToString(n) + rest;
    var url := prefix + ArtworksMarker + NatToString(n) + rest;
    assert url == prefix + tail;
    MatchAfterPrefix(prefix, n, rest);
    assert tail[..|ArtworksMarker|] == ArtworksMarker;
    forall k | 0 <= k < |prefix| ensures !ArtworksAt(prefix + tail, k) {
      NoMatchBefore(prefix, tail, k);
    }
    FirstMatchIs(url, |prefix|, ArtworksAt);
    assert FirstMatch(url, 0, ArtworksAt) == Some(|prefix|);
  }

  /** The match right after the prefix captures the id. */
  lemma MatchAfterPrefix(prefix: string, n: nat, rest: string)
    requires rest == [] || !IsDigit(rest[0])
    ensures var url := prefix + ArtworksMarker + NatToString(n) + rest;
      ArtworksAt(url, |prefix|) && IdAt(url, |prefix|) == n
  {
    var d := NatToString(n);
    var url := prefix + ArtworksMarker + d + rest;
    var start := |prefix| + |ArtworksMarker|;
    assert url[|prefix|..start] == ArtworksMarker;
    assert url[start..] == d + rest;
    RunCovers(url, start, d, rest);
    DigitsValueOfNatToString(n);
  }

  /** A match at `p` with none before it is the one a search finds. */
  lemma FirstMatchIs(s: string, p: nat, at: (string, nat) -> bool)
    requires p <= |s| && at(s, p)
    requires forall k :: 0 <= k < p ==> !at(s, k)
    ensures FirstMatch(s, 0, at) == Some(p)
  {
  }
}

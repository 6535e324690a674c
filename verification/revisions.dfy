/**
 * Where the two downloader revisions agree and where they drift apart: the filter, the
 * sanitiser, the extension, the jobs of an artwork, the video download, the detail
 * request and the related-artwork discovery.
 */
module Revisions {
  import opened Wrappers
  import opened Text
  import opened Media
  import opened Crawl
  import Legacy = PixivDownloader
  import Core = CoreDownloader

  // ---------------------------------------------------------------------------
  // Filter

  /** The application admits everything the legacy script admits, and the converse
      holds exactly when the whitelist is empty or matches some tag. */
  lemma FilterRevisions(illust: Option<Illust>, rules: TagRules)
    ensures Legacy.Admits(illust, rules) ==> Core.Admits(illust, rules)
    ensures Core.Admits(illust, rules) ==>
      (Legacy.Admits(illust, rules) <==> rules.whitelist == [] || AnyMatch(rules.whitelist, illust.value.tags.value, rules.matches))
  {
  }

  /** The application's filter gives the same answer whatever the whitelist holds. */
  lemma CoreIgnoresWhitelist(illust: Option<Illust>, blacklist: seq<string>, w1: seq<string>, w2: seq<string>, matches: Matcher)
    ensures Core.Admits(illust, TagRules(blacklist, w1, matches)) == Core.Admits(illust, TagRules(blacklist, w2, matches))
  {
  }

  /** A whitelist that matches none of an artwork's tags makes the legacy script reject
      what the application admits. */
  lemma WhitelistSeparates(illust: Illust, rules: TagRules)
    requires illust.tags.Some?
    requires !AnyMatch(rules.blacklist, illust.tags.value, rules.matches)
    requires rules.whitelist != [] && !AnyMatch(rules.whitelist, illust.tags.value, rules.matches)
    ensures Core.Admits(Some(illust), rules) && !Legacy.Admits(Some(illust), rules)
  {
  }

  /** With the lists both revisions ship, their filters coincide. */
  lemma ShippedFiltersAgree(illust: Option<Illust>, matches: Matcher)
    ensures Legacy.Admits(illust, Legacy.Rules(matches)) <==> Core.Admits(illust, Core.Rules(matches))
  {
  }

  // ---------------------------------------------------------------------------
  // Sanitiser

  lemma InvalidCharsExtended()
    ensures forall c :: c in Core.InvalidChars <==> c in Legacy.InvalidChars || c == ' ' || c == '#'
    ensures ' ' !in Legacy.InvalidChars && '#' !in Legacy.InvalidChars
  {
    assert Core.InvalidChars == Legacy.InvalidChars + [' ', '#'];
  }

  /** One character: the application replaces it exactly when the legacy script does or
      it is a space or `#`. */
  lemma CharReplacedAlike(c: char)
    ensures c in Core.InvalidChars <==> c in Legacy.InvalidChars || c == ' ' || c == '#'
  {
    InvalidCharsExtended();
  }

  /** The application's sanitiser absorbs the legacy one: it replaces a superset of its
      characters with the same `_`. */
  lemma SanitisersCompose(s: string)
    ensures Core.SafeFilename(Legacy.SafeFilename(s)) == Core.SafeFilename(s)
  {
    var a := Core.SafeFilename(Legacy.SafeFilename(s));
    var b := Core.SafeFilename(s);
    forall i | 0 <= i < |s| ensures a[i] == b[i] {
      CharReplacedAlike(s[i]);
      CharReplacedAlike('_');
    }
  }

  /** The two sanitisers agree on a name without spaces and `#`, and differ on any other. */
  lemma SanitisersAgree(s: string)
    ensures Legacy.SafeFilename(s) == Core.SafeFilename(s) <==> ' ' !in s && '#' !in s
  {
    if ' ' !in s && '#' !in s {
      SanitisersAlike(s);
    } else {
      var i :| 0 <= i < |s| && (s[i] == ' ' || s[i] == '#');
      SanitisersDiffer(s, i);
    }
  }

  lemma SanitisersAlike(s: string)
    requires ' ' !in s && '#' !in s
    ensures Legacy.SafeFilename(s) == Core.SafeFilename(s)
  {
    var a := Legacy.SafeFilename(s);
    var b := Core.SafeFilename(s);
    forall i | 0 <= i < |s| ensures a[i] == b[i] {
      CharReplacedAlike(s[i]);
    }
  }

  lemma SanitisersDiffer(s: string, i: nat)
    requires i < |s| && (s[i] == ' ' || s[i] == '#')
    ensures Legacy.SafeFilename(s)[i] == s[i] && Core.SafeFilename(s)[i] == '_'
  {
    CharReplacedAlike(s[i]);
  }

  // ---------------------------------------------------------------------------
  // Extension

  /** The two extensions agree on a URL without `?`. */
  lemma ExtensionsAgree(url: string)
    requires '?' !in url
    ensures Legacy.Extension(url) == Core.Extension(url)
  {
    var last := AfterLast(url, '.');
    assert forall i :: 0 <= i < |last| ==> last[i] == url[|url| - |last| + i];
    assert '?' !in last;
    assert last == last + [] && BeforeFirst(last, '?') == last;
  }

  /** A query string after the extension separates them. */
  lemma ExtensionsDifferOnQuery(stem: string, ext: string, query: string)
    requires '.' !in ext && '?' !in ext && '.' !in query
    ensures Legacy.Extension(stem + "." + ext + "?" + query) == ext
    ensures Core.Extension(stem + "." + ext + "?" + query) == ext + "?" + query
  {
    Legacy.ExtensionOfFileUrl(stem, ext, query);
    Core.ExtensionKeepsQuery(stem, ext, query);
  }

  // ---------------------------------------------------------------------------
  // The jobs of an artwork

  /** A name the two sanitisers treat alike. */
  predicate Plain(illust: Illust) {
    ' ' !in illust.title && '#' !in illust.title && ' ' !in illust.user.name && '#' !in illust.user.name
  }

  /** No URL of the artwork carries a `?`. */
  predicate NoQuery(illust: Illust) {
    && '?' !in illust.originalImageUrl && '?' !in illust.largeImageUrl
    && forall i :: 0 <= i < |illust.pageUrls| ==> '?' !in illust.pageUrls[i]
  }

  lemma BaseNamesAgree(illust: Illust)
    requires Plain(illust)
    ensures Legacy.BaseNameOf(illust) == Core.BaseNameOf(illust)
  {
    SanitisersAgree(illust.title);
    SanitisersAgree(illust.user.name);
  }

  /** The revisions queue the same jobs for an artwork with plain names, query-free URLs
      and a single-page URL when one is needed, unless it is a manga of at most one page. */
  lemma ResolveAgrees(illust: Illust)
    requires Plain(illust) && NoQuery(illust)
    requires !(illust.kind == TypeManga && illust.pageCount <= 1)
    requires illust.kind != TypeUgoira && illust.pageCount == 1 ==> Legacy.SingleUrl(illust) != ""
    ensures Legacy.Resolve(illust, Legacy.StaticPreviewInstead) == Core.Resolve(illust)
  {
    BaseNamesAgree(illust);
    var a := Legacy.Resolve(illust, Legacy.StaticPreviewInstead);
    var b := Core.Resolve(illust);
    if illust.kind == TypeUgoira {
      assert a == [UgoiraMp4(illust.id, Legacy.BaseNameOf(illust))];
    } else if illust.kind != TypeManga && illust.pageCount == 1 {
      var url := Legacy.SingleUrl(illust);
      assert url == illust.originalImageUrl || url == illust.largeImageUrl;
      ExtensionsAgree(url);
      assert a == [Transfer(url, Legacy.BaseNameOf(illust) + "." + Legacy.Extension(url))];
    } else if illust.pageCount < 1 {
      assert a == [] && b == [];
    } else {
      PagesAgree(illust, a, b);
    }
  }

  /** A multi-page artwork gets the same page jobs from both revisions. */
  lemma PagesAgree(illust: Illust, a: seq<Job>, b: seq<Job>)
    requires NoQuery(illust) && Legacy.BaseNameOf(illust) == Core.BaseNameOf(illust)
    requires illust.kind != TypeUgoira && illust.pageCount > 1
    requires a == Legacy.Resolve(illust, Legacy.StaticPreviewInstead) && b == Core.Resolve(illust)
    ensures a == b
  {
    forall i | 0 <= i < |a| ensures a[i] == b[i] {
      ExtensionsAgree(illust.pageUrls[i]);
    }
  }

  /** A manga of one page: the legacy script queues one job per listed page, the
      application none. */
  lemma MangaOfOnePage(illust: Illust)
    requires illust.kind == TypeManga && illust.pageCount == 1
    ensures |Legacy.Resolve(illust, Legacy.StaticPreviewInstead)| == |illust.pageUrls|
    ensures Core.Resolve(illust) == []
  {
  }

  /** A single page without any URL: the legacy script queues nothing, the application
      queues a transfer of the empty URL into `{base}.`. */
  lemma SinglePageWithoutUrl(illust: Illust)
    requires illust.kind != TypeUgoira && illust.kind != TypeManga && illust.pageCount == 1
    requires illust.originalImageUrl == "" && illust.largeImageUrl == ""
    ensures Legacy.Resolve(illust, Legacy.StaticPreviewInstead) == []
    ensures Core.Resolve(illust) == [Transfer("", Core.BaseNameOf(illust) + ".")]
  {
    LegacySingleWithoutUrl(illust);
    CoreSingleWithoutUrl(illust);
  }

  lemma LegacySingleWithoutUrl(illust: Illust)
    requires illust.kind != TypeUgoira && illust.kind != TypeManga && illust.pageCount == 1
    requires illust.originalImageUrl == "" && illust.largeImageUrl == ""
    ensures Legacy.Resolve(illust, Legacy.StaticPreviewInstead) == []
  {
    assert Legacy.SingleUrl(illust) == "";
  }

  lemma CoreSingleWithoutUrl(illust: Illust)
    requires illust.kind != TypeUgoira && illust.kind != TypeManga && illust.pageCount == 1
    requires illust.originalImageUrl == "" && illust.largeImageUrl == ""
    ensures Core.Resolve(illust) == [Transfer("", Core.BaseNameOf(illust) + ".")]
  {
    assert Core.SingleUrl(illust) == "";
    var e := Core.Extension("");
    assert e == [];
    assert Core.BaseNameOf(illust) + "." + e == Core.BaseNameOf(illust) + ".";
  }

  // ---------------------------------------------------------------------------
  // Video download

  /** An error status on the video GET: the legacy script keeps no file and asks again
      on the next run, while the application stores the error body under the video's
      name, and every later run skips it. */
  lemma VideoHttpError(net: Network, files: set<string>, id: nat, base: string)
    requires base + ".mp4" !in files
    requires VideoUrl(net.convert(id)).Some? && net.stream(VideoUrl(net.convert(id)).value).StreamHttpError?
    ensures Legacy.RunJob(net, files, UgoiraMp4(id, base)).files == files
    ensures Legacy.RunJob(net, files, UgoiraMp4(id, base)).outcome == Failed
    ensures Core.RunJob(net, files, UgoiraMp4(id, base)).files == files + {base + ".mp4"}
    ensures var after := Core.RunJob(net, files, UgoiraMp4(id, base)).files;
      Core.RunJob(net, after, UgoiraMp4(id, base)).outcome == Skipped
  {
  }

  /** Whatever the service and the stream do, the two revisions agree on whether the
      video was obtained. */
  lemma VideoOutcomesAgree(net: Network, files: set<string>, id: nat, base: string)
    ensures Legacy.RunJob(net, files, UgoiraMp4(id, base)).outcome == Core.RunJob(net, files, UgoiraMp4(id, base)).outcome
    ensures Legacy.RunJob(net, files, UgoiraMp4(id, base)).files <= Core.RunJob(net, files, UgoiraMp4(id, base)).files
  {
  }

  // ---------------------------------------------------------------------------
  // The crawl

  /** When the first detail reply carries the artwork or raises, the legacy retry loop
      makes one request and ends where the application's single request does. */
  lemma FirstReplyDecides(detail: (nat, nat) -> DetailReply, id: nat)
    requires !detail(id, 0).NoIllust?
    ensures Legacy.FetchDetail(detail, id).calls == 1
    ensures Legacy.FetchDetail(detail, id).illust == Core.Detail(detail(id, 0))
  {
  }

  /** Every id the legacy script adds to a next layer the application adds too; the
      application also adds the ones the filter rejects. */
  lemma DiscoveryRevisions(examined: seq<Illust>, processed: set<nat>, rules: TagRules)
    ensures forall d :: d in Legacy.Discover(examined, processed, rules) ==> d in Core.Discover(examined, processed)
    ensures forall e :: e in examined && e.id !in processed && !Core.Admits(Some(e), rules) ==>
      e.id in Core.Discover(examined, processed)
  {
  }
}

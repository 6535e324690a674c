/**
 * The browser side of the gallery (`app/static/js/main.js`): the infinite-scroll cursor
 * that pulls catalog pages, and the lightbox slides built from the loaded files,
 * including the artwork id recovered from a file name.
 */
module Gallery {
  import opened Wrappers
  import opened Text
  import opened Media
  import Routes
  import Legacy = PixivDownloader
  import Core = CoreDownloader

  // ---------------------------------------------------------------------------
  // Artwork id of a file name

  /** `_\[(\d+)_` matches at `k`: `_[`, a run of digits, `_`. */
  predicate TaggedIdAt(s: string, k: nat) {
    && k + 2 < |s| && s[k] == '_' && s[k + 1] == '[' && IsDigit(s[k + 2])
    && DigitRunEnd(s, k + 2) < |s| && s[DigitRunEnd(s, k + 2)] == '_'
  }

  /** `(\d+)_p` matches at `k`: a run of digits, then `_p`. */
  predicate PageIdAt(s: string, k: nat) {
    && k < |s| && IsDigit(s[k])
    && DigitRunEnd(s, k) + 1 < |s| && s[DigitRunEnd(s, k)] == '_' && s[DigitRunEnd(s, k) + 1] == 'p'
  }

  /** The artwork id the lightbox attaches to a file: the digits of the first
      `_[<digits>_`, else those of the first `<digits>_p`, else none. */
  function IllustId(name: string): (r: Option<string>)
    ensures r.Some? ==> 1 <= |r.value| && AllDigits(r.value)
    ensures (exists k :: 0 <= k <= |name| && TaggedIdAt(name, k)) ==>
      r.Some? && exists k :: (0 <= k <= |name| && TaggedIdAt(name, k) && (forall i :: 0 <= i < k ==> !TaggedIdAt(name, i))
                              && r.value == name[k + 2..DigitRunEnd(name, k + 2)])
    ensures (forall k :: 0 <= k <= |name| ==> !TaggedIdAt(name, k)) && r.Some? ==>
      exists k :: (0 <= k <= |name| && PageIdAt(name, k) && (forall i :: 0 <= i < k ==> !PageIdAt(name, i))
                   && r.value == name[k..DigitRunEnd(name, k)])
    ensures r.None? <==> forall k :: 0 <= k <= |name| ==> !TaggedIdAt(name, k) && !PageIdAt(name, k)
  {
    match FirstMatch(name, 0, TaggedIdAt)
    case Some(k) => Some(name[k + 2..DigitRunEnd(name, k + 2)])
    case None =>
      match FirstMatch(name, 0, PageIdAt)
      case Some(k) => Some(name[k..DigitRunEnd(name, k)])
      case None => None
  }

  /** A name whose first `_[` comes right before `<id>_` gives back that id. */
  lemma IllustIdOfTagged(prefix: string, n: nat, tail: string)
    requires forall i :: 1 <= i < |prefix| ==> prefix[i] != '['
    ensures IllustId(prefix + "_[" + NatToString(n) + "_" + tail) == Some(NatToString(n))
  {
    var s := prefix + "_[" + NatToString(n) + "_" + tail;
    TaggedAfterPrefix(prefix, n, tail);
    forall k | 0 <= k < |prefix| ensures !TaggedIdAt(s, k) {
      assert k + 1 < |prefix| ==> s[k + 1] == prefix[k + 1];
      assert k + 1 == |prefix| ==> s[k + 1] == '_';
    }
    FirstMatchIs(s, |prefix|, TaggedIdAt);
    assert FirstMatch(s, 0, TaggedIdAt) == Some(|prefix|);
  }

  /** The tag right after the prefix matches and captures the id. */
  lemma TaggedAfterPrefix(prefix: string, n: nat, tail: string)
    ensures var s := prefix + "_[" + NatToString(n) + "_" + tail;
      var p := |prefix|;
      TaggedIdAt(s, p) && s[p + 2..DigitRunEnd(s, p + 2)] == NatToString(n)
  {
    var d := NatToString(n);
    var s := prefix + "_[" + d + "_" + tail;
    var p := |prefix|;
    assert s[p] == '_' && s[p + 1] == '[';
    assert s[p + 2..] == d + ("_" + tail);
    RunCovers(s, p + 2, d, "_" + tail);
  }

  /** Every file either downloader writes for an artwork whose artist name has no `[`
      carries that artwork's id where the gallery looks for it. */
  lemma IllustIdOfDownloadedFile(illust: Illust, staticPreview: bool)
    requires '[' !in illust.user.name
    ensures forall j :: j in Legacy.Resolve(illust, staticPreview) ==> IllustId(TargetName(j)) == Some(NatToString(illust.id))
    ensures forall j :: j in Core.Resolve(illust) ==> IllustId(TargetName(j)) == Some(NatToString(illust.id))
  {
    var artist1 := Legacy.SafeFilename(illust.user.name);
    var artist2 := Core.SafeFilename(illust.user.name);
    assert '[' !in Legacy.InvalidChars && '[' !in Core.InvalidChars;
    assert '[' !in artist1 by {
      forall i | 0 <= i < |artist1| ensures artist1[i] != '[' {
        assert illust.user.name[i] != '[';
      }
    }
    assert '[' !in artist2 by {
      forall i | 0 <= i < |artist2| ensures artist2[i] != '[' {
        assert illust.user.name[i] != '[';
      }
    }
    JobsCarryId(Legacy.Resolve(illust, staticPreview), illust.user.id, artist1, illust.id, Legacy.SafeFilename(illust.title));
    JobsCarryId(Core.Resolve(illust), illust.user.id, artist2, illust.id, Core.SafeFilename(illust.title));
  }

  /** Every job named after a base name writes a file carrying the base name's id. */
  lemma JobsCarryId(jobs: seq<Job>, userId: nat, artist: string, id: nat, title: string)
    requires '[' !in artist
    requires NamedAfter(jobs, BaseName(userId, artist, id, title))
    ensures forall j :: j in jobs ==> IllustId(TargetName(j)) == Some(NatToString(id))
  {
    var base := BaseName(userId, artist, id, title);
    forall j | j in jobs ensures IllustId(TargetName(j)) == Some(NatToString(id)) {
      var k :| 0 <= k < |jobs| && jobs[k] == j;
      BaseNameId(base, TargetName(j), userId, artist, id, title);
    }
  }

  /** A name that starts with a base name carries the base name's artwork id. */
  lemma BaseNameId(base: string, name: string, userId: nat, artist: string, id: nat, title: string)
    requires base == BaseName(userId, artist, id, title)
    requires '[' !in artist
    requires |base| <= |name| && name[..|base|] == base
    ensures IllustId(name) == Some(NatToString(id))
  {
    var prefix := "[" + NatToString(userId) + "_" + artist + "]";
    var rest := name[|base|..];
    var tail := title + "]" + rest;
    var head := prefix + "_[" + NatToString(id) + "_";
    assert base == head + title + "]" by {
      assert "]_[" == "]" + "_[";
    }
    assert name == base + rest;
    assert name == head + tail;
    OwnerPrefixOpen(userId, artist);
    IllustIdOfTagged(prefix, id, tail);
  }

  /** The `[{user id}_{artist}]` prefix opens no bracket after its first character when
      the artist's name has none. */
  lemma OwnerPrefixOpen(userId: nat, artist: string)
    requires '[' !in artist
    ensures var prefix := "[" + NatToString(userId) + "_" + artist + "]";
      forall i :: 1 <= i < |prefix| ==> prefix[i] != '['
  {
    var u := NatToString(userId);
    var prefix := "[" + u + "_" + artist + "]";
    forall i | 1 <= i < |prefix| ensures prefix[i] != '[' {
      if i <= |u| {
        assert prefix[i] == u[i - 1];
      } else if i == |u| + 1 {
        assert prefix[i] == '_';
      } else if i < |prefix| - 1 {
        assert prefix[i] == artist[i - |u| - 2];
      }
    }
  }

  // ---------------------------------------------------------------------------
  // Slides

  /** The size the lightbox uses for a side the catalog does not know. */
  const DefaultSide: int := 800

  /** `name.split('.').pop().toLowerCase()`. */
  function Ext(name: string): (r: string)
    ensures |r| <= |name| && '.' !in name[|name| - |r|..]
    ensures |r| == |name| || name[|name| - |r| - 1] == '.'
    ensures r == Lower(name[|name| - |r|..])
  {
    Lower(AfterLast(name, '.'))
  }

  predicate IsVideo(name: string) {
    Ext(name) == "mp4" || Ext(name) == "webm"
  }

  function Src(name: string): string {
    "/downloads/" + name
  }

  datatype SlideData = SlideData(illustId: Option<string>, filename: string, favorite: bool, isVideo: bool)

  /** A lightbox slide: an embedded video player at a fixed size, or an image. */
  datatype Slide =
    | HtmlSlide(src: string, width: int, height: int, data: SlideData)
    | ImageSlide(src: string, width: int, height: int, data: SlideData)

  function Side(x: int): (r: int)
    ensures r > 0
    ensures x > 0 ==> r == x
    ensures x <= 0 ==> r == DefaultSide
  {
    if x > 0 then x else DefaultSide
  }

  /** The slide of one loaded file. */
  function SlideOf(f: Routes.ImageInfo): (s: Slide)
    ensures s.HtmlSlide? <==> IsVideo(f.name)
    ensures s.src == Src(f.name)
    ensures s.data == SlideData(IllustId(f.name), f.name, f.favorite, IsVideo(f.name))
    ensures s.width > 0 && s.height > 0
    ensures s.HtmlSlide? ==> s.width == Routes.VideoWidth && s.height == Routes.VideoHeight
    ensures s.ImageSlide? && f.width > 0 ==> s.width == f.width
    ensures s.ImageSlide? && f.height > 0 ==> s.height == f.height
    ensures s.ImageSlide? && f.width <= 0 ==> s.width == DefaultSide
    ensures s.ImageSlide? && f.height <= 0 ==> s.height == DefaultSide
  {
    var data := SlideData(IllustId(f.name), f.name, f.favorite, IsVideo(f.name));
    if IsVideo(f.name) then HtmlSlide(Src(f.name), 1920, 1080, data)
    else ImageSlide(Src(f.name), Side(f.width), Side(f.height), data)
  }

  /** `buildDataSource`: one slide per loaded file, in the order loaded. */
  function BuildDataSource(files: seq<Routes.ImageInfo>): (r: seq<Slide>)
    ensures |r| == |files|
    ensures forall i :: 0 <= i < |r| ==> r[i] == SlideOf(files[i])
  {
    seq(|files|, i requires 0 <= i < |files| => SlideOf(files[i]))
  }

  /** Lower-casing keeps `.` where it is and puts it nowhere else. */
  lemma LowerDot(s: string)
    ensures forall i :: 0 <= i < |s| ==> (Lower(s)[i] == '.' <==> s[i] == '.')
  {
  }

  lemma LowerAfterLast(s: string)
    ensures AfterLast(Lower(s), '.') == Lower(AfterLast(s, '.'))
  {
    var r := AfterLast(s, '.');
    var off := |s| - |r|;
    var ls := Lower(s);
    LowerSuffix(s, off);
    LowerNoDot(r);
    if off > 0 {
      assert s[off - 1] == '.';
      assert ls[off - 1] == '.';
    }
    AfterLastUnique(ls, '.', Lower(r));
  }

  /** Lower-casing commutes with dropping a prefix. */
  lemma LowerSuffix(s: string, off: nat)
    requires off <= |s|
    ensures Lower(s)[off..] == Lower(s[off..])
  {
    var a := Lower(s)[off..];
    var b := Lower(s[off..]);
    forall i | 0 <= i < |a| ensures a[i] == b[i] {
      assert s[off..][i] == s[off + i];
    }
  }

  lemma LowerNoDot(s: string)
    requires '.' !in s
    ensures '.' !in Lower(s)
  {
    forall i | 0 <= i < |s| ensures Lower(s)[i] != '.' {
      assert s[i] != '.';
    }
  }

  /** For a name with a `.`, the gallery's extension is `ext` exactly when the lower-cased
      name ends with `.ext`. */
  lemma ExtIffEndsWith(name: string, ext: string)
    requires '.' in name && '.' !in ext
    ensures Ext(name) == ext <==> EndsWith(Lower(name), "." + ext)
  {
    LowerAfterLast(name);
    LowerDot(name);
    var ls := Lower(name);
    var k :| 0 <= k < |name| && name[k] == '.';
    assert ls[k] == '.';
    if AfterLast(ls, '.') == ext {
      ExtEndsWith(ls, ext);
    }
    if EndsWith(ls, "." + ext) {
      EndsWithExt(ls, ext);
    }
  }

  lemma ExtEndsWith(s: string, ext: string)
    requires '.' in s && AfterLast(s, '.') == ext
    ensures EndsWith(s, "." + ext)
  {
    var r := AfterLast(s, '.');
    assert |r| < |s|;
    assert s[|s| - |r| - 1..] == "." + ext;
  }

  lemma EndsWithExt(s: string, ext: string)
    requires '.' !in ext && EndsWith(s, "." + ext)
    ensures AfterLast(s, '.') == ext
  {
    var stem := s[..|s| - |ext| - 1];
    assert s == stem + ['.'] + ext;
    AfterLastOfJoin(stem, '.', ext);
  }

  /** On a name with a `.`, the gallery plays as a video exactly the files the catalog
      sized as videos. */
  lemma VideoChecksAgree(name: string)
    requires '.' in name
    ensures IsVideo(name) <==> Routes.HasExtension(name, Routes.VideoExtensions)
  {
    var l := Lower(name);
    ExtIffEndsWith(name, "mp4");
    ExtIffEndsWith(name, "webm");
    assert "." + "mp4" == ".mp4" && "." + "webm" == ".webm";
    VideoSuffixes(l);
    assert Routes.HasExtension(name, Routes.VideoExtensions) == Routes.EndsWithAny(l, Routes.VideoExtensions);
  }

  lemma VideoSuffixes(l: string)
    ensures Routes.EndsWithAny(l, Routes.VideoExtensions) <==> EndsWith(l, ".mp4") || EndsWith(l, ".webm")
  {
    var tail: seq<string> := [".webm"];
    assert Routes.VideoExtensions[0] == ".mp4" && Routes.VideoExtensions[1..] == tail;
    assert tail[0] == ".webm" && tail[1..] == [];
    assert !Routes.EndsWithAny(l, []);
    assert Routes.EndsWithAny(l, tail) <==> EndsWith(l, ".webm");
  }

  /** A bare `mp4` is a video to the gallery but not a catalog video. */
  lemma BareExtension()
    ensures IsVideo("mp4") && !Routes.HasExtension("mp4", Routes.VideoExtensions)
  {
    var name := "mp4";
    assert '.' !in name;
    AfterLastUnique(name, '.', name);
    var l := Lower(name);
    assert l == name by {
      forall i | 0 <= i < 3 ensures l[i] == name[i] {
      }
    }
    assert Ext(name) == "mp4";
    assert !EndsWith(l, ".mp4") && !EndsWith(l, ".webm");
    VideoSuffixes(l);
  }

  // ---------------------------------------------------------------------------
  // Infinite scroll

  /** The page size the gallery asks for. */
  const PageSize: int := 30

  /** The gallery's loading state: the files shown, the next page to ask for, whether a
      request is in flight, and whether the server said more pages follow. */
  datatype Cursor = Cursor(files: seq<Routes.ImageInfo>, page: int, loading: bool, hasMore: bool)

  /** The state after one `fetchImages` call and the page it requested, if any. */
  datatype Fetched = Fetched(cursor: Cursor, requested: Option<int>)

  /**
   * `fetchImages(reset)`. `server(p)` is the reply to the request for page `p`, `None`
   * when the request fails or its status is an error. A call made while another is in
   * flight does nothing; a reset empties the gallery and starts again from page 1; a
   * failed request leaves the files and the page as they were.
   */
  function FetchImages(c: Cursor, reset: bool, server: int -> Option<Routes.ImagesReply>): (r: Fetched)
    ensures c.loading ==> r == Fetched(c, None)
    ensures !c.loading ==> !r.cursor.loading
    ensures !c.loading && reset ==> r.requested == Some(1)
    ensures !c.loading && !reset && !c.hasMore ==> r == Fetched(c, None)
    ensures !c.loading && !reset && c.hasMore ==> r.requested == Some(c.page)
    ensures r.requested.Some? && server(r.requested.value).None? ==>
      r.cursor.files == (if reset then [] else c.files) && r.cursor.page == r.requested.value && r.cursor.hasMore
    ensures r.requested.Some? && server(r.requested.value).Some? ==>
      var reply := server(r.requested.value).value;
      && r.cursor.files == (if reset then [] else c.files) + reply.files
      && r.cursor.hasMore == reply.hasMore
      && r.cursor.page == r.requested.value + (if reply.hasMore then 1 else 0)
  {
    if c.loading then Fetched(c, None)
    else
      var start := if reset then Cursor([], 1, false, true) else c;
      if !start.hasMore && !reset then Fetched(start, None)
      else
        match server(start.page)
        case None => Fetched(start.(loading := false), Some(start.page))
        case Some(reply) =>
          var files := start.files + reply.files;
          if reply.hasMore then Fetched(Cursor(files, start.page + 1, false, true), Some(start.page))
          else Fetched(Cursor(files, start.page, false, false), Some(start.page))
  }

  /** The catalog answering page requests with `get_images` at the gallery's page size. */
  function Server(cat: Routes.Catalog, order: seq<string>, favsOnly: bool): int -> Option<Routes.ImagesReply> {
    p => if Routes.Lists(cat, order) then Some(Routes.GetImages(cat, order, p, PageSize, favsOnly)) else None
  }

  function Total(cat: Routes.Catalog, order: seq<string>, favsOnly: bool): nat
    requires Routes.Lists(cat, order)
  {
    |Routes.Selected(cat, order, favsOnly)|
  }

  /** The cursor holds the first pages of the selection, and knows whether the next one
      exists. */
  predicate Loaded(c: Cursor, cat: Routes.Catalog, order: seq<string>, favsOnly: bool) {
    && Routes.Lists(cat, order)
    && !c.loading
    && c.page >= 1
    && (c.hasMore ==>
          c.page >= 2 && c.files == Routes.Pages(cat, order, c.page - 1, PageSize, favsOnly)
          && (c.page - 1) * PageSize < Total(cat, order, favsOnly))
    && (!c.hasMore ==>
          c.files == Routes.Pages(cat, order, c.page, PageSize, favsOnly)
          && c.page * PageSize >= Total(cat, order, favsOnly))
  }

  /** A reset followed by its request leaves the cursor loaded. */
  lemma ResetLoads(c: Cursor, cat: Routes.Catalog, order: seq<string>, favsOnly: bool)
    requires Routes.Lists(cat, order) && !c.loading
    ensures Loaded(FetchImages(c, true, Server(cat, order, favsOnly)).cursor, cat, order, favsOnly)
  {
    var server := Server(cat, order, favsOnly);
    var reply := Routes.GetImages(cat, order, 1, PageSize, favsOnly);
    assert server(1) == Some(reply);
    assert Routes.Offset(1, PageSize) == 0;
    assert reply.hasMore <==> PageSize < Total(cat, order, favsOnly);
    assert Routes.Pages(cat, order, 1, PageSize, favsOnly) == [] + reply.files;
  }

  /** Scrolling on keeps the cursor loaded. */
  lemma FetchKeepsLoaded(c: Cursor, cat: Routes.Catalog, order: seq<string>, favsOnly: bool)
    requires Loaded(c, cat, order, favsOnly)
    ensures Loaded(FetchImages(c, false, Server(cat, order, favsOnly)).cursor, cat, order, favsOnly)
  {
    if c.hasMore {
      FetchNextLoads(c, cat, order, favsOnly);
    } else {
      assert FetchImages(c, false, Server(cat, order, favsOnly)).cursor == c;
    }
  }

  /** A scroll that expects more pages fetches the next one and stays loaded. */
  lemma FetchNextLoads(c: Cursor, cat: Routes.Catalog, order: seq<string>, favsOnly: bool)
    requires Loaded(c, cat, order, favsOnly) && c.hasMore
    ensures Loaded(FetchImages(c, false, Server(cat, order, favsOnly)).cursor, cat, order, favsOnly)
  {
    var server := Server(cat, order, favsOnly);
    var p := c.page;
    var reply := Routes.GetImages(cat, order, p, PageSize, favsOnly);
    ServerAnswers(cat, order, favsOnly, p);
    FetchAppends(c, server, reply);
    MoreAfterPage(cat, order, p, favsOnly);
    Routes.PagesUnfold(cat, order, p, PageSize, favsOnly);
    PageLoads(c.files, p, reply, cat, order, favsOnly);
  }

  /** On a catalog the order lists, the server answers every page request with the route's reply. */
  lemma ServerAnswers(cat: Routes.Catalog, order: seq<string>, favsOnly: bool, p: int)
    requires Routes.Lists(cat, order)
    ensures Server(cat, order, favsOnly)(p) == Some(Routes.GetImages(cat, order, p, PageSize, favsOnly))
  {
  }

  /** A scroll that gets a reply appends its files and moves on exactly when more follow. */
  lemma FetchAppends(c: Cursor, server: int -> Option<Routes.ImagesReply>, reply: Routes.ImagesReply)
    requires !c.loading && c.hasMore && server(c.page) == Some(reply)
    ensures FetchImages(c, false, server).cursor
      == Cursor(c.files + reply.files, if reply.hasMore then c.page + 1 else c.page, false, reply.hasMore)
  {
  }

  /** Appending page `p` to the pages before it gives a loaded cursor. */
  lemma PageLoads(files: seq<Routes.ImageInfo>, p: int, reply: Routes.ImagesReply, cat: Routes.Catalog, order: seq<string>, favsOnly: bool)
    requires Routes.Lists(cat, order) && p >= 2
    requires files + reply.files == Routes.Pages(cat, order, p, PageSize, favsOnly)
    requires reply.hasMore <==> p * PageSize < Total(cat, order, favsOnly)
    ensures Loaded(Cursor(files + reply.files, if reply.hasMore then p + 1 else p, false, reply.hasMore), cat, order, favsOnly)
  {
  }

  /** The server reports more rows after page `p` exactly when the pages so far fall short of the selection. */
  lemma MoreAfterPage(cat: Routes.Catalog, order: seq<string>, p: int, favsOnly: bool)
    requires Routes.Lists(cat, order) && p >= 1
    ensures Routes.GetImages(cat, order, p, PageSize, favsOnly).hasMore <==> p * PageSize < Total(cat, order, favsOnly)
  {
    assert Routes.Offset(p, PageSize) == (p - 1) * PageSize;
  }

  /** `n` more scroll requests. */
  function Scroll(c: Cursor, n: nat, server: int -> Option<Routes.ImagesReply>): Cursor
    decreases n
  {
    if n == 0 then c else Scroll(FetchImages(c, false, server).cursor, n - 1, server)
  }

  /** Scrolling only ever appends to the gallery: the files shown before stay, in place,
      the page counter never moves back, and a request in flight stays in flight. */
  lemma {:induction false} ScrollAppends(c: Cursor, n: nat, server: int -> Option<Routes.ImagesReply>)
    ensures var r := Scroll(c, n, server);
      |c.files| <= |r.files| && r.files[..|c.files|] == c.files && r.page >= c.page && r.loading == c.loading
    decreases n
  {
    if n > 0 {
      var next := FetchImages(c, false, server).cursor;
      var r := Scroll(next, n - 1, server);
      ScrollAppends(next, n - 1, server);
      assert r.files[..|c.files|] == r.files[..|next.files|][..|c.files|];
    }
  }

  lemma {:induction false} ScrollKeepsLoaded(c: Cursor, n: nat, cat: Routes.Catalog, order: seq<string>, favsOnly: bool)
    requires Loaded(c, cat, order, favsOnly)
    ensures Loaded(Scroll(c, n, Server(cat, order, favsOnly)), cat, order, favsOnly)
    ensures Scroll(c, n, Server(cat, order, favsOnly)).hasMore ==> Scroll(c, n, Server(cat, order, favsOnly)).page == c.page + n
    decreases n
  {
    if n > 0 {
      var server := Server(cat, order, favsOnly);
      var next := FetchImages(c, false, server).cursor;
      assert Scroll(c, n, server) == Scroll(next, n - 1, server);
      FetchKeepsLoaded(c, cat, order, favsOnly);
      ScrollKeepsLoaded(next, n - 1, cat, order, favsOnly);
      if !next.hasMore {
        ScrollStops(next, n - 1, server);
      }
    }
  }

  /** Once the server has said no more pages follow, scrolling changes nothing. */
  lemma {:induction false} ScrollStops(c: Cursor, n: nat, server: int -> Option<Routes.ImagesReply>)
    requires !c.hasMore && !c.loading
    ensures Scroll(c, n, server) == c
    decreases n
  {
    if n > 0 {
      assert FetchImages(c, false, server).cursor == c;
      ScrollStops(c, n - 1, server);
    }
  }

  /** A loaded cursor that expects no more pages shows the whole selection, in catalog
      order and once each. */
  lemma CompleteShowsSelection(c: Cursor, cat: Routes.Catalog, order: seq<string>, favsOnly: bool)
    requires Loaded(c, cat, order, favsOnly) && !c.hasMore
    ensures c.files == Routes.Infos(cat, Routes.Selected(cat, order, favsOnly))
  {
    var sel := Routes.Selected(cat, order, favsOnly);
    Routes.PagesTile(cat, order, c.page, PageSize, favsOnly);
    assert Routes.Min(c.page * PageSize, |sel|) == |sel|;
    assert sel[..|sel|] == sel;
    assert Routes.Head(cat, order, Routes.Rows(c.page, PageSize), favsOnly) == Routes.Infos(cat, sel);
  }

  /** After a reset and enough scrolling, the gallery shows exactly the catalog's
      selection: every selected file once, in the catalog's order. */
  lemma ScrollShowsSelection(c: Cursor, n: nat, cat: Routes.Catalog, order: seq<string>, favsOnly: bool)
    requires Routes.Lists(cat, order) && !c.loading
    requires n >= Total(cat, order, favsOnly)
    ensures var server := Server(cat, order, favsOnly);
      var end := Scroll(FetchImages(c, true, server).cursor, n, server);
      !end.hasMore && end.files == Routes.Infos(cat, Routes.Selected(cat, order, favsOnly))
  {
    var server := Server(cat, order, favsOnly);
    var start := FetchImages(c, true, server).cursor;
    ResetLoads(c, cat, order, favsOnly);
    ScrollKeepsLoaded(start, n, cat, order, favsOnly);
    var end := Scroll(start, n, server);
    CompleteShowsSelection(end, cat, order, favsOnly);
  }
}

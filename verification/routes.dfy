/**
 * The media catalog behind the gallery (`app/routes.py`): a table of downloaded files
 * keyed by name, reconciled with the download directory, paged out to the browser,
 * and updated by the favorite, viewed and delete-viewed actions. The table is a map
 * from file name to row; the directory is a list of entries or a set of names.
 */
module Routes {
  import opened Wrappers
  import opened Text

  /** A catalog row. `mtime` is only ever used to order rows. */
  datatype Row = Row(favorite: bool, viewed: bool, width: int, height: int, mtime: int)

  type Catalog = map<string, Row>

  const AllowedExtensions: seq<string> := [".jpg", ".jpeg", ".png", ".gif", ".mp4", ".webm"]
  const VideoExtensions: seq<string> := [".mp4", ".webm"]

  /** The size the catalog gives every video without probing it. */
  const VideoWidth: int := 1920
  const VideoHeight: int := 1080

  /** `name.lower().endswith(exts)`. */
  predicate HasExtension(name: string, exts: seq<string>) {
    EndsWithAny(Lower(name), exts)
  }

  predicate EndsWithAny(s: string, suffixes: seq<string>) {
    suffixes != [] && (EndsWith(s, suffixes[0]) || EndsWithAny(s, suffixes[1..]))
  }

  // ---------------------------------------------------------------------------
  // Sync

  datatype Dims = Dims(width: int, height: int)

  /** A directory entry: its name, whether it is a regular file, its modification time,
      and the size an image probe reports (`None` when opening it as an image fails). */
  datatype DirEntry = DirEntry(name: string, isFile: bool, mtime: int, probe: Option<Dims>)

  predicate DistinctNames(entries: seq<DirEntry>) {
    forall i, j :: 0 <= i < j < |entries| ==> entries[i].name != entries[j].name
  }

  /** An entry the scan keeps: a file with one of the allowed extensions. */
  predicate Scanned(e: DirEntry) {
    e.isFile && HasExtension(e.name, AllowedExtensions)
  }

  function FoundNames(entries: seq<DirEntry>): set<string> {
    set e | e in entries && Scanned(e) :: e.name
  }

  /** The row sync inserts for a new file: not favorite, not viewed, videos at the fixed
      size, images at their probed size or 0 x 0. */
  function NewRow(e: DirEntry): (r: Row)
    ensures !r.favorite && !r.viewed && r.mtime == e.mtime
    ensures HasExtension(e.name, VideoExtensions) ==> r.width == VideoWidth && r.height == VideoHeight
    ensures !HasExtension(e.name, VideoExtensions) && e.probe.None? ==> r.width == 0 && r.height == 0
    ensures !HasExtension(e.name, VideoExtensions) && e.probe.Some? ==> r.width == e.probe.value.width && r.height == e.probe.value.height
  {
    if HasExtension(e.name, VideoExtensions) then Row(false, false, VideoWidth, VideoHeight, e.mtime)
    else match e.probe
      case Some(d) => Row(false, false, d.width, d.height, e.mtime)
      case None => Row(false, false, 0, 0, e.mtime)
  }

  /** Distinct names stay distinct in the tail, and the head's name is not among them. */
  lemma DistinctTail(es: seq<DirEntry>)
    requires es != [] && DistinctNames(es)
    ensures DistinctNames(es[1..])
    ensures forall x :: x in es[1..] ==> x.name != es[0].name
  {
    forall x | x in es[1..] ensures x.name != es[0].name {
      var k :| 0 <= k < |es[1..]| && es[1..][k] == x;
      assert es[k + 1] == x;
    }
  }

  /** The scanned entries whose names the catalog does not hold yet, in scan order. */
  function NewEntries(entries: seq<DirEntry>, existing: set<string>): (r: seq<DirEntry>)
    ensures forall e :: e in r <==> e in entries && Scanned(e) && e.name !in existing
    ensures DistinctNames(entries) ==> DistinctNames(r)
  {
    if entries == [] then []
    else
      var rest := NewEntries(entries[1..], existing);
      assert forall e :: e in entries <==> e == entries[0] || e in entries[1..];
      if Scanned(entries[0]) && entries[0].name !in existing then
        if DistinctNames(entries) then
          DistinctTail(entries);
          [entries[0]] + rest
        else [entries[0]] + rest
      else rest
  }

  /** `INSERT OR IGNORE` of each entry's new row. */
  function InsertOrIgnore(cat: Catalog, es: seq<DirEntry>): (r: Catalog)
    ensures forall n :: n in r <==> n in cat || exists e :: e in es && e.name == n
    ensures forall n :: n in cat ==> r[n] == cat[n]
    ensures DistinctNames(es) ==> forall e :: e in es && e.name !in cat ==> r[e.name] == NewRow(e)
    decreases |es|
  {
    if es == [] then cat
    else
      var e := es[0];
      var next := if e.name in cat then cat else cat[e.name := NewRow(e)];
      var r := InsertOrIgnore(next, es[1..]);
      assert forall x :: x in es <==> x == e || x in es[1..];
      if DistinctNames(es) then DistinctTail(es); r else r
  }

  /** The catalog after the insert step: unchanged when there is nothing new or the
      insert raised and was rolled back. */
  function SyncInsert(cat: Catalog, entries: seq<DirEntry>, insertFails: bool): (r: Catalog)
    requires DistinctNames(entries)
    ensures insertFails ==> r == cat
    ensures forall n :: n in r <==> n in cat || (!insertFails && n in FoundNames(entries))
    ensures forall n :: n in cat ==> n in r && r[n] == cat[n]
    ensures !insertFails ==> forall e :: e in entries && Scanned(e) && e.name !in cat ==> e.name in r && r[e.name] == NewRow(e)
  {
    var newOnes := NewEntries(entries, cat.Keys);
    assert forall e :: e in entries && Scanned(e) ==> e.name in FoundNames(entries);
    NewEntriesNames(entries, cat.Keys);
    if newOnes == [] || insertFails then cat else InsertOrIgnore(cat, newOnes)
  }

  /** The catalog after the delete step: the rows whose files were not found are gone,
      unless the delete raised and was rolled back. */
  function SyncDelete(inserted: Catalog, toDelete: set<string>, deleteFails: bool): (r: Catalog)
    ensures forall n :: n in r <==> n in inserted && (deleteFails || n !in toDelete)
    ensures forall n :: n in r ==> n in inserted && r[n] == inserted[n]
  {
    if toDelete == {} || deleteFails then inserted
    else map n | n in inserted && n !in toDelete :: inserted[n]
  }

  datatype SyncResult = SyncResult(catalog: Catalog, added: nat, removed: nat)

  /**
   * `sync_library`. `entries` is the download directory's listing (empty when the
   * directory does not exist); `insertFails` / `deleteFails` say whether the insert or
   * the delete statement raised, in which case that step is rolled back. The counts are
   * reported whether or not their step succeeded.
   */
  function SyncLibrary(cat: Catalog, entries: seq<DirEntry>, insertFails: bool, deleteFails: bool): (r: SyncResult)
    requires DistinctNames(entries)
    ensures r.added == |FoundNames(entries) - cat.Keys|
    ensures r.removed == |cat.Keys - FoundNames(entries)|
    ensures !insertFails && !deleteFails ==> forall n :: n in r.catalog <==> n in FoundNames(entries)
    ensures insertFails ==> forall n :: n in r.catalog ==> n in cat
    ensures deleteFails ==> forall n :: n in cat ==> n in r.catalog
    ensures forall n :: n in r.catalog ==> n in cat || n in FoundNames(entries)
    ensures forall n :: n in cat && n in FoundNames(entries) ==> n in r.catalog && r.catalog[n] == cat[n]
    ensures !deleteFails ==> forall n :: n in cat && n !in FoundNames(entries) ==> n !in r.catalog
    ensures forall n :: n in r.catalog && n in cat ==> r.catalog[n] == cat[n]
    ensures !insertFails ==> forall e :: e in entries && Scanned(e) && e.name !in cat ==>
      e.name in r.catalog && r.catalog[e.name] == NewRow(e)
  {
    var found := FoundNames(entries);
    NewEntriesCount(entries, cat.Keys);
    var inserted := SyncInsert(cat, entries, insertFails);
    var toDelete := cat.Keys - found;
    var kept := SyncDelete(inserted, toDelete, deleteFails);
    assert forall n :: n in found ==> n !in toDelete;
    assert forall e :: e in entries && Scanned(e) ==> e.name in found;
    SyncResult(kept, |NewEntries(entries, cat.Keys)|, |toDelete|)
  }

  lemma NewEntriesNames(entries: seq<DirEntry>, existing: set<string>)
    ensures (set e | e in NewEntries(entries, existing) :: e.name) == FoundNames(entries) - existing
  {
  }

  /** With distinct names in the directory, the new entries are as many as the new
      names. */
  lemma NewEntriesCount(entries: seq<DirEntry>, existing: set<string>)
    requires DistinctNames(entries)
    ensures |NewEntries(entries, existing)| == |FoundNames(entries) - existing|
  {
    NewEntriesNames(entries, existing);
    DistinctCount(NewEntries(entries, existing));
  }

  lemma {:induction false} DistinctCount(es: seq<DirEntry>)
    requires DistinctNames(es)
    ensures |(set e | e in es :: e.name)| == |es|
  {
    if es != [] {
      var rest := es[1..];
      DistinctTail(es);
      DistinctCount(rest);
      assert forall x :: x in es <==> x == es[0] || x in rest;
      assert (set e | e in es :: e.name) == {es[0].name} + (set e | e in rest :: e.name);
    }
  }

  /** A second sync of an unchanged directory adds and removes nothing and leaves the
      catalog as the first left it. */
  lemma SyncSettles(cat: Catalog, entries: seq<DirEntry>)
    requires DistinctNames(entries)
    ensures var once := SyncLibrary(cat, entries, false, false).catalog;
      var twice := SyncLibrary(once, entries, false, false);
      twice.catalog == once && twice.added == 0 && twice.removed == 0
  {
    var once := SyncLibrary(cat, entries, false, false).catalog;
    var twice := SyncLibrary(once, entries, false, false);
    var found := FoundNames(entries);
    assert found - once.Keys == {};
    assert once.Keys - found == {};
    assert twice.catalog.Keys == once.Keys;
  }

  // ---------------------------------------------------------------------------
  // Chunked deletion

  const ChunkSize: nat := 900

  function Concat<T>(xss: seq<seq<T>>): seq<T> {
    if xss == [] then [] else xss[0] + Concat(xss[1..])
  }

  /** `[xs[i:i + n] for i in range(0, len(xs), n)]`. */
  function Chunks<T>(xs: seq<T>, n: nat): (r: seq<seq<T>>)
    requires n > 0
    ensures forall i :: 0 <= i < |r| ==> 0 < |r[i]| <= n
    ensures Concat(r) == xs
    decreases |xs|
  {
    if xs == [] then []
    else if |xs| <= n then [xs]
    else
      var rest := Chunks(xs[n..], n);
      assert xs == xs[..n] + xs[n..];
      [xs[..n]] + rest
  }

  /** One `DELETE ... WHERE filename IN (...)` per chunk. */
  function DeleteChunks(cat: Catalog, chunks: seq<seq<string>>): (r: Catalog)
    ensures r == map n | n in cat && n !in Concat(chunks) :: cat[n]
  {
    if chunks == [] then cat
    else
      var next := map n | n in cat && n !in chunks[0] :: cat[n];
      var rest := DeleteChunks(next, chunks[1..]);
      assert forall n :: n in Concat(chunks) <==> n in chunks[0] || n in Concat(chunks[1..]);
      rest
  }

  /** Deleting a listing of names chunk by chunk removes exactly those names. */
  lemma ChunkedDeleteRemovesListed(cat: Catalog, names: seq<string>)
    ensures DeleteChunks(cat, Chunks(names, ChunkSize)) == map n | n in cat && n !in names :: cat[n]
  {
  }

  /** The deletion step of a sync, done chunk by chunk over any listing of the names to
      delete, leaves the catalog the sync returns. */
  lemma SyncDeletesInChunks(cat: Catalog, entries: seq<DirEntry>, listing: seq<string>)
    requires DistinctNames(entries)
    requires forall n :: n in listing <==> n in cat && n !in FoundNames(entries)
    ensures DeleteChunks(SyncInsert(cat, entries, false), Chunks(listing, ChunkSize)) == SyncLibrary(cat, entries, false, false).catalog
  {
    var inserted := SyncInsert(cat, entries, false);
    var toDelete := cat.Keys - FoundNames(entries);
    ChunkedDeleteRemovesListed(inserted, listing);
    assert forall n :: n in listing <==> n in toDelete;
    DeleteListed(inserted, toDelete, listing);
    assert SyncLibrary(cat, entries, false, false).catalog == SyncDelete(inserted, toDelete, false);
  }

  /** The delete step removes the same rows whichever form the set of names takes. */
  lemma DeleteListed(inserted: Catalog, toDelete: set<string>, listing: seq<string>)
    requires forall n :: n in listing <==> n in toDelete
    ensures SyncDelete(inserted, toDelete, false) == map n | n in inserted && n !in listing :: inserted[n]
  {
    var m := map n | n in inserted && n !in listing :: inserted[n];
    if toDelete == {} {
      assert forall n :: n in inserted ==> n in m;
      assert m.Keys == inserted.Keys;
    }
  }

  // ---------------------------------------------------------------------------
  // Paging

  datatype ImageInfo = ImageInfo(name: string, favorite: bool, viewed: bool, width: int, height: int)

  datatype ImagesReply = ImagesReply(files: seq<ImageInfo>, total: nat, hasMore: bool)

  predicate Distinct(names: seq<string>) {
    forall i, j :: 0 <= i < j < |names| ==> names[i] != names[j]
  }

  /** Rows named in `names` come in nondecreasing `mtime`. */
  predicate ByMtime(cat: Catalog, names: seq<string>)
    requires forall i :: 0 <= i < |names| ==> names[i] in cat
  {
    forall i, j :: 0 <= i < j < |names| ==> cat[names[i]].mtime <= cat[names[j]].mtime
  }

  /** `order` lists every catalog name once, in the order `ORDER BY mtime` returns. */
  predicate Lists(cat: Catalog, order: seq<string>) {
    && Distinct(order)
    && (forall i :: 0 <= i < |order| ==> order[i] in cat)
    && (forall n :: n in cat ==> n in order)
    && ByMtime(cat, order)
  }

  /** `xs` is `ys` with some elements dropped and the rest kept in their order. */
  predicate SubsequenceOf<T(==)>(xs: seq<T>, ys: seq<T>)
    decreases |ys|
  {
    if xs == [] then true
    else if ys == [] then false
    else (xs[0] == ys[0] && SubsequenceOf(xs[1..], ys[1..])) || SubsequenceOf(xs, ys[1..])
  }

  /** The names the query selects, in order: all of them, or only the favorites. */
  function Selected(cat: Catalog, order: seq<string>, favsOnly: bool): (r: seq<string>)
    requires forall i :: 0 <= i < |order| ==> order[i] in cat
    ensures forall n :: n in r <==> n in order && (favsOnly ==> cat[n].favorite)
    ensures forall i :: 0 <= i < |r| ==> r[i] in cat
  {
    if order == [] then []
    else
      var rest := Selected(cat, order[1..], favsOnly);
      assert forall n :: n in order <==> n == order[0] || n in order[1..];
      if !favsOnly || cat[order[0]].favorite then [order[0]] + rest else rest
  }

  /** The `WHERE` clause drops rows and keeps the others in `order`'s order. */
  lemma {:induction false} SelectedSubsequence(cat: Catalog, order: seq<string>, favsOnly: bool)
    requires forall i :: 0 <= i < |order| ==> order[i] in cat
    ensures SubsequenceOf(Selected(cat, order, favsOnly), order)
  {
    if order != [] {
      var rest := Selected(cat, order[1..], favsOnly);
      SelectedSubsequence(cat, order[1..], favsOnly);
      assert ([order[0]] + rest)[1..] == rest;
    }
  }

  /** A selection from an `order` without repeats has none either. */
  lemma {:induction false} SelectedDistinct(cat: Catalog, order: seq<string>, favsOnly: bool)
    requires forall i :: 0 <= i < |order| ==> order[i] in cat
    requires Distinct(order)
    ensures Distinct(Selected(cat, order, favsOnly))
  {
    if order != [] {
      var rest := Selected(cat, order[1..], favsOnly);
      assert Distinct(order[1..]);
      SelectedDistinct(cat, order[1..], favsOnly);
      if !favsOnly || cat[order[0]].favorite {
        ConsDistinct(order, rest);
      }
    }
  }

  /** A selection from an `order` sorted by `mtime` is sorted by `mtime`. */
  lemma {:induction false} SelectedByMtime(cat: Catalog, order: seq<string>, favsOnly: bool)
    requires forall i :: 0 <= i < |order| ==> order[i] in cat
    requires ByMtime(cat, order)
    ensures ByMtime(cat, Selected(cat, order, favsOnly))
  {
    if order != [] {
      var rest := Selected(cat, order[1..], favsOnly);
      assert ByMtime(cat, order[1..]);
      SelectedByMtime(cat, order[1..], favsOnly);
      if !favsOnly || cat[order[0]].favorite {
        ConsByMtime(cat, order, rest);
      }
    }
  }

  /** The head of an `order` without repeats is not repeated in a selection from its tail. */
  lemma ConsDistinct(order: seq<string>, rest: seq<string>)
    requires order != [] && Distinct(order)
    requires forall n :: n in rest ==> n in order[1..]
    requires Distinct(rest)
    ensures Distinct([order[0]] + rest)
  {
    var r := [order[0]] + rest;
    forall j | 0 < j < |r| ensures r[0] != r[j] {
      assert r[j] == rest[j - 1] && rest[j - 1] in rest;
      var k :| 0 <= k < |order[1..]| && order[1..][k] == r[j];
      assert order[k + 1] == r[j];
    }
  }

  /** The head of an `order` sorted by `mtime` is no newer than a selection from its tail. */
  lemma ConsByMtime(cat: Catalog, order: seq<string>, rest: seq<string>)
    requires order != [] && forall i :: 0 <= i < |order| ==> order[i] in cat
    requires forall i :: 0 <= i < |rest| ==> rest[i] in cat
    requires forall n :: n in rest ==> n in order[1..]
    requires ByMtime(cat, order) && ByMtime(cat, rest)
    ensures ByMtime(cat, [order[0]] + rest)
  {
    var r := [order[0]] + rest;
    forall j | 0 < j < |r| ensures cat[r[0]].mtime <= cat[r[j]].mtime {
      assert r[j] == rest[j - 1] && rest[j - 1] in rest;
      var k :| 0 <= k < |order[1..]| && order[1..][k] == r[j];
      assert order[k + 1] == r[j];
    }
  }

  /** Without the `WHERE` clause or with it, the selection has as many names as the
      `COUNT(*)` query counts rows: every catalog row, or every favorite row. */
  lemma {:induction false} SelectedCount(cat: Catalog, order: seq<string>, favsOnly: bool)
    requires Lists(cat, order)
    ensures |Selected(cat, order, favsOnly)| == |set n | n in cat && (favsOnly ==> cat[n].favorite)|
  {
    var sel := Selected(cat, order, favsOnly);
    assert (set n | n in cat && (favsOnly ==> cat[n].favorite)) == (set n | n in sel);
    SelectedDistinct(cat, order, favsOnly);
    DistinctSize(sel);
  }

  /** A sequence without repeats has as many elements as it has distinct elements. */
  lemma {:induction false} DistinctSize(names: seq<string>)
    requires Distinct(names)
    ensures |(set n | n in names)| == |names|
  {
    if names != [] {
      var rest := names[1..];
      assert Distinct(rest);
      DistinctSize(rest);
      assert (set n | n in names) == {names[0]} + (set n | n in rest);
    }
  }

  function Min(a: int, b: int): int {
    if a <= b then a else b
  }

  /** Where `OFFSET offset` starts among `n` rows: a negative offset counts as 0 and one
      past the end leaves nothing. */
  function Start(n: nat, offset: int): (s: nat)
    ensures s <= n
    ensures offset < 0 ==> s == 0
    ensures offset >= 0 ==> s == Min(offset, n)
  {
    if offset < 0 then 0 else if offset > n then n else offset
  }

  /** `LIMIT limit OFFSET offset` in SQLite; a negative limit means no limit. */
  function Window<T>(xs: seq<T>, offset: int, limit: int): (r: seq<T>)
    ensures |r| == if limit < 0 then |xs| - Start(|xs|, offset) else Min(limit, |xs| - Start(|xs|, offset))
    ensures Start(|xs|, offset) + |r| <= |xs| && r == xs[Start(|xs|, offset)..Start(|xs|, offset) + |r|]
  {
    var s := Start(|xs|, offset);
    if limit < 0 || s + limit > |xs| then xs[s..] else xs[s..s + limit]
  }

  /** The row a page starts at: `(page - 1) * limit`. */
  function Offset(page: int, limit: int): (r: int)
    ensures page >= 1 && limit >= 0 ==> r >= 0
  {
    (page - 1) * limit
  }

  /** With a positive page size the offset is a whole number of pages, and dividing it by
      the page size gives back the pages before `page`. */
  lemma OffsetPages(page: int, limit: int)
    requires limit > 0
    ensures Offset(page, limit) % limit == 0 && Offset(page, limit) / limit == page - 1
  {
    ExactDivision(page - 1, limit);
  }

  /** A multiple of `d` divides by `d` exactly, back to its factor. */
  lemma ExactDivision(q: int, d: int)
    requires d > 0
    ensures (q * d) % d == 0 && (q * d) / d == q
  {
    var a := q * d;
    var k := a / d - q;
    assert d * k == -(a % d);
  }

  function Info(cat: Catalog, n: string): ImageInfo
    requires n in cat
  {
    ImageInfo(n, cat[n].favorite, cat[n].viewed, cat[n].width, cat[n].height)
  }

  function Infos(cat: Catalog, names: seq<string>): (r: seq<ImageInfo>)
    requires forall i :: 0 <= i < |names| ==> names[i] in cat
    ensures |r| == |names| && forall i :: 0 <= i < |r| ==> r[i] == Info(cat, names[i])
  {
    seq(|names|, i requires 0 <= i < |names| => Info(cat, names[i]))
  }

  /** The `get_images` query from row `offset` on: the reply holds the info of the
      selection's `LIMIT limit OFFSET offset` window, the selection's size, and whether
      rows remain after the window. */
  function Query(cat: Catalog, order: seq<string>, offset: int, limit: int, favsOnly: bool): (r: ImagesReply)
    requires forall i :: 0 <= i < |order| ==> order[i] in cat
    ensures r.total == |Selected(cat, order, favsOnly)|
    ensures r.hasMore <==> offset + limit < r.total
    ensures r.files == Infos(cat, Window(Selected(cat, order, favsOnly), offset, limit))
    ensures favsOnly ==> forall i :: 0 <= i < |r.files| ==> r.files[i].favorite
  {
    var sel := Selected(cat, order, favsOnly);
    var rows := Window(sel, offset, limit);
    assert forall i :: 0 <= i < |rows| ==> rows[i] in sel;
    ImagesReply(Infos(cat, rows), |sel|, offset + limit < |sel|)
  }

  /** `get_images` for page `page` of `limit` rows. */
  function GetImages(cat: Catalog, order: seq<string>, page: int, limit: int, favsOnly: bool): ImagesReply
    requires forall i :: 0 <= i < |order| ==> order[i] in cat
  {
    Query(cat, order, Offset(page, limit), limit, favsOnly)
  }

  /** The reply for page `page` counts the matching rows and says whether rows follow
      page `page`. */
  lemma GetImagesCount(cat: Catalog, order: seq<string>, page: int, limit: int, favsOnly: bool)
    requires Lists(cat, order)
    ensures var r := GetImages(cat, order, page, limit, favsOnly);
      && r.total == |set n | n in cat && (favsOnly ==> cat[n].favorite)|
      && (r.hasMore <==> page * limit < r.total)
  {
    SelectedCount(cat, order, favsOnly);
    assert Offset(page, limit) + limit == page * limit;
  }

  /** The reply for page `page` holds the info of the selection's rows from the page's
      offset on, at most `limit` of them. */
  lemma GetImagesRows(cat: Catalog, order: seq<string>, page: int, limit: int, favsOnly: bool)
    requires forall i :: 0 <= i < |order| ==> order[i] in cat
    requires page >= 1 && limit >= 0
    ensures var r := GetImages(cat, order, page, limit, favsOnly);
      && |r.files| <= limit
      && forall i :: 0 <= i < |r.files| ==>
           Offset(page, limit) + i < |Selected(cat, order, favsOnly)|
           && r.files[i] == Info(cat, Selected(cat, order, favsOnly)[Offset(page, limit) + i])
  {
    GetImagesFiles(cat, order, page, limit, favsOnly);
    InfosWindow(cat, Selected(cat, order, favsOnly), Offset(page, limit), limit);
  }

  lemma GetImagesFiles(cat: Catalog, order: seq<string>, page: int, limit: int, favsOnly: bool)
    requires forall i :: 0 <= i < |order| ==> order[i] in cat
    ensures GetImages(cat, order, page, limit, favsOnly).files
      == Infos(cat, Window(Selected(cat, order, favsOnly), Offset(page, limit), limit))
  {
  }

  lemma InfosWindow(cat: Catalog, sel: seq<string>, offset: int, limit: int)
    requires forall i :: 0 <= i < |sel| ==> sel[i] in cat
    requires offset >= 0 && limit >= 0
    ensures var files := Infos(cat, Window(sel, offset, limit));
      && |files| <= limit
      && forall i :: 0 <= i < |files| ==> offset + i < |sel| && files[i] == Info(cat, sel[offset + i])
  {
    WindowRows(sel, offset, limit);
  }

  /** A window from a non-negative offset holds at most `limit` rows, each the row that
      many places past the offset. */
  lemma WindowRows<T>(xs: seq<T>, offset: int, limit: int)
    requires offset >= 0 && limit >= 0
    ensures |Window(xs, offset, limit)| <= limit
    ensures forall i :: 0 <= i < |Window(xs, offset, limit)| ==>
      offset + i < |xs| && Window(xs, offset, limit)[i] == xs[offset + i]
  {
    var r := Window(xs, offset, limit);
    if offset > |xs| {
      assert |r| == 0;
    } else {
      assert Start(|xs|, offset) == offset;
    }
  }

  /** With a positive page size, `has_more` says exactly that the next page has rows. */
  lemma HasMoreIffNextPage(cat: Catalog, order: seq<string>, page: int, limit: int, favsOnly: bool)
    requires Lists(cat, order)
    requires page >= 1 && limit > 0
    ensures GetImages(cat, order, page, limit, favsOnly).hasMore <==> GetImages(cat, order, page + 1, limit, favsOnly).files != []
  {
    var sel := Selected(cat, order, favsOnly);
    assert (page + 1 - 1) * limit == page * limit;
    assert Offset(page, limit) + limit == page * limit;
    assert page * limit >= 0;
  }

  /** The rows of pages `1..k`, one page after the other. */
  function Pages(cat: Catalog, order: seq<string>, k: nat, limit: int, favsOnly: bool): seq<ImageInfo>
    requires Lists(cat, order)
  {
    if k == 0 then [] else Pages(cat, order, k - 1, limit, favsOnly) + GetImages(cat, order, k, limit, favsOnly).files
  }

  /** Page `k` follows the pages before it. */
  lemma PagesUnfold(cat: Catalog, order: seq<string>, k: nat, limit: int, favsOnly: bool)
    requires Lists(cat, order) && k >= 1
    ensures Pages(cat, order, k, limit, favsOnly) == Pages(cat, order, k - 1, limit, favsOnly) + GetImages(cat, order, k, limit, favsOnly).files
  {
  }

  /** The first `m` rows of the selection (all of them when there are fewer). */
  function Head(cat: Catalog, order: seq<string>, m: int, favsOnly: bool): seq<ImageInfo>
    requires Lists(cat, order)
  {
    var sel := Selected(cat, order, favsOnly);
    if m <= 0 then [] else Infos(cat, sel[..Min(m, |sel|)])
  }

  /** `k` pages of `limit` rows hold `k * limit` rows, counted page by page. */
  function Rows(k: nat, limit: int): (m: int)
    ensures m == k * limit
  {
    if k == 0 then 0 else Rows(k - 1, limit) + limit
  }

  /** Pages `1..k` of a positive size tile the selection from its start: together they are
      its first `k * limit` rows (or all of them). */
  lemma {:induction false} PagesTile(cat: Catalog, order: seq<string>, k: nat, limit: int, favsOnly: bool)
    requires Lists(cat, order)
    requires limit > 0
    ensures Pages(cat, order, k, limit, favsOnly) == Head(cat, order, Rows(k, limit), favsOnly)
  {
    if k > 0 {
      var j: nat := k - 1;
      PagesTile(cat, order, j, limit, favsOnly);
      PagesStep(cat, order, j, limit, favsOnly);
      assert j + 1 == k;
    }
  }

  /** One more page extends the tiling by `limit` rows. */
  lemma PagesStep(cat: Catalog, order: seq<string>, j: nat, limit: int, favsOnly: bool)
    requires Lists(cat, order)
    requires limit > 0
    requires Pages(cat, order, j, limit, favsOnly) == Head(cat, order, Rows(j, limit), favsOnly)
    ensures Pages(cat, order, j + 1, limit, favsOnly) == Head(cat, order, Rows(j + 1, limit), favsOnly)
  {
    var o := Offset(j + 1, limit);
    NextOffset(j + 1, limit);
    TileStep(cat, order, o, limit, favsOnly);
  }

  /** The reply from `offset` extends the rows before `offset` to the rows before
      `offset + limit`. */
  lemma TileStep(cat: Catalog, order: seq<string>, offset: int, limit: int, favsOnly: bool)
    requires Lists(cat, order)
    requires offset >= 0 && limit > 0
    ensures Head(cat, order, offset, favsOnly) + Query(cat, order, offset, limit, favsOnly).files
      == Head(cat, order, offset + limit, favsOnly)
  {
    var sel := Selected(cat, order, favsOnly);
    var m0 := Min(offset, |sel|);
    var m := Min(offset + limit, |sel|);
    var q := Query(cat, order, offset, limit, favsOnly);
    assert Start(|sel|, offset) == m0;
    assert |Window(sel, offset, limit)| == m - m0;
    assert q.files == Infos(cat, sel[m0..m]);
    InfosSplit(cat, sel, m0, m);
    if offset == 0 {
      assert sel[..m0] == [];
    }
  }

  lemma InfosSplit(cat: Catalog, xs: seq<string>, m0: nat, m: nat)
    requires m0 <= m <= |xs|
    requires forall i :: 0 <= i < |xs| ==> xs[i] in cat
    ensures Infos(cat, xs[..m]) == Infos(cat, xs[..m0]) + Infos(cat, xs[m0..m])
  {
    var a := Infos(cat, xs[..m]);
    var b := Infos(cat, xs[..m0]) + Infos(cat, xs[m0..m]);
    forall i | 0 <= i < |a| ensures a[i] == b[i] {
      if i >= m0 {
        assert xs[m0..m][i - m0] == xs[i];
      }
    }
  }

  lemma NextOffset(k: int, limit: int)
    requires k >= 1 && limit > 0
    ensures Offset(k, limit) >= 0 && k * limit == Offset(k, limit) + limit
    ensures (k - 1) * limit == Offset(k, limit)
  {
  }

  // ---------------------------------------------------------------------------
  // Flags

  /** The row a flag update inserts for a name the catalog does not hold. */
  function Inserted(favorite: bool, viewed: bool): Row {
    Row(favorite, viewed, 0, 0, 0)
  }

  /** `toggle_favorite`: negate an existing row's favorite flag, or insert the name as a
      favorite; the reply carries the new value. */
  function ToggleFavorite(cat: Catalog, name: string): (r: (Catalog, bool))
    ensures name in r.0 && r.0[name].favorite == r.1
    ensures name in cat ==> r.1 == !cat[name].favorite && r.0 == cat[name := cat[name].(favorite := r.1)]
    ensures name !in cat ==> r.1 && r.0 == cat[name := Inserted(true, false)]
  {
    if name in cat then
      var v := !cat[name].favorite;
      (cat[name := cat[name].(favorite := v)], v)
    else (cat[name := Inserted(true, false)], true)
  }

  /** Toggling an existing row twice restores the catalog. */
  lemma ToggleTwiceRestores(cat: Catalog, name: string)
    requires name in cat
    ensures ToggleFavorite(ToggleFavorite(cat, name).0, name).0 == cat
  {
  }

  /** `mark_viewed`: mark an existing row viewed, or insert the name as viewed and not a
      favorite. */
  function MarkViewed(cat: Catalog, name: string): (r: Catalog)
    ensures name in r && r[name].viewed
    ensures r.Keys == cat.Keys + {name}
    ensures forall n :: n in cat && n != name ==> r[n] == cat[n]
    ensures name in cat ==> r[name] == cat[name].(viewed := true)
    ensures name !in cat ==> r[name] == Inserted(false, true)
  {
    if name in cat then cat[name := cat[name].(viewed := true)] else cat[name := Inserted(false, true)]
  }

  lemma MarkViewedIdempotent(cat: Catalog, name: string)
    ensures MarkViewed(MarkViewed(cat, name), name) == MarkViewed(cat, name)
  {
  }

  // ---------------------------------------------------------------------------
  // Delete viewed

  /** A row delete-viewed removes: viewed and not a favorite. */
  predicate Disposable(r: Row) {
    r.viewed && !r.favorite
  }

  datatype Cleanup = Cleanup(catalog: Catalog, disk: set<string>, deleted: nat)

  /** The final `DELETE ... IN (...)` of the names in `gone`; when it raises, every row stays. */
  function DeleteRows(cat: Catalog, gone: set<string>, deleteFails: bool): (kept: Catalog)
    ensures deleteFails ==> kept == cat
    ensures !deleteFails ==> forall n :: n in kept <==> n in cat && n !in gone
    ensures forall n :: n in kept ==> n in cat && kept[n] == cat[n]
  {
    if gone == {} || deleteFails then cat else map n | n in cat && n !in gone :: cat[n]
  }

  /**
   * `delete_viewed`. `rows` is the selection of disposable names in the order the query
   * returns them, `disk` the names present in the directory, and `failing` the names
   * whose removal raises. A file that exists is removed and counted; a row is deleted
   * unless removing its file raised, so a row whose file is already gone is deleted
   * without being counted. `deleteFails` says whether the final `DELETE` raised; the
   * files are gone by then and every row stays.
   */
  method DeleteViewed(cat: Catalog, rows: seq<string>, disk: set<string>, failing: set<string>, deleteFails: bool) returns (r: Cleanup)
    requires forall i, j :: 0 <= i < j < |rows| ==> rows[i] != rows[j]
    requires forall n :: n in rows <==> n in cat && Disposable(cat[n])
    ensures !deleteFails ==> forall n :: n in r.catalog <==> n in cat && !(Disposable(cat[n]) && (n !in disk || n !in failing))
    ensures deleteFails ==> r.catalog == cat
    ensures forall n :: n in r.catalog ==> r.catalog[n] == cat[n]
    ensures forall n :: n in r.disk <==> n in disk && !(n in cat && Disposable(cat[n]) && n !in failing)
    ensures r.deleted == |disk - r.disk|
    ensures forall n :: n in cat && cat[n].favorite ==> n in r.catalog && (n in disk ==> n in r.disk)
  {
    var gone, onDisk, count := RemoveFiles(rows, disk, failing);
    assert forall n :: n in gone <==> n in cat && Disposable(cat[n]) && (n !in disk || n !in failing);
    var kept := DeleteRows(cat, gone, deleteFails);
    r := Cleanup(kept, onDisk, count);
  }

  /** The loop of `delete_viewed` over the candidate names: a file that exists is removed
      and counted unless its removal raises; the name is kept for the row delete unless
      its removal raised. */
  method RemoveFiles(rows: seq<string>, disk: set<string>, failing: set<string>) returns (gone: set<string>, onDisk: set<string>, count: nat)
    requires forall i, j :: 0 <= i < j < |rows| ==> rows[i] != rows[j]
    ensures forall n :: n in gone <==> n in rows && (n !in disk || n !in failing)
    ensures forall n :: n in onDisk <==> n in disk && !(n in rows && n !in failing)
    ensures count == |disk - onDisk|
  {
    count := 0;
    gone := {};
    var removed: set<string> := {};
    onDisk := disk;
    var i := 0;
    while i < |rows|
      invariant 0 <= i <= |rows|
      invariant forall n :: n in gone <==> n in rows[..i] && (n !in disk || n !in failing)
      invariant forall n :: n in removed <==> n in rows[..i] && n in disk && n !in failing
      invariant onDisk == disk - removed
      invariant count == |removed|
    {
      var n := rows[i];
      assert rows[..i + 1] == rows[..i] + [n];
      assert forall j :: 0 <= j < i ==> rows[j] != n;
      GoneStep(rows[..i], n, gone, disk, failing);
      RemovedStep(rows[..i], n, removed, disk, failing);
      if n in onDisk {
        if n !in failing {
          onDisk := onDisk - {n};
          removed := removed + {n};
          count := count + 1;
          gone := gone + {n};
        }
      } else {
        gone := gone + {n};
      }
      i := i + 1;
    }
    assert rows[..i] == rows;
    assert disk - onDisk == removed;
  }

  /** One more candidate: its name goes on to the row delete unless its file exists and
      its removal raises. */
  lemma GoneStep(seen: seq<string>, n: string, gone: set<string>, disk: set<string>, failing: set<string>)
    requires forall m :: m in gone <==> m in seen && (m !in disk || m !in failing)
    ensures forall m :: m in (if n !in disk || n !in failing then gone + {n} else gone) <==>
      m in seen + [n] && (m !in disk || m !in failing)
  {
  }

  /** One more, unseen candidate: its file is removed when it exists and its removal does
      not raise. */
  lemma RemovedStep(seen: seq<string>, n: string, removed: set<string>, disk: set<string>, failing: set<string>)
    requires n !in seen
    requires forall m :: m in removed <==> m in seen && m in disk && m !in failing
    ensures n !in removed
    ensures forall m :: m in (if n in disk && n !in failing then removed + {n} else removed) <==>
      m in seen + [n] && m in disk && m !in failing
  {
  }
}

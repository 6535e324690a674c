# PixivWeb download engine and gallery catalog, modelled in Dafny

PixivWeb downloads artworks from Pixiv and shows them in a small web gallery. The
download engine exists in two revisions:

- **The legacy command-line script** (`pixiv_downloader.py`) filters artworks by a tag
  blacklist and whitelist. It sanitises names, queues one download job per file of an
  artwork, and crawls related artworks layer by layer. It retries a detail request that
  came back empty, with a growing wait. It can also download a user's bookmarks or works.
- **The web application's downloader** (`app/core/downloader.py`) is a later revision.
  Its filter uses the blacklist only and its sanitiser is wider. It keeps a URL's query
  string in the extension and does not retry. It adds related artworks to the next layer
  without filtering them, and it keeps whatever a failed video download wrote.

The Flask routes (`app/routes.py`) keep a catalog of the downloaded files. A sync
reconciles the catalog with the download directory, and the images query pages it out.
The favorite, viewed and delete-viewed actions update it. The browser script
(`app/static/js/main.js`) pulls catalog pages with an infinite-scroll cursor and builds
lightbox slides from the loaded files. Each slide carries the artwork id recovered from
the file name.

The Dafny modules follow that structure:

| module | file | contents |
|---|---|---|
| `Wrappers` | `wrappers.dfy` | `Option` |
| `Text` | `text.dfy` | decimal rendering and parsing, the `split` idioms, ASCII lower-casing, left-most pattern search |
| `Media` | `media.dfy` | artworks, tag rules, base and page names, jobs and their outcomes, the conversion-service reply, the artwork-URL parser |
| `Crawl` | `crawl.dfy` | the layered crawl both revisions run, parameterised by what one visit does |
| `PixivDownloader` | `pixiv_downloader.dfy` | the legacy script |
| `CoreDownloader` | `core_downloader.dfy` | the application's downloader |
| `Revisions` | `revisions.dfy` | where the two revisions agree and where they differ |
| `Routes` | `routes.dfy` | the catalog routes |
| `Gallery` | `gallery.dfy` | the browser's cursor, slides and artwork-id extraction |

**How the outside world is modelled:**

- **Pixiv API:** a function from (id, attempt number) to a detail reply, plus a function
  from id to a related reply.
- **The transfers and the conversion service:** functions from URL to result.
- **The download directory:** a set of names.
- **The catalog table:** a map from file name to row.
- **The regular-expression engine:** a `Matcher` parameter.
- **The worker pool:** runs a batch's jobs one after the other, in submission order.

Four points where the revisions part ways, or where the code is easy to misread:

- **Next-layer filter.** The legacy script adds only admitted related artworks to the
  next layer. The application adds every unprocessed one (`Revisions.DiscoveryRevisions`).
- **Jobs of a multi-page artwork.** Both revisions queue one job per `meta_pages` entry,
  whatever `page_count` says, so the model counts listed pages.
- **Sanitised characters.** Only the application replaces space and `#`
  (`Revisions.SanitisersAgree`).
- **Partial video files.** After a network failure during the video download, only the
  legacy script removes the partly written file. The application keeps it, and later runs skip it
  (`Revisions.VideoHttpError`).

## Model

Some functions are definitions that the rows below describe through lemmas about them:
- `Media.BaseName` by `Media.BaseNameChars`;
- `Media.PageName` by `Media.PageNameParts`;
- `Media.TargetName` by `Media.RunTransfer` and `Media.RunJobs`;
- `Routes.GetImages` by `Routes.GetImagesCount` and `Routes.GetImagesRows`;
- `Gallery.Scroll` by `Gallery.ScrollAppends`.

| member | source | states |
|---|---|---|
| Text.NatToString | pixiv_downloader.py:194 | An id rendered into a file name is a non-empty run of decimal digits, with no leading zero unless the id is 0 |
| Text.DigitsValueOfNatToString | pixiv_downloader.py:381-383 | Reading back the digits of a rendered id with `int()` gives the id |
| Text.NatToStringInjective | pixiv_downloader.py:194 | Distinct ids render to distinct digit strings |
| Text.DigitsBeforeStop | app/static/js/main.js:178 | A digit run ended by the same non-digit is determined by the joined text, so a capture cannot be read two ways |
| Text.AfterLast | pixiv_downloader.py:219 | `split('.')[-1]` gives a dot-free suffix that is the whole string or follows a dot |
| Text.AfterLastUnique | pixiv_downloader.py:219 | Those three properties fix the result: only one suffix has them |
| Text.AfterLastOfJoin | pixiv_downloader.py:219 | The part after an explicit separator is recovered |
| Text.BeforeFirst | pixiv_downloader.py:219 | `split('?')[0]` gives a `?`-free prefix that is the whole string or ends at a `?` |
| Text.BeforeFirstOfJoin | pixiv_downloader.py:219 | The part before an explicit separator is recovered |
| Text.Lower | app/routes.py:52 | Lower-casing keeps the length and lower-cases each character |
| Text.DigitRunEnd | pixiv_downloader.py:381 | A greedy `\d+` takes every digit from its start up to the first non-digit |
| Text.FirstMatch | pixiv_downloader.py:381 | A search finds the left-most position where the pattern matches, or reports that none does |
| Media.ReplaceEach | pixiv_downloader.py:113-117 | The chain of `replace` calls maps each listed character to the substitute and keeps every other character and the length |
| Media.ReplaceEachIdempotent | pixiv_downloader.py:113-117 | With a substitute that is not listed, replacing twice equals replacing once |
| Media.BaseNameChars | pixiv_downloader.py:192-194 | The base name `[{uid}_{artist}]_[{id}_{title}]` is bracketed, and each of its characters comes from the artist, the title, a decimal id or the literal `[`, `]` and `_` |
| Media.PageNameParts | pixiv_downloader.py:227 | The name `{base}_p{i}.{ext}` starts with the base name, and its last `.` segment is the extension whenever that has no `.` |
| Media.PageNamesDistinct | pixiv_downloader.py:225-228 | Two pages of one artwork never share a file name, whatever their extensions |
| Media.PageJobs | pixiv_downloader.py:225-228 | One transfer per listed page, in page order, named `{base}_p{i}.{ext}` after the page's URL |
| Media.JobsFor | pixiv_downloader.py:342-356 | Every job submitted for a list of artworks belongs to one of those artworks, and every job of every listed artwork is submitted |
| Media.RunTransfer | pixiv_downloader.py:119-130 | An existing target is skipped without a request. Otherwise one transfer is made, the outcome is Downloaded exactly when it succeeds, and a failed transfer may leave a partial file |
| Media.VideoUrl | pixiv_downloader.py:157-165 | A video address is obtained only from an `ok` reply with non-empty `data` whose first entry has a non-empty `preview.mp4` |
| Media.Take | pixiv_downloader.py:302 | `xs[:n]` is a prefix of the list: the first `n` entries, or the whole list when it is shorter |
| Media.RunJobs | pixiv_downloader.py:321-323 | A batch only adds files, adds only its jobs' targets, and holds the target of every job that downloaded |
| Media.RunJobsAllPresent | pixiv_downloader.py:119-123 | A batch whose targets all exist makes no request and changes nothing |
| Media.RunJobsCompletes | pixiv_downloader.py:119-126 | After a batch in which no job failed, every target exists |
| Media.RunJobsSettles | pixiv_downloader.py:119-126 | Re-running a batch that did not fail makes no request and leaves the directory as it was |
| Media.ParseArtworkId | pixiv_downloader.py:379-384 | The id is the value of the digits after the first `/artworks/`, and there is no id exactly when no such match exists |
| Media.ParseArtworkIdOfPageUrl | pixiv_downloader.py:379-384 | An artwork page URL gives back the id written into it |
| Media.FirstMatchIs | pixiv_downloader.py:381 | A match with none before it is the one the search finds |
| Crawl.Layer | pixiv_downloader.py:263-271 | One layer marks all its ids processed and visits each unprocessed id once. The next layer is what its visits discovered, all unprocessed when discovered |
| Crawl.Enumerate | pixiv_downloader.py:326 | The list made from the next-layer set holds exactly its ids |
| Crawl.Admitted | pixiv_downloader.py:297 | The artworks handed to the download pool are exactly the admitted ones the visits obtained |
| Crawl.Run | pixiv_downloader.py:256-329 | At most `depth + 1` layers run and a negative depth runs none. The processed set grows by exactly the visited ids, and no id is visited twice or after being processed |
| Crawl.LayerExpandsOnlyWhenAllowed | pixiv_downloader.py:299 | A layer adds to the next one only while layers remain |
| Crawl.RunDiscoveredFresh | pixiv_downloader.py:299-305 | Every id added to a next layer was unprocessed when it was added |
| Crawl.RunProvenance | pixiv_downloader.py:256-329 | The first layer visits only the seed list, and every later layer visits only ids discovered in the layer before |
| Crawl.RunStopsOnEmptyFrontier | pixiv_downloader.py:326-329 | The crawl continues past a layer only when that layer discovered something |
| Crawl.RunVisitsSatisfy | pixiv_downloader.py:263-315 | A property every single visit has holds of every visit of the crawl |
| PixivDownloader.IsIllustAllowed | pixiv_downloader.py:84-111 | The filter admits exactly an artwork with tags, matched by no blacklist pattern, and matched by some whitelist pattern when the whitelist is not empty |
| PixivDownloader.EmptyTagsAdmitted | pixiv_downloader.py:33-44 | With the shipped lists, a present but empty tag list is admitted |
| PixivDownloader.SafeFilename | pixiv_downloader.py:113-117 | Same length, none of the nine unsafe characters left, every other character kept |
| PixivDownloader.SafeFilenameIdempotent | pixiv_downloader.py:113-117 | Sanitising twice equals sanitising once |
| PixivDownloader.Extension | pixiv_downloader.py:219 | The extension has no `.` and no `?` |
| PixivDownloader.ExtensionIsLastSegment | pixiv_downloader.py:219 | The extension is the start of the URL's last `.` segment, cut at the first `?` or running to the end |
| PixivDownloader.ExtensionOfFileUrl | pixiv_downloader.py:204 | A file URL gives its extension with or without a query string |
| PixivDownloader.Resolve | pixiv_downloader.py:187-232 | An ugoira gets one video job, or with the static flag the large preview if present. A single page gets original-else-large, or nothing without a URL. A manga or multi-page artwork gets one job per listed page. All names start with the base name |
| PixivDownloader.RunUgoira | pixiv_downloader.py:132-185 | An existing video is skipped without a request. No video address abandons after one request, and otherwise the stream decides. A failed stream leaves no file |
| PixivDownloader.RunJob | pixiv_downloader.py:119-185 | Every job skips with no request and no change when its target exists, and otherwise can add only its own target |
| PixivDownloader.RunBatch | pixiv_downloader.py:321-323 | A batch only adds files, and only its jobs' targets |
| PixivDownloader.FailedVideoRetried | pixiv_downloader.py:179-182 | A failed video stream leaves no file behind, so the next run asks again |
| PixivDownloader.FetchDetail | pixiv_downloader.py:272-291 | 1 to 4 detail requests, waits of 120, 240, 360 seconds in order, every retried reply empty. It stops early only on a reply that is not empty |
| PixivDownloader.Attempt | pixiv_downloader.py:275-287 | From attempt `a` on: at most 4 requests in all, waits growing by 120 seconds, every retried reply empty. The last reply decides the artwork or the error, and the loop stops early only on a reply that is not empty |
| PixivDownloader.FetchWaitBound | pixiv_downloader.py:275-283 | One visit waits at most 720 seconds in all |
| PixivDownloader.Discover | pixiv_downloader.py:301-305 | Added to the next layer: exactly the examined related ids that are unprocessed and admitted |
| PixivDownloader.Visit1 | pixiv_downloader.py:268-315 | An artwork is queued exactly when the detail gave one the filter admits. Only while layers remain and the related call answered are its first 30 related artworks examined |
| PixivDownloader.DownloadRelatedRecursive | pixiv_downloader.py:251-331 | The crawl bounds, freshness, provenance and stopping rule above, and expansion only below `depth` |
| PixivDownloader.CrawlAdmitsOnlyAllowed | pixiv_downloader.py:293-305 | Every downloaded artwork, and every artwork whose id joined a next layer, passed the filter |
| PixivDownloader.FetchAll | pixiv_downloader.py:234-249 | Pages are read until one without `next_url` or a raised error. The listing is every `illusts` of the pages read, in order |
| PixivDownloader.SelectListing | pixiv_downloader.py:342-350 | Queued: exactly the listed artworks that are unprocessed and admitted, once per id. The processed set grows by exactly their ids |
| PixivDownloader.DownloadListing | pixiv_downloader.py:335-356 | Over the artworks of the pages read: the processed set grows by exactly the unprocessed admitted ids, every queued job belongs to such an artwork, and every such id has an artwork all of whose jobs are queued |
| PixivDownloader.QueuedJobs | pixiv_downloader.py:342-356 | The jobs of the queued artworks are exactly accounted for by the newly processed admitted artworks, in both directions |
| PixivDownloader.CheckArgs | pixiv_downloader.py:401-409 | A missing or zero id rejects the URL, then a negative depth is rejected. Otherwise the crawl starts from the parsed id |
| PixivDownloader.CheckArgsOfPageUrl | pixiv_downloader.py:379-409 | An artwork page URL with a positive id and a depth of at least 0 starts the crawl from that id |
| CoreDownloader.IsIllustAllowed | app/core/downloader.py:49-58 | The filter admits exactly an artwork with tags matched by no blacklist pattern |
| CoreDownloader.SafeFilename | app/core/downloader.py:60-64 | Same length, none of the eleven unsafe characters left, every other character kept |
| CoreDownloader.SafeFilenameIdempotent | app/core/downloader.py:60-64 | Sanitising twice equals sanitising once |
| CoreDownloader.Extension | app/core/downloader.py:110 | The extension is a dot-free suffix of the URL |
| CoreDownloader.ExtensionIsLastSegment | app/core/downloader.py:110 | The extension is the whole URL or follows its last `.`, and no other dot-free suffix does so |
| CoreDownloader.ExtensionKeepsQuery | app/core/downloader.py:110 | A query string after the extension stays in it |
| CoreDownloader.Resolve | app/core/downloader.py:99-116 | An ugoira gets one video job and a non-manga single page one original-else-large job. A multi-page artwork gets one job per listed page and a manga of one page none. All names start with the base name |
| CoreDownloader.RunUgoira | app/core/downloader.py:76-97 | An existing video is skipped without a request, and no video address abandons after one request. An error status on the GET still leaves a file |
| CoreDownloader.RunJob | app/core/downloader.py:66-97 | Every job skips with no request and no change when its target exists, and otherwise can add only its own target |
| CoreDownloader.RunBatch | app/core/downloader.py:125-136 | A batch only adds files, and only its jobs' targets |
| CoreDownloader.Discover | app/core/downloader.py:140-143 | Added to the next layer: exactly the examined related ids not yet processed, without a filter check |
| CoreDownloader.Visit2 | app/core/downloader.py:126-145 | One detail request and no wait. Queued exactly when the detail gave an admitted artwork. Expanded only while layers remain and the related call answered |
| CoreDownloader.DownloadRecursive | app/core/downloader.py:118-148 | The crawl bounds, freshness, provenance and stopping rule, with expansion only below `depth` |
| CoreDownloader.OneDetailRequestPerId | app/core/downloader.py:127-131 | A run asks for the details of each id at most once |
| CoreDownloader.StartCrawl | app/core/downloader.py:151-165 | The crawl starts only on a non-zero parsed id, with the depth unchecked |
| CoreDownloader.NegativeDepthVisitsNothing | app/core/downloader.py:118-165 | A negative depth runs no layer and processes nothing |
| Revisions.FilterRevisions | app/core/downloader.py:49-58 | The application admits all the legacy script admits. The converse holds exactly when the whitelist is empty or matches |
| Revisions.CoreIgnoresWhitelist | app/core/downloader.py:24-58 | The application's filter gives the same answer whatever the whitelist holds |
| Revisions.WhitelistSeparates | pixiv_downloader.py:97-109 | A whitelist matching no tag makes the legacy script reject what the application admits |
| Revisions.ShippedFiltersAgree | app/core/downloader.py:24-25 | With the lists each revision ships, the filters coincide |
| Revisions.SanitisersCompose | app/core/downloader.py:60-64 | The application's sanitiser absorbs the legacy one |
| Revisions.SanitisersAgree | app/core/downloader.py:61 | The sanitisers agree on a name exactly when it has no space and no `#` |
| Revisions.ExtensionsAgree | app/core/downloader.py:110 | The two extensions agree on a URL without `?` |
| Revisions.ExtensionsDifferOnQuery | app/core/downloader.py:110 | A query string separates them: the legacy script drops it, the application keeps it |
| Revisions.ResolveAgrees | app/core/downloader.py:99-116 | With plain names, query-free URLs and a single-page URL, both revisions queue the same jobs unless the artwork is a manga of at most one page |
| Revisions.MangaOfOnePage | app/core/downloader.py:108-112 | For a manga of one page, the legacy script queues each listed page and the application nothing |
| Revisions.SinglePageWithoutUrl | app/core/downloader.py:108-111 | A single page whose URLs are both empty: the legacy script queues nothing, the application a transfer of the empty URL into `{base}.` |
| Revisions.LegacySingleWithoutUrl | pixiv_downloader.py:211-217 | The legacy script queues nothing for a single page whose URLs are both empty |
| Revisions.CoreSingleWithoutUrl | app/core/downloader.py:108-111 | The application queues a transfer of the empty URL into `{base}.` for a single page whose URLs are both empty |
| Revisions.VideoHttpError | app/core/downloader.py:93-95 | After an error status on the video GET, the legacy script keeps no file. The application keeps one that every later run skips |
| Revisions.VideoOutcomesAgree | app/core/downloader.py:76-97 | The revisions agree on whether the video was obtained, and the legacy script never keeps more files |
| Revisions.FirstReplyDecides | pixiv_downloader.py:272-291 | When the first reply is not empty, the retry loop makes one request and ends where the application does |
| Revisions.DiscoveryRevisions | app/core/downloader.py:140-143 | The application's next layer holds the legacy one's and also unprocessed rejected artworks |
| Routes.NewRow | app/routes.py:58-71 | A new row is neither favorite nor viewed. A video gets 1920x1080, an image its probed size or 0x0 |
| Routes.NewEntries | app/routes.py:48-57 | New entries: exactly the scanned files with an allowed extension whose names the catalog lacks |
| Routes.InsertOrIgnore | app/routes.py:75-78 | `INSERT OR IGNORE` adds the new names and leaves every existing row as it was |
| Routes.SyncInsert | app/routes.py:73-82 | The insert step adds exactly the new found names with their new rows, or nothing when it raised |
| Routes.SyncDelete | app/routes.py:87-98 | The delete step removes the names not found, or nothing when it raised |
| Routes.SyncLibrary | app/routes.py:40-100 | The counts are the new and vanished names. Vanished names are removed unless the delete raised, whatever the insert did. New found names are added unless the insert raised. Every row that stays keeps its value, and with neither step raising the catalog holds exactly the found names |
| Routes.NewEntriesNames | app/routes.py:55-71 | The new entries' names are the found names minus the existing ones |
| Routes.NewEntriesCount | app/routes.py:100 | With distinct directory names, `added` counts the new names |
| Routes.SyncSettles | app/routes.py:40-100 | A second sync of an unchanged directory adds and removes nothing and leaves the catalog unchanged |
| Routes.Chunks | app/routes.py:89-92 | Chunks are non-empty, at most the chunk size, and together are the list |
| Routes.DeleteChunks | app/routes.py:91-94 | Deleting chunk by chunk removes exactly the names in the chunks |
| Routes.ChunkedDeleteRemovesListed | app/routes.py:89-94 | Chunks of 900 remove exactly the listed names |
| Routes.SyncDeletesInChunks | app/routes.py:84-95 | The chunked delete over any listing of the names to delete gives the synced catalog |
| Routes.Selected | app/routes.py:112-125 | The query selects exactly the listed rows, or only the favorite ones |
| Routes.SelectedSubsequence | app/routes.py:112-125 | The selection keeps the catalog order: it is the order with the filtered-out names dropped |
| Routes.SelectedDistinct | app/routes.py:112-125 | The selection repeats no name when the order does not |
| Routes.SelectedByMtime | app/routes.py:123 | The selection comes in nondecreasing `mtime` when the order does |
| Routes.SelectedCount | app/routes.py:112-117 | The selection has as many names as `SELECT COUNT(*)` counts over the rows the filter keeps |
| Routes.DistinctSize | app/routes.py:116-117 | A list without repeats has as many entries as its set of names |
| Routes.Window | app/routes.py:124 | `LIMIT`/`OFFSET` give a contiguous slice of at most `limit` rows |
| Routes.Start | app/routes.py:124 | SQLite's `OFFSET` skips the first `offset` rows, none when it is negative and all when it is past the end |
| Routes.Infos | app/routes.py:129-137 | One record per selected row, in order |
| Routes.Query | app/routes.py:116-143 | `total` counts the selection, `has_more` holds exactly when `offset + limit < total`, the files are the selected window, and favorites-only returns only favorites |
| Routes.Offset | app/routes.py:110 | The offset of a page from 1 on is never negative |
| Routes.OffsetPages | app/routes.py:110 | The offset is a whole number of pages: `page - 1` pages of `limit` rows |
| Routes.GetImagesCount | app/routes.py:104-143 | `total` is the number of catalog rows the filter keeps, and `has_more` holds exactly when `page * limit < total` |
| Routes.GetImagesRows | app/routes.py:104-143 | At most `limit` rows, the i-th being the row at position `(page - 1) * limit + i` of the selection |
| Routes.InfosWindow | app/routes.py:124-137 | The records of a window are the rows from its offset, at most `limit` of them |
| Routes.HasMoreIffNextPage | app/routes.py:110-142 | With a positive page size, `has_more` holds exactly when the next page has rows |
| Routes.PagesTile | app/routes.py:110-127 | Pages 1 to k together are the first `k * limit` rows of the selection |
| Routes.PagesUnfold | app/routes.py:104-143 | Page `k` follows pages 1 to `k - 1` |
| Routes.TileStep | app/routes.py:110-127 | A page from `offset` continues the rows before `offset` |
| Routes.ToggleFavorite | app/routes.py:147-162 | An existing row's flag is negated and returned, and a missing name is inserted as favorite, not viewed |
| Routes.ToggleTwiceRestores | app/routes.py:151-155 | Toggling an existing row twice restores the catalog |
| Routes.MarkViewed | app/routes.py:166-179 | The name ends up viewed. An existing row keeps its other fields, a missing one is inserted as viewed, not favorite, and other rows are unchanged |
| Routes.MarkViewedIdempotent | app/routes.py:170-175 | Marking viewed twice equals marking once |
| Routes.DeleteViewed | app/routes.py:183-207 | Only viewed non-favorites are candidates and favorites are never removed. A candidate row goes unless removing its file raised, and every row stays when the final `DELETE` raises. `deleted` counts only files that existed |
| Routes.RemoveFiles | app/routes.py:189-199 | Each candidate file that exists is removed and counted unless its removal raises. A name goes on to the row delete unless its removal raised |
| Routes.DeleteRows | app/routes.py:201-204 | The `DELETE ... IN` removes exactly the listed rows and keeps the others unchanged, or removes nothing when it raises |
| Gallery.IllustId | app/static/js/main.js:178-179 | The id is the digits of the left-most `_[digits_` match, else of the left-most `digits_p` match, and null exactly when neither pattern matches anywhere |
| Gallery.IllustIdOfTagged | app/static/js/main.js:178 | A name whose first `_[` is followed by `<id>_` gives back that id |
| Gallery.IllustIdOfDownloadedFile | app/static/js/main.js:178-179 | Every file either downloader writes, for an artist name without `[`, shows its artwork's id |
| Gallery.BaseNameId | app/static/js/main.js:178 | A name starting with a base name yields the base name's id |
| Gallery.SlideOf | app/static/js/main.js:176-206 | A video slide at 1920x1080, otherwise an image whose width and height are the known ones when positive and 800 otherwise. The slide carries the id, name and favorite flag |
| Gallery.Side | app/static/js/main.js:181-182 | A positive side is kept, and any other becomes 800 |
| Gallery.Ext | app/static/js/main.js:177 | The extension is the lower-cased last `.` segment of the name, or the whole name lower-cased when it has no `.` |
| Gallery.BuildDataSource | app/static/js/main.js:174-175 | One slide per loaded file, in order |
| Gallery.ExtIffEndsWith | app/static/js/main.js:177 | For a name with a `.`, the extension is `ext` exactly when the lower-cased name ends with `.ext` |
| Gallery.VideoChecksAgree | app/static/js/main.js:180 | On a name with a `.`, the gallery plays exactly the files the catalog sizes as videos |
| Gallery.BareExtension | app/static/js/main.js:177-180 | A bare `mp4` is a video to the gallery but not to the catalog |
| Gallery.FetchImages | app/static/js/main.js:74-172 | A call while loading does nothing, and a reset asks for page 1. Without more pages nothing is asked. A failed request keeps files and page and still expects more pages, and a reply appends its files and advances the page exactly when `has_more` |
| Gallery.ResetLoads | app/static/js/main.js:81-95 | A reset leaves the cursor holding the first page |
| Gallery.FetchKeepsLoaded | app/static/js/main.js:88-165 | Scrolling on keeps the cursor holding the first pages of the selection |
| Gallery.FetchNextLoads | app/static/js/main.js:94-165 | A scroll that expects more pages fetches the next one and keeps the cursor holding the first pages |
| Gallery.FetchAppends | app/static/js/main.js:94-165 | A scroll that gets a reply appends its files, and moves to the next page and keeps expecting more exactly when `has_more` |
| Gallery.PageLoads | app/static/js/main.js:96-165 | Appending page `p` to pages 1 to `p - 1` and advancing exactly when `has_more` leaves the cursor loaded |
| Gallery.MoreAfterPage | app/static/js/main.js:159-165 | The server reports more pages after page `p` exactly when `p` pages fall short of the selection |
| Gallery.ScrollAppends | app/static/js/main.js:312-315 | Scrolling never removes or reorders loaded files and never moves the page back |
| Gallery.ScrollKeepsLoaded | app/static/js/main.js:159-165 | Any number of scrolls keeps it loaded, one page further each time while more follow |
| Gallery.ScrollStops | app/static/js/main.js:88 | Once no more pages follow, scrolling changes nothing |
| Gallery.CompleteShowsSelection | app/static/js/main.js:159-165 | A loaded cursor expecting no more pages shows the whole selection in catalog order |
| Gallery.ScrollShowsSelection | app/static/js/main.js:74-172 | After a reset and enough scrolling, the gallery shows exactly the catalog's selection |

## Left out

- Network, authentication and the Pixiv client are left out. The API, the transfers and the conversion service are parameters. Re-authentication during a retry is taken to succeed, since its failure ends the process.
- The worker pools are left out: the model runs a batch's jobs one after the other. Jobs target distinct names, so the order does not change which files exist.
- `time.sleep` is left out, and each wait is recorded as a number of seconds. Process exits, `argparse` and all printing and logging are left out too.
- Media.ParseArtworkId: digits are ASCII only. On a `str`, Python's `\d` and `int()` also accept other Unicode decimal digits, so a URL such as `/artworks/` followed by Arabic-Indic digits gives an id in the source and none in the model. The same holds for `CheckArgs` and `StartCrawl`, which use it.
- Regular expressions are left out: tag matching is a `Matcher` parameter. The `/artworks/(\d+)` and gallery-id patterns are written out as predicates.
- The order of a `set` turned into a list (the next layer) is taken as ascending id order. CPython's hash order is not modelled.
- A URL the API leaves out is the empty string. Where Python would raise on `None`, the model goes on with `""`. Two consequences follow:
  - In the application, a `None` single-page URL raises at app/core/downloader.py:109-110, inside the per-id `try`. That id then queues nothing and is not expanded, while `CoreDownloader.Visit2` still queues its empty-URL transfer and expands it.
  - In the legacy script, a `None` page URL raises at pixiv_downloader.py:226-227. The download pool at pixiv_downloader.py:321-323 runs outside the per-id `try` of pixiv_downloader.py:270-315, so the error ends the crawl. The model goes on.
- Lower-casing covers ASCII only.
- A local error while writing the video (an `OSError` from `f.write`) is not modelled. In the legacy script it reaches the outer handler at pixiv_downloader.py:184-185 instead of the cleanup at pixiv_downloader.py:179-182, so both revisions keep the partial file. `Media.StreamResult` has only the network outcomes.
- SQLite is left out: the catalog is a map. `ORDER BY mtime` is an `order` parameter listing every name once in nondecreasing `mtime`. The tie order among equal `mtime` values is left to that parameter.
- PIL's image probe is left out: it is a per-entry parameter, with a failure leaving 0x0.
- A missing download directory counts as an empty listing.
- A catalog that changes between two page requests of the gallery is not modelled.
- Routes.SyncLibrary: the counts are stated for a directory listing without repeated names, which a real directory guarantees.
- Routes.DeleteViewed: file removal is parameters, the present names and the names whose removal raises. The candidate query is an input listing each candidate once. A raised final `DELETE` is the `deleteFails` input. The request then answers with a server error instead of the `deleted` count, and the model still computes the count.
- Routes.ToggleFavorite: a request without a `filename` field (`None`) is not modelled.
- Gallery.FetchImages: the `runSync` call, the DOM, lazy loading, the decode and metadata waits, and the error message are not modelled. `server` gives the reply to a page request, or none on failure.
- Gallery.SlideOf: the HTML of a video slide and the duplicated `msrc` and `data.src` fields are not modelled. The slide keeps one `src`.
- `server.py`, `app/__init__.py`, `app/data/database.py`, `start_download`, `serve_image` and the index route are not part of this model. The same holds for the clipboard, PhotoSwipe, the view observer and the auto-sync timer.

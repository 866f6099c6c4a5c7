# A verified model of the site's scripts and CMS helpers

This project models the logic behind a personal web site. It has three browser scripts and three small PHP classes:

- **Scroll snap** (`js/scrollSnap.js`, module `ScrollSnap`). A controller caches the page's `.snappable` sections that have a header. When a header enters the upper half of the viewport, the controller animates the page onto that section. Each animation frame closes 15% of the remaining distance, and at least 1px. A scroll lock stops a second animation from starting while one runs. The active section's index selects one of four colour classes for the body. The controller state (`obj` and `scrollAction`) is the class `SnapController`. Sections are objects of class `Section`, because the script compares them by identity and rebuilds them on every cache. Geometry read from the browser is given as parameters: bounding rectangles, page offset and viewport height. Positions are `real`.
- **Gallery data** (`js/githubGallery.js`, module `GithubGallery`). This script lists a GitHub directory. It keeps the image files, sorts them by name, and turns each file name into a photo record. The record holds a title, an optional `YYYY-MM-DD` date and the raw-content URLs. The result is cached in localStorage under the latest commit SHA of the directory. The two HTTP responses are parameters. localStorage is the value `Storage`.
- **Gallery page** (`js/gallery.js`, module `Gallery`). This script builds one list item per photo, each with a caption and a caption id. It also runs a lightbox, which arrow keys step through with wrap-around. The list is the class `GalleryView`. The lightbox and `lastTrigger` are the class `Lightbox`.
- **CMS** (`cms/*.php`, modules `CmsArticle`, `CmsApplication`, `CmsFileReader`, with shared PHP semantics in `Php`):
  - an `Article` reads its backing file on first use and keeps the contents
  - an `Application` stores the configuration and derives the article directory with a trailing slash
  - a `FileReader` drops `.` and `..` from a directory listing

`JsText` holds the JavaScript string built-ins the gallery relies on: `split` and `join` on one character, `trim`, and ASCII `toUpperCase`. `Wrappers` holds `Option` and `Result`. `Sequences` defines subsequence.

Facts about the code that a reader might expect otherwise:

- **Only what the scroll-snap code does.** The controller has no look-ahead snapping, no free scrolling inside tall sections, no hysteresis margin and no per-frame re-check of the target. None of these is modelled.
- **No stuck lock after a resize.** A resize during an animation cannot leave the lock set:
  - `easedScroll` never reads the section list.
  - `cacheSections` leaves the lock and `scrollAction` alone.
  - `Recalculate` and `ResizeHandler` state this, and `RunAnimation` proves that every animation ends with the lock released.
- **Stale active section.** After a rebuild, the active section is an object that is in no new list (`Recalculate` states this). The next scroll event can therefore select the same section again.
- **Title date prefix.** The title's date-prefix strip runs after every hyphen has become a space, so it never matches (`DateStripNeverMatches`). A dated file name keeps its date in the title, as "2024 01 15 …".
- **Path in URLs.** The `path` argument of `fetchGalleryData` reaches only the API URLs. Photo URLs are built from owner, repo, branch and file name.

## Model

| member | source | states |
|---|---|---|
| ScrollSnap.StepSize | js/scrollSnap.js:53-54 | When the distance is at least 1px, the step `max(1, 0.15·distance)` is at least 1px, at most the distance, and at least 15% of it |
| ScrollSnap.NextFrame | js/scrollSnap.js:33-63 | One frame lands exactly on the target iff the distance is under 1px. Otherwise it moves toward the target without overshooting, and the distance shrinks by at least 1px |
| ScrollSnap.FrameRate | js/scrollSnap.js:52-60 | Far from the target a frame removes exactly 15% of the distance. Near it, a frame removes exactly 1px |
| ScrollSnap.FramesToLand | js/scrollSnap.js:33-63 | An animation lasts at least one frame and at most ⌊distance⌋+1 frames, so it always ends |
| ScrollSnap.InHeaderBand | js/scrollSnap.js:80-87 | A header counts as in view iff its top is at or below the viewport's top and at most half the viewport height down. A negative viewport height admits no header |
| ScrollSnap.FirstCandidate | js/scrollSnap.js:80-108 | The section the scroll handler picks is the first in list order that is not active and whose header top lies in [0, 0.5·viewport height]. None means no section qualifies |
| ScrollSnap.FirstCandidateIs | js/scrollSnap.js:93-108 | A position that qualifies, with none qualifying before it, is exactly what the forward scan of the scroll handler picks |
| ScrollSnap.FirstCandidateNone | js/scrollSnap.js:93-108 | When no section qualifies, the scroll handler picks none |
| ScrollSnap.LastReached | js/scrollSnap.js:149-160 | The section chosen at start-up is the last in list order whose top is at most 100px below the scroll offset. None means no section qualifies |
| ScrollSnap.LastReachedIs | js/scrollSnap.js:150-159 | A reached position with no reached position after it is exactly what the downward scan returns |
| ScrollSnap.LastReachedNone | js/scrollSnap.js:150-160 | When no section is reached, start-up activates none |
| ScrollSnap.SnappableEntries | js/scrollSnap.js:125-142 | The cached entries: only elements with a header, in document order. Each entry's index is its position among all snappable elements. Indices strictly increase, and every element with a header is present |
| ScrollSnap.SnappableEntriesExtend | js/scrollSnap.js:130-141 | One more element adds one entry exactly when it has a header |
| ScrollSnap.Recolor | js/scrollSnap.js:65-78 | Non-colour classes are kept. With a section, exactly `colorClasses[index % 4]` remains; with none, no colour class. Never more than one colour class |
| ScrollSnap.Section.constructor | js/scrollSnap.js:135-139 | A section records its element and its position among the snappable elements |
| ScrollSnap.SnapController.Init | js/scrollSnap.js:144-163 | Start-up caches the sections and activates and recolours for the LastReached section, or for none, with the lock free |
| ScrollSnap.SnapController.ActivateInitial | js/scrollSnap.js:149-160 | The upward scan activates and recolours for the LastReached section, and with none changes nothing. Sections, lock, action and page are untouched |
| ScrollSnap.SnapController.CacheSections | js/scrollSnap.js:125-142 | The section list is replaced by fresh objects for SnappableEntries. Lock, action, active section and page are untouched |
| ScrollSnap.NewSections | js/scrollSnap.js:125-142 | The scan over the elements makes one fresh section object per element with a header, in document order: its entries are SnappableEntries |
| ScrollSnap.SnapController.Recalculate | js/scrollSnap.js:166-168 | Only the section list is rebuilt. Lock, animation and active reference are unchanged, and the old active object is in no new list |
| ScrollSnap.SnapController.ResizeHandler | js/scrollSnap.js:114-117 | The resize handler does the same rebuild as Recalculate, with the same guarantees |
| ScrollSnap.SnapController.SnapToSection | js/scrollSnap.js:18-31 | While locked nothing changes. Otherwise the lock is taken, and current offset, target (rect top + offset) and section are recorded |
| ScrollSnap.SnapController.Step | js/scrollSnap.js:33-63 | A frame follows NextFrame. Landing writes the exact target, activates the target section, clears the record and releases the lock. Moving updates the page and the record's current offset |
| ScrollSnap.SnapController.RunAnimation | js/scrollSnap.js:33-63 | Frames run until the lock is released: after exactly FramesToLand frames, on the target, with the target section active |
| ScrollSnap.SnapController.AnimateSection | js/scrollSnap.js:65-78 | The body classes become Recolor of the old ones for the section's index, or for none when the section is null |
| ScrollSnap.SnapController.ScrollHandler | js/scrollSnap.js:89-112 | While locked nothing changes. Otherwise the FirstCandidate section is activated, snapped to and recoloured for; with no candidate nothing changes |
| JsText.TrimStart | js/githubGallery.js:112 | The longest suffix not starting with JS whitespace; everything dropped is whitespace |
| JsText.TrimEnd | js/githubGallery.js:112 | The longest prefix not ending with JS whitespace; everything dropped is whitespace |
| JsText.LeadingSpaces | js/githubGallery.js:112 | The count of leading JS whitespace characters: all of them are whitespace and the next character, if any, is not |
| JsText.TrailingSpaces | js/githubGallery.js:112 | The count of trailing JS whitespace characters: all of them are whitespace and the character before them, if any, is not |
| JsText.Trim | js/githubGallery.js:112 | `trim()` is the contiguous part of the input right after the leading whitespace, has no whitespace at either end, and everything after it is whitespace, so it is the longest such stretch |
| JsText.SplitOn | js/githubGallery.js:116 | `split(' ')` gives at least one piece, and no piece contains the separator |
| JsText.JoinWith | js/githubGallery.js:118 | `join(' ')` of n ≥ 1 pieces starts with the first piece and has their total length plus n − 1 separators |
| JsText.JoinSplit | js/githubGallery.js:116-118 | Joining the pieces of a split gives back the string |
| JsText.SplitJoin | js/githubGallery.js:116-118 | Splitting a join of separator-free pieces gives back the pieces |
| JsText.Upper | js/githubGallery.js:117 | `toUpperCase` maps each ASCII lower-case letter to its upper-case letter, 32 code points lower, and keeps every other character |
| JsText.UpperKeepsNonLetters | js/githubGallery.js:117 | Upper-casing never creates or removes whitespace, hyphens, underscores or spaces |
| GithubGallery.FilterImages | js/githubGallery.js:45-47 | An entry is kept iff its type is "file" and its name ends in .jpg/.jpeg/.png/.gif/.webp, ignoring case. Each image entry is kept as often as the listing holds it, and listing order is kept |
| GithubGallery.InsertByName | js/githubGallery.js:50 | Inserting into a name-sorted list gives a name-sorted permutation with one more entry |
| GithubGallery.SortByName | js/githubGallery.js:50 | The sort result is a permutation of the images, ordered by the name comparison |
| GithubGallery.StripExtension | js/githubGallery.js:109 | The result is a prefix of the name. It is shorter exactly when `/\.[^/.]+$/` matches, and then it ends where the match starts |
| GithubGallery.ReplaceSeparators | js/githubGallery.js:110 | Every hyphen and underscore becomes a space, and nothing else changes |
| GithubGallery.StripDatePrefix | js/githubGallery.js:111 | The date replace: without a leading YYYY-MM-DD the input is kept; with one, the date and exactly the whitespace after it are removed |
| GithubGallery.DateStripNeverMatches | js/githubGallery.js:108-112 | The date-prefix replace never applies, because hyphens are already spaces, so it leaves its input unchanged |
| GithubGallery.RawTitle | js/githubGallery.js:108-112 | The title before capitalisation is the trimmed, extension-less name with its separators as spaces, never longer than the name |
| GithubGallery.CapitalizeWord | js/githubGallery.js:117 | Only the first character of a word is upper-cased; the rest and the length are kept |
| GithubGallery.CapitalizeAll | js/githubGallery.js:116-117 | Every word is capitalised, in place |
| GithubGallery.FormatTitleWords | js/githubGallery.js:115-118 | Splitting the joined capitalised words gives back those words: the same number, each the capitalised original |
| GithubGallery.FormatTitleChars | js/githubGallery.js:115-118 | Capitalising and joining only upper-cases characters: same length, every other character kept |
| GithubGallery.FormatTitle | js/githubGallery.js:115-118 | The formatted title has the same number of space-separated words, each the capitalised original, and differs from the title only by upper-cased characters |
| GithubGallery.RawTitleShape | js/githubGallery.js:108-112 | The raw title has no hyphen or underscore and no whitespace at either end |
| GithubGallery.TitleShape | js/githubGallery.js:108-118 | The photo title has no hyphen or underscore and no whitespace at either end. It is the raw title with some letters upper-cased |
| GithubGallery.ExtractDate | js/githubGallery.js:121-122 | The date is present iff the name starts with YYYY-MM-DD, and then it is those ten characters |
| GithubGallery.ExtractDateOfDatedName | js/githubGallery.js:121-122 | A name that starts with a date yields exactly that date, whatever follows |
| GithubGallery.TransformToPhoto | js/githubGallery.js:103-138 | fullImage, src and srcset are all the raw base URL + "/" + name. alt equals title (the formatted raw title). Size is 1200×800. date is ExtractDate, and dateDisplay is null exactly when date is, and when the date is present dateDisplay is formatDate of it |
| GithubGallery.BuildPhotos | js/githubGallery.js:45-53 | The photos are the transform of the sorted image entries, one per entry and in the same order |
| GithubGallery.TransformAll | js/githubGallery.js:53 | The map makes one photo per entry, in order, each the TransformToPhoto of its entry |
| GithubGallery.BuildPhotosCoversImages | js/githubGallery.js:45-53 | There are as many photos as image entries, and every image entry of the listing gives a photo |
| GithubGallery.CheckCache | js/githubGallery.js:158-173 | A cache exists iff both entries are stored and the SHA is non-empty, and then it holds them |
| GithubGallery.CacheData | js/githubGallery.js:180-188 | Both entries are stored, and checkCache reads them back unless the SHA is empty |
| GithubGallery.ClearCache | js/githubGallery.js:193-197 | Both entries are removed, and checkCache then finds no cache |
| GithubGallery.LatestCommitSha | js/githubGallery.js:83-93 | A failed or non-ok request throws. Otherwise the first commit's SHA, or "" when there is no commit or SHA |
| GithubGallery.Fallback | js/githubGallery.js:60-72 | The catch block returns the cached photos iff a cache exists, and otherwise rethrows the same error |
| GithubGallery.FetchGalleryData | js/githubGallery.js:19-73 | A failed commit request goes to the catch block without requesting the contents. A cache at the latest SHA is returned as it is. Otherwise the contents are requested: a failure goes to the catch block with NetworkError or the status error, and a listing gives BuildPhotos, which is returned and cached at the latest SHA |
| GithubGallery.CacheHitIffShaMatches | js/githubGallery.js:19-30 | Once the latest SHA is known, the contents are skipped iff a cache exists with that SHA. Then the cached photos are returned and storage is untouched |
| GithubGallery.EmptyShaNeverHits | js/githubGallery.js:27-30 | With an empty latest SHA the cache never matches, so the contents are always requested |
| GithubGallery.ErrorsFallBackToCache | js/githubGallery.js:60-72 | A call fails only without a cache. A failure of either request returns the cached photos or rethrows its own error (NetworkError, or the status error of that request), and leaves storage unchanged |
| GithubGallery.MissFetchesAndCaches | js/githubGallery.js:32-58 | On a cache miss with a listing, the contents are requested, the photos built from the listing are returned, and they are stored with the latest SHA |
| GithubGallery.FreshFetchIsCached | js/githubGallery.js:27-58 | When the commit request gives a non-empty SHA and the listing arrives, the call succeeds, whether it hit the cache or not. A second call at the same SHA is a hit returning the same photos |
| Gallery.Caption | js/gallery.js:55-59 | The caption starts with the title, and is longer iff dateDisplay is truthy. Then " — " and dateDisplay follow |
| Gallery.Decimal | js/gallery.js:61 | A number's decimal numeral is non-empty, made only of digits, and canonical: no leading zero, except that 0 is written "0" |
| Gallery.DecimalRoundTrip | js/gallery.js:61 | Reading the numeral back gives the number |
| Gallery.CaptionId | js/gallery.js:61 | The caption id is "cap-" followed by the numeral of index + 1 |
| Gallery.CaptionIdInjective | js/gallery.js:61-62 | Different indices give different caption ids |
| Gallery.DecimalInjective | js/gallery.js:61 | Different numbers have different numerals |
| Gallery.CreateGalleryItem | js/gallery.js:42-109 | The button is described by the figcaption's id, the caption id. It carries data-full and Caption. A `<time>` follows the title iff date and dateDisplay are both truthy |
| Gallery.GalleryView.constructor | js/gallery.js:28 | The gallery list starts empty |
| Gallery.GalleryView.PopulateGallery | js/gallery.js:115-124 | Old items are dropped and there is one item per photo, in photo order, with pairwise distinct caption ids |
| Gallery.JsRemainder | js/gallery.js:184-185 | JavaScript `%`: the dividend minus n times its truncated quotient. It lies strictly between −n and n, with the sign of the dividend |
| Gallery.NextIndex | js/gallery.js:185 | ArrowRight stays in range, goes to the next button, and wraps from the last to the first. From no current button it goes to 0 |
| Gallery.PrevIndex | js/gallery.js:184 | ArrowLeft stays in range, goes to the previous button, and wraps from the first to the last. From no current button it goes to n−2 (0 when n = 1) |
| Gallery.RemainderNearRange | js/gallery.js:184-185 | For a dividend from -n up to 2n, JavaScript's `%` by n is the dividend moved by at most one n into range, which is what makes the arrow keys wrap |
| Gallery.ArrowsAreInverse | js/gallery.js:184-185 | Left then right, or right then left, returns to the same button |
| Gallery.IndexOf | js/gallery.js:182 | indexOf gives the first position holding the trigger, or −1 when it is absent or null |
| Gallery.IndexOfPosition | js/gallery.js:181-182 | Among distinct buttons, indexOf finds each button at its own position |
| Gallery.Lightbox.constructor | js/gallery.js:34 | The lightbox starts hidden and empty, with no last trigger |
| Gallery.Lightbox.OpenLightbox | js/gallery.js:146-161 | The trigger is recorded and the lightbox shown, with the button's data-full, image alt (or "") and caption (or "") |
| Gallery.Lightbox.CloseLightbox | js/gallery.js:163-171 | The lightbox is hidden, image source and caption are emptied, and lastTrigger becomes null |
| Gallery.Lightbox.KeyDown | js/gallery.js:176-188 | While hidden nothing changes. Escape closes and keeps the alt text. The arrows open the PrevIndex/NextIndex button of lastTrigger's position, with its data-full, alt and caption. Other keys change nothing |
| Gallery.Lightbox.ActivateButton | js/gallery.js:130-144 | A click, Enter or Space on a gallery button opens the lightbox on it, with its data-full, alt and caption. Anything else changes nothing |
| Gallery.Lightbox.OverlayClick | js/gallery.js:191-193 | A click on the overlay itself closes the lightbox and keeps the alt text. A click on its content changes nothing |
| Gallery.Lightbox.ImageFailed | js/gallery.js:196-198 | A failed image load replaces the caption text with "Image failed to load." and nothing else |
| CmsFileReader.Fetch | cms/FileReader.php:5-9 | Fetch returns the file's contents, or false when it cannot be read |
| CmsFileReader.FilterFilenames | cms/FileReader.php:19-26 | A name is rejected iff it is "." or ".." |
| CmsFileReader.FilterFilenamesKeepsAllButDirectoryEntries | cms/FileReader.php:19-26 | "." and ".." are rejected; every other name, dot-files included, is kept |
| CmsFileReader.GetFilenames | cms/FileReader.php:11-17 | Kept entries keep their listing keys and order. They are exactly the accepted names, and never "." or ".." |
| CmsApplication.NormalizeDirectory | cms/Application.php:24-27 | The result ends in "/". It is the directory itself when that already ends in "/", otherwise the directory plus one "/" |
| CmsApplication.NormalizeDirectoryIdempotent | cms/Application.php:21-29 | Normalising twice is the same as normalising once |
| CmsApplication.Application.constructor | cms/Application.php:10 | The configuration starts empty |
| CmsApplication.Application.SetConfig | cms/Application.php:16-19 | The configuration is replaced by the given one |
| CmsApplication.Application.GetArticleDirectory | cms/Application.php:21-29 | The configured article_directory with a trailing "/", as NormalizeDirectory states. A missing key gives "/" |
| CmsArticle.ReadThrough | cms/Article.php:22-29 | A cached value that is not loosely null stands. A loosely null one (null, false, "") is replaced by the fetched value |
| CmsArticle.ReadOnce | cms/Article.php:22-29 | Once a read yields a value that is not loosely null, every later read returns it |
| CmsArticle.EmptyIsRefetched | cms/Article.php:22-28 | An empty or false read is not kept: the next read fetches again |
| CmsArticle.Article.Make | cms/Article.php:46-47 | The article records its backing file and reader, with no id and no contents |
| CmsArticle.Article.New | cms/Article.php:36-48 | A loosely null backing file (null, false, "") throws first, then a null reader throws. Otherwise an article with no contents is made |
| CmsArticle.Article.GetId | cms/Article.php:11-14 | GetId returns the stored id |
| CmsArticle.Article.SetId | cms/Article.php:15-18 | The id is replaced, and contents are untouched |
| CmsArticle.Article.GetContents | cms/Article.php:20-30 | The file is fetched, exactly once, only when the cached contents are loosely null. The new contents are ReadThrough and are returned |
| CmsArticle.Article.SetContents | cms/Article.php:31-34 | The contents are replaced without a fetch, and the id is untouched |
| CmsArticle.ReadTwice | cms/Article.php:20-30 | A second read returns the first read's value unless that value was loosely null, in which case it returns what the file holds then. Each read fetches exactly when the contents it finds are loosely null |

## Left out

- The DOM is modelled only by the values the scripts read and write. Creating elements, `<picture>`/`<source>` attributes, focus handling, `body.style.overflow`, `preventDefault` and event-listener wiring are not modelled.
- `requestAnimationFrame` and `cancelAnimationFrame` are not modelled as a scheduler. `RunAnimation` runs `Step` until the lock is released, and animation frame ids are dropped.
- `window.scrollTo` is modelled as the field `windowY`. The live scroll offset the browser may change between events is a parameter of each handler.
- Positions are exact `real` numbers, not IEEE doubles. Rounding of the 0.15 easing is not modelled.
- `Recolor` and `AnimateSection` model the body's class list as a set, so the order of class tokens is not modelled.
- `isHeaderInViewport` reads `window.innerHeight` and the header's rectangle. Both are parameters.
- `fetch` and `response.json()` are modelled as `Response` values: a network failure, or a status with a parsed body. URLs and request headers are not modelled.
- A body that fails to parse is not modelled.
- localStorage is two optional slots. The `JSON.stringify`/`JSON.parse` round trip is assumed exact.
- Exceptions from localStorage reads, and a failed `setItem` (quota), are not modelled.
- The `console` logging is not modelled.
- `formatDate` depends on `Date` and the browser locale, and is a function parameter.
- `localeCompare` is an abstract total preorder `leq` on names, passed as a parameter. `SortByName` is an insertion sort by that order. It does not claim the same order among equal names as the engine's sort.
- `Upper` and `Lower` cover ASCII letters only. Unicode case mapping is not modelled.
- `/\.(jpg|…)$/i` and `/\s/` are modelled directly: case-insensitive ASCII comparison and the JavaScript whitespace set. No general regular-expression engine is modelled.
- The initial `aria-hidden` state of the lightbox comes from HTML that is not part of this model. `Gallery.Lightbox.constructor` assumes it starts hidden.
- With no gallery buttons, the arrow keys compute `NaN` and `openLightbox(undefined)` throws before any change. `KeyDown` models this as no change.
- `Gallery.Lightbox.KeyDown` and the close handlers do not model the focus restored to `lastTrigger`.
- `file_get_contents` and `scandir` are modelled as a map from paths to contents and a listing parameter. The `SCANDIR_SORT_DESCENDING` order is whatever that listing holds.
- PHP values are null, false and strings (`Php.PhpValue`). Other types a caller could pass to `SetId`, `SetContents` or the constructor are not modelled.
- `CmsArticle.Article.New` also models a null `FileReader`, although PHP's type declaration would reject null before the check.
- `Application::GetConfig` is private and only returns the field, so it is not modelled separately. `config` is a map from strings to strings.
- `CmsApplication.Application.GetArticleDirectory`: PHP's warning for a missing configuration key is not modelled.
- cms/Bootstrap.php, index.php and ConfigurationReader.php are not part of this model. They are the page template and configuration loading, with no logic of their own here.

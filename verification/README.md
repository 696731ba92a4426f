# artgallery in Dafny

This project models the core of *artgallery*, a small Node.js tool. The tool
imports the Web Gallery of Art catalog into an SQLite `art` table, downloads
the artwork images the table does not have yet, and turns the most recently
downloaded artworks into desktop wallpapers with ImageMagick. The model covers
the following, in the program's own terms:

- **Aspect-fit scaling** (`scaling.dfy`). `calculateScaledImageDimensions` and
  `scaledDimensions` are one function over exact reals. Its branches, its
  aspect preservation and its maximality ("as much room as possible without
  cutting off any of the image") are proved.
- **Wallpaper composition** (`imaging.dfy`).
  - ImageMagick's `convert` is an oracle from a call to its outcome. The three
    wallpaper writers run their calls in order inside one `try`, so the first
    failure ends the composition.
  - The `%w,%h` dimension string is parsed with `Number.parseInt`
    (`decimal.dfy`).
  - The caption is the lines joined with `'\n'`.
  - The annotate geometry is `+o+o`.
- **The three wallpaper writers**:
  - `wallpapers.dfy`: src/wallpapers.js, the five-line outlined caption, plus
    `create`'s nested record × size loop;
  - `wallpaper_src.dfy`: src/wallpaper.js, four lines, no outline;
  - `wallpaper_root.dfy`: wallpaper.js, the template caption, no canvas
    measurement.
- **Metadata normalisation** (`normalize.dfy` on `casing.dfy`).
  - `title` is lodash `startCase(lowerCase(t))` over a declared ASCII word
    model.
  - `artist` first applies the unanchored `/(\w+), ?(.*)/` reorder, searched
    leftmost-first.
  - `date` and `technique` are identities.
- **Catalog import** (`catalog.dfy`): `convertToImageUrl`, the CSV row →
  record mapping with its fixed provenance and `Unknown …` defaults, and
  `updateDatabase` offering every record to the table.
- **The `art` table** (`store.dfy`), as a state machine over rowid-ordered
  rows:
  - the schema constraints (primary key `art_id`, `url` NOT NULL UNIQUE,
    `file_name` without default, timestamps at insert);
  - the memoised `get`;
  - the INSERT, the `file_name` UPDATE, and the two SELECT … LIMIT queries.
- **The image downloader** (`images.dfy`):
  - `createFileName`;
  - the `download` loop, as a method that keeps the table and an event trace
    of fetches, saves and pauses. The HTTP fetch, the UPDATE's outcome and
    the clock are parameters.

JavaScript's `undefined`/`NaN`/`Infinity` results and rejected promises are
`None`. A rejected query (`getRecords`, `getRecordsMissingImages`, reading the
catalog) is an `Option` argument of the operation that awaits it.

Where the prose description of the system and the code differ, the model
follows the code:

- The wallpaper defaults are lower-case (`'Unknown title'`). Only the
  catalog's artist and title defaults pass through the normalisers, which
  store them as `Unknown Artist` / `Unknown Title`.
- The downloader's UPDATE has no `file_name IS NULL` guard. It overwrites the
  file name of whatever row has the id.
- wallpaper.js resizes the artwork against the requested canvas size and
  never measures the canvas. The src/ writers measure the canvas they have
  just created.
- src/wallpapers.js outlines the caption with `-stroke` and puts the location
  before the technique.

## Model

| member | source | states |
|---|---|---|
| Scaling.Fit | src/wallpapers.js:153-169 | For positive dimensions a size always results. It has the image's aspect ratio, lies inside the canvas and touches the canvas width or height. The aspects are compared as JavaScript numbers, so a zero height is an Infinity (or `0/0` a NaN) aspect. A size with Infinity or NaN in it is `None`, which needs a zero image dimension. |
| Scaling.AspectComparison | src/wallpapers.js:156-159 | On positive dimensions the JavaScript comparison of the two quotients agrees with comparing `iw*ch` against `cw*ih`. |
| Scaling.FitZeroHeight | src/wallpapers.js:156-167 | An image of zero height gets the canvas width at height 0. On a canvas of zero height every image of positive size becomes 0×0. Zero heights on both sides, or a 0×0 image, give a NaN size. |
| Scaling.FitWide | src/wallpapers.js:159-163 | A relatively wider image gets the canvas width and height `ih*cw/iw`, which is strictly below the canvas height. |
| Scaling.FitTall | src/wallpapers.js:164-168 | Otherwise the image gets the canvas height and width `iw*ch/ih` ≤ the canvas width. At equal aspect ratios it is exactly the canvas size. |
| Scaling.FitIsLargest | src/wallpapers.js:144-146 | Every size with the image's aspect ratio that fits the canvas is no wider and no taller than the computed size. |
| Scaling.FitExamples | src/wallpapers.js:153-169 | 3000×2000 on 1920×1080 gives 1620×1080; 4000×1000 gives 1920×480. |
| Decimal.ParseIntOfNatToString | src/wallpapers.js:174-175 | `Number.parseInt` reads back the number that a template literal rendered. |
| Imaging.ParseDimensions | src/wallpapers.js:172-176 | An answer without a comma leaves the height NaN (`undefined` parsed). |
| Imaging.ParseFormatDimensions | src/wallpapers.js:171-177 | Parsing ImageMagick's `%w,%h` answer for a w×h image gives back width w and height h. |
| Imaging.ScaledSize | src/wallpapers.js:153-177 | A NaN among the parsed dimensions makes the `>` comparison of the two aspects false, so the height-fit branch runs. A size results only when the NaN is the canvas width and the image height is not 0, and then it has the canvas height and the image's aspect ratio. |
| Imaging.CanvasArgs | src/wallpapers.js:100-102 | The canvas call has four arguments: `-size`, the geometry, `canvas:` followed by the background colour, and the target file. |
| Imaging.CanvasGeometry | src/wallpapers.js:100-102 | The `WxH` geometry splits at its one `x` into two numerals, which `parseInt` reads back as the requested width and height. |
| Imaging.OffsetGeometrySymmetric | src/wallpapers.js:139 | The annotate geometry splits at `+` into an empty prefix and the offset twice, so both axes get the same offset. The offset reads back as the number. |
| Imaging.TextBlockLines | src/wallpapers.js:130 | When no line holds a newline, splitting the joined caption at newlines gives back exactly the lines, in order. |
| Imaging.AnnotateArgs | src/wallpapers.js:129-142 | The annotate call has this shape: the file edited in place, gravity, fill colour, and `-stroke` with the outline colour exactly when the writer outlines. Then `-font` and the font, `-pointsize` and the point size's numeral, `-annotate` with the `+o+o` geometry, and the text. |
| Imaging.AnnotatePointSize | src/wallpapers.js:138 | The argument after `-pointsize` reads back through `parseInt` as the requested point size. |
| Imaging.AddImageAndText | src/wallpapers.js:111-115 | The artwork is queried first. The composite uses the size fitted from the queried dimensions. A complete run ends with the annotation. The run stops at the first failing call. |
| Imaging.MeasureAndAdd | src/wallpapers.js:111-113 | The canvas's own size is queried before the artwork is added. The run stops at the first failing call. |
| Imaging.Compose | src/wallpapers.js:82-89 | The canvas call comes first. Every call before the last succeeded, and the run failed exactly when the last call did. The run is complete exactly when all steps ran and the last succeeded. A complete run ends with the annotation. |
| Imaging.ComposeScalesToFit | src/wallpapers.js:111-115 | When the canvas reports its requested size and the artwork reports iw×ih, the composite step resizes the artwork to the fitted size. |
| Wallpapers.Lines | src/wallpapers.js:85 | The caption is title, artist, date, location and technique, in that order. Each is the given value or its `Unknown …` text. |
| Wallpapers.CreateWallpaper | src/wallpapers.js:58-90 | It throws "Input image must be provided" exactly when the artwork path is absent or empty, before any ImageMagick call. Otherwise it composes and catches failures, and a complete run is five calls ending in an outlined annotation. |
| Wallpapers.CaptionLines | src/wallpapers.js:85-86 | The annotated text splits back into the five caption lines. |
| Wallpapers.CreateWallpaperDefaults | src/wallpapers.js:59-74 | With only the artwork given, the canvas is a 2650×1440 black `wallpaper.jpg`. The caption is white with a black outline, Ubuntu 28 pt, at `+25+25` northeast, with the five `Unknown …` lines. |
| Wallpapers.WallpaperFileNameInjective | src/wallpapers.js:25 | `${w}x${h}-${file}` names are equal only for the same size and the same artwork file. |
| Wallpapers.PathJoinInjective | src/wallpapers.js:25 | Joining one directory with two names gives equal paths only for equal names. |
| Wallpapers.PairOptions | src/wallpapers.js:16-30 | The options for one pair carry the joined artwork path (never empty, so the emptiness guard never fires inside the loop) and the joined `WxH-file` wallpaper path. They also carry the size, `southeast` with offset 50, and the record's title, artist, date, location and technique. Every other option is left to its default. |
| Wallpapers.PlanIndexing | src/wallpapers.js:15-33 | The nested loop's outcomes number records × sizes. The pair (record i, size j) sits at index `i*|sizes|+j`, in record-major order, and is the wallpaper of that record in that size with `southeast` and offset 50. Every pair is composed. |
| Wallpapers.Create | src/wallpapers.js:8-34 | A rejected query rejects `create` with no wallpaper. Otherwise the selection is the recent one for `max`, 100 when absent. There is one composition per (record, size) pair in record-major order, and a failure in one pair does not stop the others. |
| Wallpapers.CreateAll | src/wallpapers.js:15-33 | The loop's outcomes are the row-major grid of the pair function over records and sizes. |
| SrcWallpaper.Lines | src/wallpaper.js:46 | The caption is title, artist, date and medium, in that order. Each is the given value or its `Unknown …` text. |
| SrcWallpaper.Create | src/wallpaper.js:23-50 | It throws exactly when the artwork path is absent or empty. Otherwise at most five calls run, stopping at the first failure, and a complete run ends in an annotation without `-stroke`. |
| SrcWallpaper.CaptionLines | src/wallpaper.js:88-89 | The annotated text splits back into the four caption lines. |
| SrcWallpaper.CreateScalesToFit | src/wallpaper.js:111-127 | The artwork is composited at the same fitted size as in src/wallpapers.js. |
| RootWallpaper.CaptionIsTextBlock | wallpaper.js:44 | The template caption equals the four lines joined with `'\n'` and splits back into them. |
| RootWallpaper.Wallpaper | wallpaper.js:4-49 | It throws "Input image location must be provided" exactly when the input image is absent or empty. Otherwise at most four calls run, stopping at the first failure, and a complete run ends in an annotation without `-stroke`. |
| RootWallpaper.WallpaperScalesToFit | wallpaper.js:51-71 | The artwork is queried right after the canvas, and composited at the fitted size for the requested canvas. This is the same function as in src/, with the canvas arguments first. |
| Normalize.Title | src/catalog/wgoa/normalize.js:4-6 | `startCase(lowerCase(t))` is the input's words (apostrophes removed), each capitalised, joined by single spaces. |
| Normalize.TitleShape | src/catalog/wgoa/normalize.js:4-6 | The title reads back as its own word list. Every word starts with a non-lower-case character and has no upper-case letter after it, and there are as many words as in the input. |
| Normalize.TitleIdempotent | src/catalog/wgoa/normalize.js:4-6 | Normalising a normalised title changes nothing. |
| Normalize.TitleExamples | src/catalog/wgoa/normalize.test.js:3-9 | `title('') == ''` and `title('this is a test') == 'This Is A Test'`. |
| Normalize.LeftmostMatch | src/catalog/wgoa/normalize.js:12-13 | The match is the leftmost position where a `\w` run is followed by a comma. |
| Normalize.ArtistWithoutWordComma | src/catalog/wgoa/normalize.js:12-18 | The pattern matches exactly when some word character precedes a comma. Without one, `artist` is `title`. |
| Normalize.ArtistGroups | src/catalog/wgoa/normalize.js:12-15 | The surname is the whole `\w` run before the first word-comma, and text before it is dropped. The given names are what follows the comma and at most one space, up to the end of the line. |
| Normalize.TitleHasNoComma | src/catalog/wgoa/normalize.js:4-6 | A normalised title holds no comma. |
| Normalize.ArtistIdempotent | src/catalog/wgoa/normalize.js:12-18 | Normalising a normalised artist name changes nothing: no word-comma is left to reorder. |
| Normalize.ArtistExamples | src/catalog/wgoa/normalize.test.js:11-21 | `artist('') == ''`; `'Lenny BRUCE'` and `'BRUCE, Lenny'` both become `'Lenny Bruce'`. |
| Casing.SnakeCaseAlphabet | src/images.js:129 | `snakeCase` output holds only lower-case letters, digits and `_`. |
| WebGalleryOfArt.FindFrom | src/catalog/wgoa/webGalleryOfArt.js:65 | The result is the leftmost occurrence of the pattern at or after the start, or none when there is none. |
| WebGalleryOfArt.ReplaceHtmlSuffix | src/catalog/wgoa/webGalleryOfArt.js:65 | A string that does not end in `.html` is unchanged. One that does becomes one character shorter, keeps everything before the suffix, and ends in `.jpg`. |
| WebGalleryOfArt.ReplaceHtmlSuffixIdempotent | src/catalog/wgoa/webGalleryOfArt.js:65 | Rewriting twice is rewriting once, and any `p.html` becomes `p.jpg`. |
| WebGalleryOfArt.ConvertPageUrl | src/catalog/wgoa/webGalleryOfArt.js:64-66 | A page URL `p/html/x.html` whose first `/html/` follows `p` becomes `p/art/x.jpg`. |
| WebGalleryOfArt.OnlyFirstOccurrence | src/catalog/wgoa/webGalleryOfArt.js:65 | Only the first `/html/` is replaced (no global flag). Every later occurrence is still there, one place to the left. |
| WebGalleryOfArt.InnerHtmlKept | src/catalog/wgoa/webGalleryOfArt.js:65 | Any `.html` that is not at the very end survives the suffix rewrite in place. |
| WebGalleryOfArt.ConvertWithoutPatterns | src/catalog/wgoa/webGalleryOfArt.js:64-66 | A URL with neither pattern is returned unchanged, so a missing URL maps to `''`. |
| WebGalleryOfArt.ToRecord | src/catalog/wgoa/webGalleryOfArt.js:31-45 | Every record has catalog `Web Gallery of Art` and license `unknown`. A missing column gives its `Unknown …` default (`''` for URL). A present URL goes through the image-url rewrite, AUTHOR through `artist` and TITLE through `title`. Date, technique, location, form, type, school and timeframe pass through unchanged. |
| WebGalleryOfArt.RecordIsNormalised | src/catalog/wgoa/webGalleryOfArt.js:31-45 | A record's artist, title and image url are normal forms: normalising or rewriting them again changes nothing. |
| WebGalleryOfArt.RecordDefaults | src/catalog/wgoa/webGalleryOfArt.js:36-37 | The artist and title defaults go through the normalisers and are stored as `Unknown Artist` and `Unknown Title`. |
| WebGalleryOfArt.InsertAll | src/catalog/wgoa/webGalleryOfArt.js:15-19 | Offering every record keeps the table valid. Its urls become the old ones plus the records' urls, and the old rows stay in front: a failed insert does not stop the others. |
| WebGalleryOfArt.InsertAllKnown | src/catalog/wgoa/webGalleryOfArt.js:55-62 | Records whose urls are already stored change nothing. |
| WebGalleryOfArt.UpdateDatabase | src/catalog/wgoa/webGalleryOfArt.js:11-20 | An unreadable catalog changes nothing. Otherwise the table holds exactly its old urls plus the catalog's image urls, each once, with the old rows kept. |
| WebGalleryOfArt.UpdateDatabaseTwice | src/catalog/wgoa/webGalleryOfArt.js:11-20 | Importing the same catalog twice leaves the table as after the first import. |
| WebGalleryOfArt.ImportIntoNewTable | src/db.js:36-71 | On the first run `get` creates an empty valid table, and importing a catalog into it leaves exactly the catalog's image urls. |
| WebGalleryOfArt.ImportAfterReopen | src/db.js:36-71 | Reopening the database keeps the imported table (`CREATE TABLE IF NOT EXISTS`), so importing the same catalog again adds nothing. |
| ArtStore.GetIsMemoised | src/db.js:65-71 | After the first `get`, every later `get` returns the same handle, whatever the database file holds. |
| ArtStore.NextId | src/db.js:37 | The id of a new row is positive and larger than every id in the table. |
| ArtStore.Insert | src/catalog/wgoa/webGalleryOfArt.js:55-62 | The table stays valid (ids increasing, urls unique). The insert fails exactly when the url is already stored, and then nothing changes. Otherwise one row with a fresh id is appended. |
| ArtStore.InsertedRowIsPending | src/db.js:41-52 | A new row has no file name, and `created` and `modified` are the insert time. |
| ArtStore.MarkDownloaded | src/images.js:93 | Only the row with the id changes: its file name and its `modified`, which becomes now. Every other column and row is unchanged, the urls and ids are kept, and validity is preserved. |
| ArtStore.Limit | src/images.js:45 | `LIMIT max` returns at most `max` rows, and all of them when fewer match. A negative limit means no limit. |
| ArtStore.Filed | src/images.js:45 | The rows with (or without) a file name, in rowid order: every such row and nothing else. |
| ArtStore.FirstMissing | src/images.js:45 | Some answer of the random query exists: distinct rows without a file name, as many as the limit allows. |
| ArtStore.MissingSelectionRows | src/images.js:45 | Every selected record is the projection of a table row without a file name. |
| ArtStore.SortByModified | src/wallpapers.js:188 | The sort is a permutation, descending by `modified`, and keeps distinct ids distinct. |
| ArtStore.MostRecent | src/wallpapers.js:188 | Some answer of the query exists: at most `max` rows with a file name, each once, by `modified` descending, and no row left out was modified later than a row returned. |
| ArtStore.RecentSelectionHasFiles | src/wallpapers.js:188 | Every row of a recent selection has a file name. |
| Images.FileNameExtension | src/images.js:127-130 | The file name ends in `.jpg`. |
| Images.FileNameSafe | src/images.js:129 | The name holds only lower-case letters, digits, `_`, `-` and `.`, so no `/`. |
| Images.FileNameId | src/images.js:129 | `parseInt` of the file name gives the record's id back. |
| Images.FileNameDistinct | src/images.js:127-130 | Records with different ids get different file names. |
| Images.RecordEvents | src/images.js:26-32 | For one record the fetch comes first. A save follows exactly when the fetch succeeded, and a pause ends the record whatever happened. |
| Images.TracePacing | src/images.js:25-33 | N records give N pauses. The first event is a fetch, the last a pause, and every later fetch follows a pause. |
| Images.SelectionIsPending | src/images.js:45 | No selected record shares its id with a row that already has a file. |
| Images.TurnApplies | src/images.js:26-31 | After one more turn, every saved record's row holds its name and the turn's time, and every row not saved is as it was. |
| Images.DownloadAll | src/images.js:25-33 | The loop keeps the table valid with the same urls and ids. Its trace is the records' events in order, and the table reflects exactly the downloads that were both fetched and saved. |
| Images.Download | src/images.js:16-34 | A rejected query processes nothing. Otherwise every selected record is processed in order with the `createFileName` names and default limit 100 and delay 7500. Rows that already had a file are unchanged. |

## Left out

- Word segmentation: lodash `lowerCase`, `startCase` and `snakeCase`, and the regex class `\w`, are modelled over ASCII letters and digits, and the model treats every other character as a separator. lodash first deburrs Latin-1 and Latin Extended-A letters to plain ASCII, and keeps other non-ASCII letters inside words. lodash also splits a word where a lower-case letter meets an upper-case one, before the last capital of an upper-case run that starts a capitalised word ("XMLHttp" becomes "XML Http"), and where letters meet digits: `startCase` turns "1650s" into "1650 S", and `snakeCase('address1')` is `address_1`. The model keeps such runs as one word.
- Imaging.Request: widths, heights, point size and text offset are natural numbers here, and so are the matching fields of Wallpapers.Options, SrcWallpaper.Options and RootWallpaper.Options. The source accepts any number: a negative offset renders as `+-5+-5`, and a negative or fractional size goes to `-size` as it is. Such inputs are not modelled.
- `Number.parseInt` is modelled for decimal digits only. Hexadecimal prefixes and radix handling are not modelled.
- Scaling.Fit: computes over exact reals. JavaScript's floating-point rounding and the text of fractional numbers in the `-resize WxH` geometry are not modelled, so the composite call keeps the computed size. A size holding Infinity or NaN is collapsed to `None`, and the sign of a zero (`-0`) is not kept.
- Imaging.Compose: the other arguments of the composite call (`(`, `-resize`, `-gravity center`, `-composite`) are left out. The call keeps only the target, the artwork and the size.
- ImageMagick itself (src/imagemagick/convert.js and ./convert): src/imagemagick/convert.js is not part of this model. Each call is an oracle from arguments to an optional output.
- HTTP download and file writing (axios, fs streams) in `downloadImage` are a success/failure oracle. So is the outcome of the UPDATE. An unhandled error on the response stream could leave a download pending forever, and that is not modelled.
- `pause` is a trace event carrying its delay. `setTimeout` timing is not modelled.
- The SQLite engine is not modelled: opening the database, its exit and signal handlers, and the window in which `db` is set before the table exists. The database clock `datetime('now')` / `CURRENT_TIMESTAMP` is a natural-number clock reading passed in.
- `ORDER BY random()` is not a function: any selection satisfying `IsMissingSelection` is accepted, and `FirstMissing` shows one exists. Likewise `ORDER BY modified DESC` with ties is `IsRecentSelection`, with `MostRecent` as one witness.
- `database.parallelize` in `updateDatabase` is modelled as inserting in catalog order. Concurrent execution could let a different row win among duplicate urls within one catalog. Only the set of stored urls is stated for that case.
- Reading the catalog file (ISO-8859-1 decoding, CSV parsing) is not modelled: rows arrive as maps from column name to text, and a failed read is `None`.
- `path.join` is modelled as `dir + "/" + name`, without normalising `..`, duplicate slashes or trailing separators.
- The configuration (`artDirectory`, `wallpaperDirectory`, `wallpaperSizes`) is passed in as parameters.
- The CLI scripts `scripts/downloadImages.js` and `scripts/createWallpapers.js` and the hard-coded driver `index.js` are not part of this model.
- Console logging of errors is not modelled: a caught error just continues.
- Normalize.Date and Normalize.Technique are identities in the source too. `WebGalleryOfArt.ToRecord` states that they pass their column through unchanged, and they carry no contract of their own.

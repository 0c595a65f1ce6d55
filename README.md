# Art catalog: thumbnail rule, `arts` table and the two screens

A model of the logic inside the yahyagonder/MyArts-KOTLIN Android app. The app keeps
a local catalog of artworks (name, artist, year, photo) in an SQLite table
`arts(id INTEGER PRIMARY KEY, artname, artistname, year, image BLOB)`. It has two screens:

- The **list screen** (`MainActivity`) rebuilds its list of `Art(name, id)` summaries
  from the table every time it is created. Its options menu opens the editor in "new" mode.
- The **editor screen** (`ArtActivity`) runs in one of two modes. With `info == "new"`
  it is an empty editor with a save button. With anything else it shows the stored
  record with the requested id. Saving shrinks the picked picture so that its long side
  is 300 pixels, encodes it, creates the table if missing and appends one row.

Modules, one per component:

- `Wrappers`: `Option` and `Result`.
- `Thumbnail`: the dimension rule of `makeSmallerBitmap`, computed exactly. The
  source's double-precision ratio is a `real` here, and `toInt()` of a non-negative
  value is `Floor`. It is proved to equal integer floor division, and its bounds,
  aspect-ratio and long-side properties are proved.
- `ArtStore`: rows, the id SQLite assigns (largest id plus one, 1 in an empty table),
  `SELECT ... WHERE id = ?` as a filter, and the `Database` class with table creation,
  insert and the two queries. The invariant `IdsAscending` makes ids positive and
  unique, and every insert preserves it.
- `ArtActivity`: the `ArtScreen` class with `onCreate` (mode selection and the
  fetch-by-id loop), the picker result, and `saveClicked`.
- `MainActivity`: the `Art` summary, the listing loop proved equal to the projection
  `Summaries`, and the options-menu action.
- `CatalogScenario`: a client that lists an empty catalog, saves "Starry Night" with a
  500 by 400 picture (stored as a 300 by 240 thumbnail with id 1), lists it, and views
  it. It is checked against the contracts alone.

Behaviour of the code that the model keeps as written:

- The short side is truncated, not rounded. For example, 700 by 300 gives 300 by 128.
- The long side is always set to the bound, so pictures smaller than 300 pixels are upscaled.
- The view branch quietly keeps the previous field values when no row matches.
- The view branch does not catch a missing table. `Uncaught.QueryFailed` stands for that exception.
- A very elongated picture produces a thumbnail with a zero side. This happens when the
  long side is more than 300 times the short side. `Bitmap.createScaledBitmap` rejects
  that size, and it is called outside the `try`, so `saveClicked` raises and saves nothing
  (`Uncaught.ZeroSizedBitmap`). `Thumbnail.ZeroSideIff` states exactly when it happens.
- The stored image is PNG (quality 50, which PNG ignores), not a lossy codec. Encoding is
  the uninterpreted parameter `encode`, and no codec property is claimed.

Foreign calls are parameters of the model:

- `resample`: the pixel interpolation of `createScaledBitmap`.
- `encode`: `compress`.
- The bitmap the gallery decoders produce: the argument of `ImagePicked`.
- Storage failures: `StorageFault` and the `fails` flags.

## Model

| member | source | states |
|---|---|---|
| `Thumbnail.RatioAboveOneIffWider` | app/src/main/java/com/yahyagonder/artbookkotlin/ArtActivity.kt:126-128 | for positive sizes the landscape test `width / height > 1` holds exactly when width > height |
| `Thumbnail.FloorOfQuotient` | app/src/main/java/com/yahyagonder/artbookkotlin/ArtActivity.kt:131-138 | `toInt()` of an exact non-negative quotient n/d is the integer floor division n / d |
| `Thumbnail.ScaledSize` | app/src/main/java/com/yahyagonder/artbookkotlin/ArtActivity.kt:121-139 | landscape: width = maxSize and height = floor(maxSize*h/w); portrait or square: height = maxSize and width = floor(maxSize*w/h) |
| `Thumbnail.MakeSmallerBitmap` | app/src/main/java/com/yahyagonder/artbookkotlin/ArtActivity.kt:121-142 | the rescaled bitmap has exactly the dimensions of the rule |
| `Thumbnail.LandscapeHeightBelowBound` | app/src/main/java/com/yahyagonder/artbookkotlin/ArtActivity.kt:128-133 | in the landscape branch the new height is strictly below a positive bound |
| `Thumbnail.PortraitWidthWithinBound` | app/src/main/java/com/yahyagonder/artbookkotlin/ArtActivity.kt:134-139 | in the portrait-or-square branch the new width is at most the bound |
| `Thumbnail.SquareBecomesBoundSquare` | app/src/main/java/com/yahyagonder/artbookkotlin/ArtActivity.kt:134-139 | a square picture becomes maxSize by maxSize |
| `Thumbnail.LongSideIsBound` | app/src/main/java/com/yahyagonder/artbookkotlin/ArtActivity.kt:128-139 | the longer output side equals the bound for every input size, so small pictures are upscaled |
| `Thumbnail.AspectKeptUpToTruncation` | app/src/main/java/com/yahyagonder/artbookkotlin/ArtActivity.kt:126-139 | the short side is the largest whole length not exceeding the exact proportional one |
| `Thumbnail.ZeroSideIff` | app/src/main/java/com/yahyagonder/artbookkotlin/ArtActivity.kt:128-141 | a thumbnail side is zero exactly when the long side exceeds maxSize times the short side |
| `Thumbnail.LandscapeExample` | app/src/main/java/com/yahyagonder/artbookkotlin/ArtActivity.kt:91-133 | 500 by 400 with bound 300 gives 300 by 240 |
| `Thumbnail.UpscaleExample` | app/src/main/java/com/yahyagonder/artbookkotlin/ArtActivity.kt:128-133 | 100 by 50 with bound 300 is upscaled to 300 by 150 |
| `Thumbnail.TruncatesExample` | app/src/main/java/com/yahyagonder/artbookkotlin/ArtActivity.kt:131-132 | 700 by 300 gives height 128: the exact 128.57 is truncated, not rounded |
| `ArtStore.LargestId` | app/src/main/java/com/yahyagonder/artbookkotlin/ArtActivity.kt:99-107 | the result bounds every stored id and is the id of some stored row |
| `ArtStore.NextRowIdIsFresh` | app/src/main/java/com/yahyagonder/artbookkotlin/ArtActivity.kt:99-107 | the id given to an inserted row is positive and larger than every stored id |
| `ArtStore.AppendKeepsIdsAscending` | app/src/main/java/com/yahyagonder/artbookkotlin/ArtActivity.kt:101-107 | appending a row with the next id keeps ids positive, unique and ascending |
| `ArtStore.SelectMembers` | app/src/main/java/com/yahyagonder/artbookkotlin/ArtActivity.kt:62 | a row is returned by the id query exactly when it is stored and has that id |
| `ArtStore.SelectEmptyIff` | app/src/main/java/com/yahyagonder/artbookkotlin/ArtActivity.kt:62-68 | the id query returns nothing exactly when no stored row has that id |
| `ArtStore.LastSelectedIsLastMatch` | app/src/main/java/com/yahyagonder/artbookkotlin/ArtActivity.kt:62-76 | the last row the query returns is the last stored row with that id |
| `ArtStore.SelectAtMostOne` | app/src/main/java/com/yahyagonder/artbookkotlin/ArtActivity.kt:62-99 | with unique ids the id query returns at most one row |
| `ArtStore.InsertThenSelect` | app/src/main/java/com/yahyagonder/artbookkotlin/ArtActivity.kt:101-107 | after an insert, querying the new id returns exactly the new row |
| `ArtStore.InsertKeepsOtherSelects` | app/src/main/java/com/yahyagonder/artbookkotlin/ArtActivity.kt:101-107 | an insert changes no query for another id |
| `ArtStore.Database.constructor` | app/src/main/java/com/yahyagonder/artbookkotlin/ArtActivity.kt:41 | a freshly created database file has no `arts` table and no rows |
| `ArtStore.Database.CreateTableIfNotExists` | app/src/main/java/com/yahyagonder/artbookkotlin/ArtActivity.kt:99 | unless it fails, the table exists afterwards; the rows are never changed, so the step is idempotent |
| `ArtStore.Database.Insert` | app/src/main/java/com/yahyagonder/artbookkotlin/ArtActivity.kt:101-107 | appends exactly one row (next id, artname, artistname, year, image) and returns its id; with no table or a failure the rows are unchanged |
| `ArtStore.Database.SelectAll` | app/src/main/java/com/yahyagonder/artbookkotlin/MainActivity.kt:37 | the full query succeeds exactly when the table exists |
| `ArtStore.Database.SelectById` | app/src/main/java/com/yahyagonder/artbookkotlin/ArtActivity.kt:62 | the id query succeeds exactly when the table exists |
| `ArtActivity.ArtScreen.constructor` | app/src/main/java/com/yahyagonder/artbookkotlin/ArtActivity.kt:32 | a new screen has no selected picture and has not navigated |
| `ArtActivity.ArtScreen.OnCreate` | app/src/main/java/com/yahyagonder/artbookkotlin/ArtActivity.kt:45-80 | the save button is visible exactly for `info == "new"`, which clears the fields; otherwise (null included) the id defaults to 1, the fields show the last matching row, or keep their values when none matches, and a missing table raises |
| `ArtActivity.ArtScreen.ImagePicked` | app/src/main/java/com/yahyagonder/artbookkotlin/ArtActivity.kt:188-205 | a decoded picture becomes the selection and is shown; a failed decode changes nothing |
| `ArtActivity.ArtScreen.SaveClicked` | app/src/main/java/com/yahyagonder/artbookkotlin/ArtActivity.kt:84-119 | no picture: nothing changes and no navigation; a zero-sided thumbnail raises and nothing changes; otherwise the table exists unless creation failed, exactly one row with the three texts and the encoded thumbnail is appended unless a step failed, and the screen returns to the list either way |
| `MainActivity.Summaries` | app/src/main/java/com/yahyagonder/artbookkotlin/MainActivity.kt:41-47 | one `Art(artname, id)` per row, same length and same order |
| `MainActivity.SummariesAfterInsert` | app/src/main/java/com/yahyagonder/artbookkotlin/MainActivity.kt:41-46 | after an insert the listing is the old listing with the new summary at the end |
| `MainActivity.SummaryIdsDistinct` | app/src/main/java/com/yahyagonder/artbookkotlin/MainActivity.kt:41-47 | with unique ids no id is listed twice |
| `MainActivity.OptionsItemSelected` | app/src/main/java/com/yahyagonder/artbookkotlin/MainActivity.kt:69-78 | only the add-art item starts the editor, and it starts it in new-art mode |
| `MainActivity.MainScreen.constructor` | app/src/main/java/com/yahyagonder/artbookkotlin/MainActivity.kt:26 | a new list is empty |
| `MainActivity.MainScreen.OnCreate` | app/src/main/java/com/yahyagonder/artbookkotlin/MainActivity.kt:20-56 | the list is rebuilt from nothing: the projection of all rows when the table exists, empty when the query raises |

## Left out

- Permission checks, the rationale Snackbar, the Toast and the picker launchers (ArtActivity.kt:144-231) are UI plumbing. Only the decoded result the launcher stores is modelled, as `ImagePicked`.
- Image decoding (`ImageDecoder`, `MediaStore.getBitmap`, `BitmapFactory.decodeByteArray`) is a foreign library. A picked picture is a size plus an opaque payload. The view branch shows the stored bytes (`StoredImage`) without decoding them.
- `createScaledBitmap` interpolation and `compress` are foreign calls. They are the parameters `resample` and `encode`. The only library behaviour assumed is that a zero side is rejected.
- Thumbnail.ScaledSize: the ratio is exact rational arithmetic, not IEEE double. Inputs where double rounding changes the truncated value by one are not modelled.
- ArtStore.NextRowId: SQLite's random id choice once the largest rowid reaches 2^63-1 is not modelled. Ids are unbounded integers, and the 32-bit `getInt` of MainActivity.kt:43 is not modelled.
- SQLite internals are not modelled: statement compilation, type affinity of the text-bound id, cursor lifetime, and closing cursors only on the normal path.
- Storage failures are abstract flags. Every failing statement leaves the file as it was. Failures of `openOrCreateDatabase` are not modelled.
- View binding, the RecyclerView adapter and `notifyDataSetChanged`, intents, and activity navigation are not modelled. Navigation back to the list is the flag `returnedToList`. The menu item id is a parameter.
- The layout's initial text and picture values are not part of the source. The constructor uses empty texts and the placeholder.
- `ArtAdapter`, which starts the editor in view mode from a list click, is not part of this model.

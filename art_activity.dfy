/**
 * The art editor screen. Started with `info == "new"` it is an empty editor
 * with a visible save button; started with anything else it shows the stored
 * record whose id the intent carries (1 when it carries none). Saving is the
 * only write path into the `arts` table.
 */
module ArtActivity {
  import opened Wrappers
  import opened Thumbnail
  import opened ArtStore

  /** The extras of the intent that starts the screen. */
  datatype Extras = Extras(info: Option<string>, id: Option<int>)

  datatype Mode = NewArt | ViewArt(id: int)

  /** `info.equals("new")` on a nullable string, and `getIntExtra("id", 1)`. */
  function ModeOf(extras: Extras): Mode {
    if extras.info == Some("new") then NewArt else ViewArt(extras.id.GetOr(1))
  }

  /** What the image view shows. */
  datatype Picture =
    | SelectImagePlaceholder
    | PickedBitmap(bitmap: Bitmap)
    | StoredImage(blob: seq<byte>)

  /** Exceptions the screen does not catch. */
  datatype Uncaught = ZeroSizedBitmap | QueryFailed(error: DbError)

  /** Where the storage layer fails during a save, if it does. */
  datatype StorageFault = NoFault | CreateTableFails | InsertFails

  class ArtScreen {
    const database: Database
    var artText: string
    var artistText: string
    var yearText: string
    var picture: Picture
    var saveButtonVisible: bool
    var selectedBitmap: Option<Bitmap>
    var returnedToList: bool

    /** A picked picture always has a positive size (the decoders never give an empty one). */
    ghost predicate Valid()
      reads this
    {
      selectedBitmap.Some? ==> selectedBitmap.value.width > 0 && selectedBitmap.value.height > 0
    }

    /** The text fields and the image view show `row`. */
    ghost predicate Shows(row: Row)
      reads this
    {
      artText == row.artName && artistText == row.artistName && yearText == row.year &&
      picture == StoredImage(row.image)
    }

    constructor (database: Database)
      ensures Valid() && this.database == database
      ensures artText == "" && artistText == "" && yearText == ""
      ensures picture == SelectImagePlaceholder && saveButtonVisible
      ensures selectedBitmap == None && !returnedToList
    {
      this.database := database;
      artText, artistText, yearText := "", "", "";
      picture := SelectImagePlaceholder;
      saveButtonVisible := true;
      selectedBitmap := None;
      returnedToList := false;
    }

    /**
     * `onCreate`: clears the editor in "new" mode; otherwise hides the save
     * button and copies every row matching the id into the fields in turn, so
     * that the last match is what stays displayed. With no match nothing
     * changes; with no table the query raises and is not caught.
     */
    method OnCreate(extras: Extras) returns (thrown: Option<Uncaught>)
      requires Valid()
      modifies this`artText, this`artistText, this`yearText, this`picture, this`saveButtonVisible
      ensures Valid()
      ensures saveButtonVisible <==> extras.info == Some("new")
      ensures extras.info == Some("new") ==>
        thrown == None && artText == "" && artistText == "" && yearText == "" &&
        picture == SelectImagePlaceholder
      ensures extras.info != Some("new") && !database.hasArtsTable ==>
        thrown == Some(QueryFailed(NoSuchTable)) &&
        artText == old(artText) && artistText == old(artistText) && yearText == old(yearText) &&
        picture == old(picture)
      ensures extras.info != Some("new") && database.hasArtsTable ==>
        var found := Select(database.rows, extras.id.GetOr(1));
        thrown == None &&
        (found == [] ==>
          artText == old(artText) && artistText == old(artistText) && yearText == old(yearText) &&
          picture == old(picture)) &&
        (found != [] ==> Shows(found[|found| - 1]))
    {
      thrown := None;
      match ModeOf(extras)
      case NewArt =>
        artText, artistText, yearText := "", "", "";
        saveButtonVisible := true;
        picture := SelectImagePlaceholder;
      case ViewArt(selectedId) =>
        saveButtonVisible := false;
        var query := database.SelectById(selectedId);
        if query.Failure? {
          thrown := Some(QueryFailed(query.error));
          return;
        }
        var cursor := query.value;
        var i := 0;
        while i < |cursor|
          modifies this`artText, this`artistText, this`yearText, this`picture
          invariant 0 <= i <= |cursor|
          invariant i == 0 ==>
            artText == old(artText) && artistText == old(artistText) && yearText == old(yearText) &&
            picture == old(picture)
          invariant i > 0 ==> Shows(cursor[i - 1])
        {
          artText := cursor[i].artName;
          artistText := cursor[i].artistName;
          yearText := cursor[i].year;
          picture := StoredImage(cursor[i].image);
          i := i + 1;
        }
    }

    /**
     * The gallery picker's result: a successfully decoded picture becomes the
     * selection and is shown; a failed decode (`None`) is swallowed.
     */
    method ImagePicked(decoded: Option<Bitmap>)
      requires Valid()
      requires decoded.Some? ==> decoded.value.width > 0 && decoded.value.height > 0
      modifies this`selectedBitmap, this`picture
      ensures Valid()
      ensures decoded.Some? ==> selectedBitmap == decoded && picture == PickedBitmap(decoded.value)
      ensures decoded.None? ==> selectedBitmap == old(selectedBitmap) && picture == old(picture)
    {
      if decoded.Some? {
        selectedBitmap := decoded;
        picture := PickedBitmap(decoded.value);
      }
    }

    /**
     * `saveClicked`: without a selected picture nothing happens. Otherwise the
     * picture is shrunk to `ThumbnailBound` and encoded (`encode` stands for
     * the foreign PNG compressor); a thumbnail with a zero side makes
     * `createScaledBitmap` raise, uncaught. Then the table is created if
     * missing and one row (artname, artistname, year, image) appended; a
     * storage failure is swallowed and the screen returns to the list anyway.
     */
    method SaveClicked(resample: (Bitmap, Dimensions) -> seq<byte>, encode: Bitmap -> seq<byte>, fault: StorageFault)
      returns (thrown: Option<Uncaught>)
      requires Valid() && database.Valid()
      modifies this`returnedToList, database
      ensures Valid() && database.Valid()
      ensures selectedBitmap.None? ==>
        thrown == None && returnedToList == old(returnedToList) &&
        database.hasArtsTable == old(database.hasArtsTable) && database.rows == old(database.rows)
      ensures selectedBitmap.Some? ==>
        var small := MakeSmallerBitmap(selectedBitmap.value, ThumbnailBound, resample);
        if small.width == 0 || small.height == 0 then
          thrown == Some(ZeroSizedBitmap) && returnedToList == old(returnedToList) &&
          database.hasArtsTable == old(database.hasArtsTable) && database.rows == old(database.rows)
        else
          thrown == None && returnedToList &&
          database.hasArtsTable == (old(database.hasArtsTable) || fault != CreateTableFails) &&
          database.rows ==
            if fault == NoFault then
              old(database.rows) + [Row(NextRowId(old(database.rows)), artText, artistText, yearText, encode(small))]
            else old(database.rows)
    {
      thrown := None;
      var artName, artistName, year := artText, artistText, yearText;
      if selectedBitmap.Some? {
        var smallBitmap := MakeSmallerBitmap(selectedBitmap.value, ThumbnailBound, resample);
        if smallBitmap.width == 0 || smallBitmap.height == 0 {
          thrown := Some(ZeroSizedBitmap);
          return;
        }
        var byteArray := encode(smallBitmap);
        var created := database.CreateTableIfNotExists(fault == CreateTableFails);
        if created {
          var inserted := database.Insert(artName, artistName, year, byteArray, fault == InsertFails);
        }
        returnedToList := true;
      }
    }
  }
}

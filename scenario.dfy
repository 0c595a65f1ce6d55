/**
 * A client of the two screens, checked against their contracts alone: list
 * an empty catalog, save "Starry Night" with a 500 by 400 picture, list it
 * again and open it for viewing.
 */
module CatalogScenario {
  import opened Wrappers
  import opened Thumbnail
  import opened ArtStore
  import opened ArtActivity
  import opened MainActivity

  method StarryNight(resample: (Bitmap, Dimensions) -> seq<byte>, encode: Bitmap -> seq<byte>, pixels: seq<byte>)
  {
    var database := new Database();
    var list := new MainScreen();
    list.OnCreate(database);
    assert list.artList == [];

    var row := SaveStarryNight(database, resample, encode, pixels);
    assert row.id == 1 && row.artName == "Starry Night";
    list.OnCreate(database);
    assert list.artList == [Art("Starry Night", 1)];

    assert Select([row], 1) == [row] by {
      assert [row][..0] == [];
    }
    var viewer := new ArtScreen(database);
    var thrown := viewer.OnCreate(Extras(None, Some(1)));
    assert thrown == None && !viewer.saveButtonVisible && viewer.Shows(row);
  }

  /** The editor's save flow on an empty catalog, first without and then with a picture. */
  method SaveStarryNight(database: Database, resample: (Bitmap, Dimensions) -> seq<byte>, encode: Bitmap -> seq<byte>, pixels: seq<byte>)
    returns (row: Row)
    requires database.Valid() && !database.hasArtsTable
    modifies database
    ensures database.Valid() && database.hasArtsTable && database.rows == [row]
    ensures row == Row(1, "Starry Night", "Van Gogh", "1889", encode(Bitmap(300, 240, resample(Bitmap(500, 400, pixels), Dimensions(300, 240)))))
  {
    var editor := new ArtScreen(database);
    var thrown := editor.OnCreate(OptionsItemSelected(7, 7).value);
    assert thrown == None && editor.saveButtonVisible;

    // Saving before a picture is picked changes nothing.
    thrown := editor.SaveClicked(resample, encode, NoFault);
    assert thrown == None && !editor.returnedToList && database.rows == [];

    var picked := Bitmap(500, 400, pixels);
    editor.ImagePicked(Some(picked));
    editor.artText, editor.artistText, editor.yearText := "Starry Night", "Van Gogh", "1889";
    LandscapeExample();
    var small := MakeSmallerBitmap(picked, ThumbnailBound, resample);
    assert small == Bitmap(300, 240, resample(picked, Dimensions(300, 240)));
    thrown := editor.SaveClicked(resample, encode, NoFault);
    assert thrown == None && editor.returnedToList;
    row := Row(1, "Starry Night", "Van Gogh", "1889", encode(small));
  }
}

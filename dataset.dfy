/**
 * `load_images_from_csv` of plant_disease.py: turns the rows of the metadata
 * table into reference records, resolving each row's image id against the
 * image directory by probing .jpg, .jpeg and .png in that order.
 *
 * The I/O is given as values: the parsed table (None when pandas fails to
 * read it), the directory listing (None when it cannot be listed) and
 * `decode`, the result of reading a file name as a grayscale image (None
 * when cv2.imread returns None).
 */
module Dataset {
  import opened Wrappers
  import opened Paths
  import opened Similarity

  /** A table cell as pandas yields it: text, or a non-text value (a number, NaN). */
  datatype Cell = Text(text: string) | NonText

  type Row = map<string, Cell>

  datatype Table = Table(columns: set<string>, rows: seq<Row>) {
    /** Every row carries exactly the table's columns. */
    predicate WellFormed() {
      forall i :: 0 <= i < |rows| ==> rows[i].Keys == columns
    }
  }

  /** One loaded reference: (gray_image, label, fertilizer). `label` is a Dafny keyword, hence `diseaseLabel`. */
  datatype ReferenceRecord = ReferenceRecord(image: Gray, diseaseLabel: Cell, fertilizer: Cell)

  const ImageIdColumn: string := "image_id"
  const LabelColumn: string := "label"
  const FertilizerColumn: string := "fertilizer"
  const NotAvailable: string := "N/A"

  /** The extensions probed, in probing order. */
  const Extensions: seq<string> := [".jpg", ".jpeg", ".png"]

  /** `row.get("fertilizer", "N/A")`: the row's cell, or "N/A" without the column. */
  function FertilizerOf(row: Row): (c: Cell)
    ensures FertilizerColumn in row ==> c == row[FertilizerColumn]
    ensures FertilizerColumn !in row ==> c == Text(NotAvailable)
  {
    if FertilizerColumn in row then row[FertilizerColumn] else Text(NotAvailable)
  }

  /**
   * The lower-cased image id with its final extension stripped: followed by
   * that extension, lower-cased, it gives back the lower-cased id.
   */
  function Stem(id: string): (r: string)
    ensures r + Lower(SplitExt(id).1) == Lower(id)
    ensures |r| <= |id|
  {
    LowerConcat(SplitExt(id).0, SplitExt(id).1);
    Lower(SplitExt(id).0)
  }

  /** The rows the loop can process: both required columns are present. */
  predicate Keyed(row: Row) {
    ImageIdColumn in row && LabelColumn in row
  }

  /** A row whose image id `os.path.splitext` accepts. */
  predicate Readable(row: Row) {
    Keyed(row) && row[ImageIdColumn].Text?
  }

  /**
   * The index, from `from` on, of the first extension whose candidate name
   * is in the listing: the probe stops there.
   */
  function FirstPresent(stem: string, available: seq<string>, from: nat): (r: Option<nat>)
    requires from <= |Extensions|
    ensures r.Some? ==>
      && from <= r.value < |Extensions|
      && stem + Extensions[r.value] in available
      && forall j :: from <= j < r.value ==> stem + Extensions[j] !in available
    ensures r.None? ==> forall j :: from <= j < |Extensions| ==> stem + Extensions[j] !in available
    decreases |Extensions| - from
  {
    if from == |Extensions| then None
    else if stem + Extensions[from] in available then Some(from)
    else FirstPresent(stem, available, from + 1)
  }

  /** Candidate `i` is listed and no earlier candidate is: the probe stops at it. */
  predicate FirstListed(stem: string, available: seq<string>, i: int) {
    && 0 <= i < |Extensions|
    && stem + Extensions[i] in available
    && forall j :: 0 <= j < i ==> stem + Extensions[j] !in available
  }

  lemma FirstListedUnique(stem: string, available: seq<string>, i: int, k: int)
    requires FirstListed(stem, available, i) && FirstListed(stem, available, k)
    ensures i == k
  {
  }

  /**
   * The image the probe yields for a stem: decoded from the first listed
   * candidate name; None when no candidate is listed or that one file does
   * not decode, whatever later candidates hold.
   */
  function ProbeImage(stem: string, available: seq<string>, decode: string -> Option<Gray>): (r: Option<Gray>)
    ensures r.Some? ==> exists i :: FirstListed(stem, available, i) && decode(stem + Extensions[i]) == r
    ensures forall i :: FirstListed(stem, available, i) ==> r == decode(stem + Extensions[i])
    ensures (forall i :: 0 <= i < |Extensions| ==> stem + Extensions[i] !in available) ==> r.None?
  {
    match FirstPresent(stem, available, 0)
    case None =>
      assert forall k :: !FirstListed(stem, available, k);
      None
    case Some(i) =>
      assert FirstListed(stem, available, i);
      assert forall k :: FirstListed(stem, available, k) ==> k == i by {
        forall k | FirstListed(stem, available, k) ensures k == i {
          FirstListedUnique(stem, available, i, k);
        }
      }
      decode(stem + Extensions[i])
  }

  /** The record for a probed image, carrying the row's label and fertilizer; none without an image. */
  function WithRowFields(image: Option<Gray>, diseaseLabel: Cell, fertilizer: Cell): (r: Option<ReferenceRecord>) {
    match image
    case None => None
    case Some(g) => Some(ReferenceRecord(g, diseaseLabel, fertilizer))
  }

  /**
   * What one readable row contributes, at most one record: the image the
   * probe yields for the row's stem, with the row's label and fertilizer.
   */
  function RowRecord(row: Row, available: seq<string>, decode: string -> Option<Gray>): (r: Option<ReferenceRecord>)
    requires Readable(row)
    ensures r.Some? ==> r.value.diseaseLabel == row[LabelColumn] && r.value.fertilizer == FertilizerOf(row)
    ensures r.Some? ==>
      exists i :: FirstListed(Stem(row[ImageIdColumn].text), available, i)
        && decode(Stem(row[ImageIdColumn].text) + Extensions[i]) == Some(r.value.image)
    ensures forall i :: FirstListed(Stem(row[ImageIdColumn].text), available, i) ==>
      (r.Some? <==> decode(Stem(row[ImageIdColumn].text) + Extensions[i]).Some?)
    ensures (forall i :: 0 <= i < |Extensions| ==> Stem(row[ImageIdColumn].text) + Extensions[i] !in available) ==> r.None?
  {
    WithRowFields(ProbeImage(Stem(row[ImageIdColumn].text), available, decode), row[LabelColumn], FertilizerOf(row))
  }

  /** The index of the first row whose image id is not text, or the row count. */
  function FirstUnreadable(rows: seq<Row>, from: nat): (r: nat)
    requires from <= |rows|
    requires forall j :: 0 <= j < |rows| ==> Keyed(rows[j])
    ensures from <= r <= |rows|
    ensures forall j :: from <= j < r ==> Readable(rows[j])
    ensures r < |rows| ==> !Readable(rows[r])
    decreases |rows| - from
  {
    if from == |rows| then |rows|
    else if !Readable(rows[from]) then from
    else FirstUnreadable(rows, from + 1)
  }

  predicate AllReadable(rows: seq<Row>, n: nat)
    requires n <= |rows|
  {
    forall j :: 0 <= j < n ==> Readable(rows[j])
  }

  /** The outcome of each of the first `n` rows, in row order. */
  function Resolved(rows: seq<Row>, available: seq<string>, decode: string -> Option<Gray>, n: nat): (r: seq<Option<ReferenceRecord>>)
    requires n <= |rows| && AllReadable(rows, n)
  {
    seq(n, j requires 0 <= j < n => RowRecord(rows[j], available, decode))
  }

  function Optional<T>(o: Option<T>): (r: seq<T>) {
    match o
    case None => []
    case Some(x) => [x]
  }

  /** The present values of `outs`, in order: what the appends build up. */
  function Somes<T>(outs: seq<Option<T>>): (r: seq<T>) {
    if outs == [] then []
    else Somes(outs[..|outs| - 1]) + Optional(outs[|outs| - 1])
  }

  /** The positions of `outs` holding a value, in increasing order. */
  ghost function Origins<T>(outs: seq<Option<T>>): seq<nat> {
    if outs == [] then []
    else if outs[|outs| - 1].Some? then Origins(outs[..|outs| - 1]) + [|outs| - 1]
    else Origins(outs[..|outs| - 1])
  }

  /**
   * Where each value of `Somes(outs)` comes from: one position per value,
   * strictly increasing, so values keep their order and no position yields
   * two, and each value is the one held at its position.
   */
  lemma {:induction false} OriginsOrdered<T>(outs: seq<Option<T>>)
    ensures |Origins(outs)| == |Somes(outs)|
    ensures forall a, b :: 0 <= a < b < |Origins(outs)| ==> Origins(outs)[a] < Origins(outs)[b]
    ensures forall a :: 0 <= a < |Origins(outs)| ==>
      Origins(outs)[a] < |outs| && outs[Origins(outs)[a]] == Some(Somes(outs)[a])
  {
    if outs != [] {
      var last := |outs| - 1;
      var init := outs[..last];
      OriginsOrdered(init);
      assert forall j :: 0 <= j < last ==> init[j] == outs[j];
    }
  }

  /** Exactly the positions holding a value contribute one. */
  lemma {:induction false} OriginsComplete<T>(outs: seq<Option<T>>, j: nat)
    requires j < |outs|
    ensures outs[j].Some? <==> j in Origins(outs)
  {
    var last := |outs| - 1;
    var init := outs[..last];
    OriginsBelow(init);
    if j < last {
      OriginsComplete(init, j);
    }
  }

  lemma {:induction false} OriginsBelow<T>(outs: seq<Option<T>>)
    ensures forall a :: 0 <= a < |Origins(outs)| ==> Origins(outs)[a] < |outs|
  {
    if outs != [] {
      OriginsBelow(outs[..|outs| - 1]);
    }
  }

  /**
   * The list `load_images_from_csv` returns. A missing required column, an
   * unreadable table or an unlistable directory yield []; a row whose image
   * id is not text raises inside the loop, and the records gathered before
   * it are returned.
   */
  function LoadImages(table: Option<Table>, listing: Option<seq<string>>, decode: string -> Option<Gray>): (r: seq<ReferenceRecord>)
    requires table.Some? ==> table.value.WellFormed()
    ensures table.None? ==> r == []
    ensures table.Some? && (ImageIdColumn !in table.value.columns || LabelColumn !in table.value.columns) ==> r == []
    ensures listing.None? ==> r == []
  {
    if table.None? then []
    else if ImageIdColumn !in table.value.columns || LabelColumn !in table.value.columns then []
    else if listing.None? then []
    else
      var rows := table.value.rows;
      Somes(Resolved(rows, LowerAll(listing.value), decode, FirstUnreadable(rows, 0)))
  }

  /** Processing one more readable row appends that row's record, if any. */
  lemma ResolvedStep(rows: seq<Row>, available: seq<string>, decode: string -> Option<Gray>, i: nat)
    requires i < |rows| && AllReadable(rows, i + 1)
    ensures Somes(Resolved(rows, available, decode, i + 1))
         == Somes(Resolved(rows, available, decode, i)) + Optional(RowRecord(rows[i], available, decode))
  {
    assert Resolved(rows, available, decode, i + 1)[..i] == Resolved(rows, available, decode, i);
  }

  /**
   * The `for ext in [".jpg", ".jpeg", ".png"]` probe with its break:
   * appends the record when the first listed candidate decodes.
   */
  method ProbeRow(imagesData: seq<ReferenceRecord>, imageIdBase: string, diseaseLabel: Cell, fertilizer: Cell,
                  availableFiles: seq<string>, decode: string -> Option<Gray>)
    returns (appended: seq<ReferenceRecord>)
    ensures appended == imagesData + Optional(WithRowFields(ProbeImage(imageIdBase, availableFiles, decode), diseaseLabel, fertilizer))
  {
    appended := imagesData;
    var k := 0;
    while k < |Extensions|
      invariant 0 <= k <= |Extensions|
      invariant forall j :: 0 <= j < k ==> imageIdBase + Extensions[j] !in availableFiles
      invariant appended == imagesData
    {
      var fileName := imageIdBase + Extensions[k];
      if fileName in availableFiles {
        assert FirstListed(imageIdBase, availableFiles, k);
        var image := decode(fileName);
        if image.Some? {
          appended := appended + [ReferenceRecord(image.value, diseaseLabel, fertilizer)];
        }
        return;
      }
      k := k + 1;
    }
  }

  /** `load_images_from_csv`, step by step as the Python loop runs. */
  method LoadImagesFromCsv(table: Option<Table>, listing: Option<seq<string>>, decode: string -> Option<Gray>)
    returns (imagesData: seq<ReferenceRecord>)
    requires table.Some? ==> table.value.WellFormed()
    ensures imagesData == LoadImages(table, listing, decode)
  {
    imagesData := [];
    if table.None? {
      return;
    }
    var df := table.value;
    if ImageIdColumn !in df.columns || LabelColumn !in df.columns {
      return;
    }
    if listing.None? {
      return;
    }
    var availableFiles := LowerAll(listing.value);
    ghost var rows := df.rows;
    var i := 0;
    while i < |df.rows|
      invariant 0 <= i <= |df.rows|
      invariant AllReadable(rows, i)
      invariant imagesData == Somes(Resolved(rows, availableFiles, decode, i))
    {
      var row := df.rows[i];
      if !row[ImageIdColumn].Text? {
        // os.path.splitext raises; the handler returns what was gathered
        assert FirstUnreadable(rows, 0) == i;
        return;
      }
      var imageIdBase := Stem(row[ImageIdColumn].text);
      var diseaseLabel := row[LabelColumn];
      var fertilizer := FertilizerOf(row);
      imagesData := ProbeRow(imagesData, imageIdBase, diseaseLabel, fertilizer, availableFiles, decode);
      ResolvedStep(rows, availableFiles, decode, i);
      i := i + 1;
    }
    assert FirstUnreadable(rows, 0) == |rows|;
  }

  /** Each row yields at most one record. */
  lemma {:induction false} SomesShorter<T>(outs: seq<Option<T>>)
    ensures |Somes(outs)| <= |outs|
  {
    if outs != [] {
      SomesShorter(outs[..|outs| - 1]);
    }
  }

  lemma LoadAtMostOnePerRow(table: Option<Table>, listing: Option<seq<string>>, decode: string -> Option<Gray>)
    requires table.Some? && table.value.WellFormed()
    ensures |LoadImages(table, listing, decode)| <= |table.value.rows|
  {
    if ImageIdColumn in table.value.columns && LabelColumn in table.value.columns && listing.Some? {
      var rows := table.value.rows;
      SomesShorter(Resolved(rows, LowerAll(listing.value), decode, FirstUnreadable(rows, 0)));
    }
  }

  /**
   * Records keep row order: of two loaded records, the earlier comes from an
   * earlier row, each being that row's resolution.
   */
  lemma LoadKeepsRowOrder(table: Option<Table>, listing: Option<seq<string>>, decode: string -> Option<Gray>, a: nat, b: nat)
    requires table.Some? && table.value.WellFormed()
    requires a < b < |LoadImages(table, listing, decode)|
    ensures var rows := table.value.rows;
      listing.Some? && AllReadable(rows, FirstUnreadable(rows, 0)) &&
      exists ja, jb :: 0 <= ja < jb < FirstUnreadable(rows, 0)
        && RowRecord(rows[ja], LowerAll(listing.value), decode) == Some(LoadImages(table, listing, decode)[a])
        && RowRecord(rows[jb], LowerAll(listing.value), decode) == Some(LoadImages(table, listing, decode)[b])
  {
    var rows := table.value.rows;
    var n := FirstUnreadable(rows, 0);
    var outs := Resolved(rows, LowerAll(listing.value), decode, n);
    OriginsOrdered(outs);
    var o := Origins(outs);
    assert outs[o[a]] == RowRecord(rows[o[a]], LowerAll(listing.value), decode);
    assert outs[o[b]] == RowRecord(rows[o[b]], LowerAll(listing.value), decode);
  }

  /** Every loaded record, a lone one included, is the resolution of a readable row. */
  lemma LoadedRecordIsRowRecord(table: Option<Table>, listing: Option<seq<string>>, decode: string -> Option<Gray>, a: nat)
    requires table.Some? && table.value.WellFormed()
    requires a < |LoadImages(table, listing, decode)|
    ensures var rows := table.value.rows;
      listing.Some? && AllReadable(rows, FirstUnreadable(rows, 0)) &&
      exists j :: 0 <= j < FirstUnreadable(rows, 0)
        && RowRecord(rows[j], LowerAll(listing.value), decode) == Some(LoadImages(table, listing, decode)[a])
  {
    var rows := table.value.rows;
    var n := FirstUnreadable(rows, 0);
    var outs := Resolved(rows, LowerAll(listing.value), decode, n);
    OriginsOrdered(outs);
    var o := Origins(outs);
    assert outs[o[a]] == RowRecord(rows[o[a]], LowerAll(listing.value), decode);
  }

  /**
   * When no row before the first unreadable one resolves, the list is empty:
   * the case `main` reports as "no valid images".
   */
  lemma NothingResolvedLoadsNothing(table: Option<Table>, listing: Option<seq<string>>, decode: string -> Option<Gray>)
    requires table.Some? && table.value.WellFormed() && listing.Some?
    requires ImageIdColumn in table.value.columns && LabelColumn in table.value.columns
    requires forall j :: 0 <= j < FirstUnreadable(table.value.rows, 0) ==>
      RowRecord(table.value.rows[j], LowerAll(listing.value), decode).None?
    ensures LoadImages(table, listing, decode) == []
  {
    if LoadImages(table, listing, decode) != [] {
      LoadedRecordIsRowRecord(table, listing, decode, 0);
    }
  }

  /**
   * Nothing is dropped silently besides what the rules drop: a readable row
   * before the first unreadable one whose resolution succeeds is loaded.
   */
  lemma ResolvedRowIsLoaded(table: Option<Table>, listing: Option<seq<string>>, decode: string -> Option<Gray>, j: nat)
    requires table.Some? && table.value.WellFormed() && listing.Some?
    requires ImageIdColumn in table.value.columns && LabelColumn in table.value.columns
    requires j < FirstUnreadable(table.value.rows, 0)
    requires RowRecord(table.value.rows[j], LowerAll(listing.value), decode).Some?
    ensures RowRecord(table.value.rows[j], LowerAll(listing.value), decode).value in LoadImages(table, listing, decode)
  {
    var rows := table.value.rows;
    var outs := Resolved(rows, LowerAll(listing.value), decode, FirstUnreadable(rows, 0));
    OriginsComplete(outs, j);
    OriginsOrdered(outs);
    var o := Origins(outs);
    var a :| 0 <= a < |o| && o[a] == j;
  }

  /** Without a fertilizer column, every record carries "N/A". */
  lemma FertilizerDefaultsToNotAvailable(table: Option<Table>, listing: Option<seq<string>>, decode: string -> Option<Gray>)
    requires table.Some? && table.value.WellFormed()
    requires FertilizerColumn !in table.value.columns
    ensures forall r :: r in LoadImages(table, listing, decode) ==> r.fertilizer == Text(NotAvailable)
  {
    var loaded := LoadImages(table, listing, decode);
    if loaded != [] {
      var rows := table.value.rows;
      var n := FirstUnreadable(rows, 0);
      var outs := Resolved(rows, LowerAll(listing.value), decode, n);
      OriginsOrdered(outs);
      var o := Origins(outs);
      forall a | 0 <= a < |loaded| ensures loaded[a].fertilizer == Text(NotAvailable) {
        assert outs[o[a]] == RowRecord(rows[o[a]], LowerAll(listing.value), decode);
        assert rows[o[a]].Keys == table.value.columns;
      }
    }
  }

  /**
   * The probe stops at the first extension whose name is listed: the row's
   * record is decided by decoding that one file, and a later extension is
   * never tried, even when that file cannot be decoded.
   */
  lemma ProbeStopsAtFirstListed(row: Row, available: seq<string>, decode: string -> Option<Gray>, i: nat)
    requires Readable(row) && i < |Extensions|
    requires Stem(row[ImageIdColumn].text) + Extensions[i] in available
    requires forall j :: 0 <= j < i ==> Stem(row[ImageIdColumn].text) + Extensions[j] !in available
    ensures RowRecord(row, available, decode) ==
      match decode(Stem(row[ImageIdColumn].text) + Extensions[i])
      case None => None
      case Some(image) => Some(ReferenceRecord(image, row[LabelColumn], FertilizerOf(row)))
  {
  }

  /** A row none of whose three candidate names is listed is omitted. */
  lemma UnlistedRowOmitted(row: Row, available: seq<string>, decode: string -> Option<Gray>)
    requires Readable(row)
    requires forall j :: 0 <= j < |Extensions| ==> Stem(row[ImageIdColumn].text) + Extensions[j] !in available
    ensures RowRecord(row, available, decode) == None
  {
  }

  /** The resolution of a row does not depend on the case of its image id. */
  lemma RowRecordIgnoresIdCase(row: Row, available: seq<string>, decode: string -> Option<Gray>)
    requires Readable(row)
    ensures var lowered := row[ImageIdColumn := Text(Lower(row[ImageIdColumn].text))];
      Readable(lowered) && RowRecord(lowered, available, decode) == RowRecord(row, available, decode)
  {
    var id := row[ImageIdColumn].text;
    SplitExtLower(id);
    LowerIdempotent(SplitExt(id).0);
    assert Stem(Lower(id)) == Stem(id);
  }

  /**
   * Rows after the first one whose image id is not text are never looked at:
   * two tables that agree up to and including that row load the same list.
   */
  lemma RowsAfterUnreadableIgnored(t1: Table, t2: Table, listing: Option<seq<string>>, decode: string -> Option<Gray>, k: nat)
    requires t1.WellFormed() && t2.WellFormed() && t1.columns == t2.columns
    requires k < |t1.rows| && k < |t2.rows| && t1.rows[..k + 1] == t2.rows[..k + 1]
    requires !Readable(t1.rows[k])
    ensures LoadImages(Some(t1), listing, decode) == LoadImages(Some(t2), listing, decode)
  {
    if ImageIdColumn in t1.columns && LabelColumn in t1.columns && listing.Some? {
      assert forall j :: 0 <= j <= k ==> t1.rows[j] == t2.rows[j] by {
        forall j | 0 <= j <= k ensures t1.rows[j] == t2.rows[j] {
          assert t1.rows[..k + 1][j] == t2.rows[..k + 1][j];
        }
      }
      var n1 := FirstUnreadable(t1.rows, 0);
      var n2 := FirstUnreadable(t2.rows, 0);
      assert n1 <= k;
      assert n1 == n2;
      var available := LowerAll(listing.value);
      assert Resolved(t1.rows, available, decode, n1) == Resolved(t2.rows, available, decode, n2);
    }
  }

  lemma StemOfLeafPng()
    ensures Stem("Leaf.png") == "leaf"
  {
    LastIndexAt("Leaf.png", '/', -1);
    LastIndexAt("Leaf.png", '.', 4);
    assert "Leaf.png"[0] != '.';
    assert ExtStart("Leaf.png") == 4;
    assert SplitExt("Leaf.png").0 == "Leaf";
    assert Lower("Leaf") == "leaf";
  }

  lemma ListingLowered()
    ensures LowerAll(["LEAF.JPG", "leaf.png"]) == ["leaf.jpg", "leaf.png"]
  {
    assert Lower("LEAF.JPG") == "leaf.jpg";
    assert Lower("leaf.png") == "leaf.png";
  }

  /**
   * An image file that is listed but cannot be decoded hides a decodable
   * file of a later extension: the .jpg is probed first, even for an id ending
   * in .png, and the row is dropped.
   */
  lemma UndecodableJpgHidesPng(image: Gray)
    ensures var row := map[ImageIdColumn := Text("Leaf.png"), LabelColumn := Text("Blight")];
      var table := Table({ImageIdColumn, LabelColumn}, [row]);
      var decode := (name: string) => if name == "leaf.png" then Some(image) else None;
      table.WellFormed() && LoadImages(Some(table), Some(["LEAF.JPG", "leaf.png"]), decode) == []
  {
    var row := map[ImageIdColumn := Text("Leaf.png"), LabelColumn := Text("Blight")];
    var table := Table({ImageIdColumn, LabelColumn}, [row]);
    var decode := (name: string) => if name == "leaf.png" then Some(image) else None;
    ListingLowered();
    StemOfLeafPng();
    var available := ["leaf.jpg", "leaf.png"];
    assert "leaf" + Extensions[0] == "leaf.jpg";
    ProbeStopsAtFirstListed(row, available, decode, 0);
    assert RowRecord(row, available, decode) == None;
    assert FirstUnreadable([row], 0) == 1;
    NothingResolvedLoadsNothing(Some(table), Some(["LEAF.JPG", "leaf.png"]), decode);
  }
}
/**
 * Scan assembly: how `queryByVolume`, `scanPhoneAll`, `scanRemovableAll`
 * and `listFromTree` turn what the media store and the document tree
 * return into the list of `Item`s. The store's rows and the tree's nodes
 * are inputs; the model covers the order, the filtering and the fields of
 * each item.
 */
module Scan {
  import opened Common
  import opened Text
  import opened Classify
  import opened Engine

  // ---------------------------------------------------------------------
  // queryByVolume

  /** A row of a media collection: `_ID`, `DISPLAY_NAME`, `MIME_TYPE`, `SIZE`, `IS_TRASHED`. */
  datatype Row = Row(id: int, name: Option<string>, mime: Option<string>, size: int, trashed: int)

  /**
   * The rows of a volume's three collections, each in the store's
   * `DATE_MODIFIED DESC` order; `None` for a collection whose query
   * returns a null cursor.
   */
  datatype VolumeTables = VolumeTables(
    images: Option<seq<Row>>,
    video: Option<seq<Row>>,
    audio: Option<seq<Row>>)

  /** `MediaStore.VOLUME_EXTERNAL_PRIMARY`. */
  const Primary: string := "external_primary"

  datatype Collection = Images | VideoFiles | AudioFiles

  /** `MediaStore.{Images,Video,Audio}.Media.getContentUri(volume)`. */
  function CollectionUri(volume: string, c: Collection): string {
    "content://media/" + volume + (match c
      case Images => "/images/media"
      case VideoFiles => "/video/media"
      case AudioFiles => "/audio/media")
  }

  /** The value of a string of decimal digits, read left to right. */
  function DecimalValue(s: string): int {
    if s == [] then 0
    else DecimalValue(s[..|s| - 1]) * 10 + (s[|s| - 1] as int - '0' as int)
  }

  /** The decimal digits of `n`: a non-empty digit string whose value is `n`. */
  function Digits(n: nat): (s: string)
    ensures |s| >= 1
    ensures forall i :: 0 <= i < |s| ==> '0' <= s[i] <= '9'
    ensures DecimalValue(s) == n
  {
    if n < 10 then
      assert [(n + '0' as int) as char][..0] == [];
      [(n + '0' as int) as char]
    else
      var d := Digits(n / 10);
      var s := d + [(n % 10 + '0' as int) as char];
      assert s[..|s| - 1] == d;
      s
  }

  /** `Long.toString`. */
  function IntToString(i: int): string {
    if i < 0 then "-" + Digits(-i) else Digits(i)
  }

  /** Distinct numbers are written differently. */
  lemma IntToStringInjective(i: int, j: int)
    ensures IntToString(i) == IntToString(j) <==> i == j
  {
    if IntToString(i) == IntToString(j) {
      assert i < 0 <==> IntToString(i)[0] == '-';
      assert j < 0 <==> IntToString(j)[0] == '-';
      if i < 0 {
        assert Digits(-i) == IntToString(i)[1..] == IntToString(j)[1..] == Digits(-j);
      }
    }
  }

  /** `ContentUris.withAppendedId(base, id)`: `base`, a slash, then the id in decimal. */
  function WithAppendedId(base: string, id: int): (u: string)
    ensures StartsWith(u, base + "/")
    ensures u[|base| + 1..] == IntToString(id)
  {
    assert (base + "/" + IntToString(id))[..|base + "/"|] == base + "/";
    base + "/" + IntToString(id)
  }

  /** Two rows of one collection get the same URI exactly when their ids agree. */
  lemma WithAppendedIdInjective(base: string, a: int, b: int)
    ensures WithAppendedId(base, a) == WithAppendedId(base, b) <==> a == b
  {
    IntToStringInjective(a, b);
  }

  /** Whether the query's selection keeps the row: no selection, or `IS_TRASHED=0`. */
  predicate Selected(r: Row, includeTrash: bool) {
    includeTrash || r.trashed == 0
  }

  /** The item built from one row of the collection at `base`. */
  function RowItem(volume: string, base: string, r: Row): Item {
    var nm := r.name.GetOr("");
    Item(WithAppendedId(base, r.id), nm, r.mime, r.size, Some(volume), GuessKind(nm, r.mime), r.trashed == 1)
  }

  /** The items of the selected rows of one cursor, in cursor order. */
  function CursorItems(volume: string, base: string, rows: seq<Row>, includeTrash: bool): seq<Item> {
    if rows == [] then []
    else
      var init := CursorItems(volume, base, rows[..|rows| - 1], includeTrash);
      var r := rows[|rows| - 1];
      if Selected(r, includeTrash) then init + [RowItem(volume, base, r)] else init
  }

  function CollectionItems(volume: string, c: Collection, rows: Option<seq<Row>>, includeTrash: bool): seq<Item> {
    match rows
    case None => []
    case Some(rs) => CursorItems(volume, CollectionUri(volume, c), rs, includeTrash)
  }

  /** What `queryByVolume` returns: images, then video, then audio. */
  function VolumeItems(volume: string, t: VolumeTables, includeTrash: bool): seq<Item> {
    CollectionItems(volume, Images, t.images, includeTrash)
    + CollectionItems(volume, VideoFiles, t.video, includeTrash)
    + CollectionItems(volume, AudioFiles, t.audio, includeTrash)
  }

  /** The cursor loop: appends the items of the selected rows to `out`. */
  method AppendCursor(volume: string, base: string, rows: seq<Row>, includeTrash: bool, out: seq<Item>)
    returns (res: seq<Item>)
    ensures res == out + CursorItems(volume, base, rows, includeTrash)
  {
    res := out;
    var i := 0;
    while i < |rows|
      invariant 0 <= i <= |rows|
      invariant res == out + CursorItems(volume, base, rows[..i], includeTrash)
    {
      assert rows[..i + 1][..i] == rows[..i];
      if Selected(rows[i], includeTrash) {
        res := res + [RowItem(volume, base, rows[i])];
      }
      i := i + 1;
    }
    assert rows[..i] == rows;
  }

  /** `queryByVolume(volume, includeTrash)`. */
  method QueryByVolume(volume: string, t: VolumeTables, includeTrash: bool) returns (out: seq<Item>)
    ensures out == VolumeItems(volume, t, includeTrash)
  {
    var collections := [(Images, t.images), (VideoFiles, t.video), (AudioFiles, t.audio)];
    out := [];
    var k := 0;
    while k < 3
      invariant 0 <= k <= 3
      invariant out == if k == 0 then []
        else if k == 1 then CollectionItems(volume, Images, t.images, includeTrash)
        else if k == 2 then CollectionItems(volume, Images, t.images, includeTrash)
                            + CollectionItems(volume, VideoFiles, t.video, includeTrash)
        else VolumeItems(volume, t, includeTrash)
    {
      var (c, rows) := collections[k];
      if rows.Some? {
        out := AppendCursor(volume, CollectionUri(volume, c), rows.value, includeTrash, out);
      }
      k := k + 1;
    }
  }

  /**
   * Every item of a cursor carries the volume, the kind `guessKind` gives its
   * name and MIME type, and a URI under the collection; without
   * `includeTrash` no item is trashed; with it, every row yields an item.
   */
  lemma {:induction false} CursorItemsSpec(volume: string, base: string, rows: seq<Row>, includeTrash: bool)
    ensures var items := CursorItems(volume, base, rows, includeTrash);
      (forall i :: 0 <= i < |items| ==>
         items[i].volumeId == Some(volume)
         && items[i].kind == GuessKind(items[i].name, items[i].mime)
         && StartsWith(items[i].uri, base + "/")
         && (!includeTrash ==> !items[i].isTrashed))
      && |items| <= |rows|
      && (includeTrash ==> |items| == |rows|)
  {
    if rows != [] {
      CursorItemsSpec(volume, base, rows[..|rows| - 1], includeTrash);
    }
  }

  /** Every item of a volume scan carries the volume, and the trash filter holds. */
  lemma VolumeItemsSpec(volume: string, t: VolumeTables, includeTrash: bool)
    ensures var items := VolumeItems(volume, t, includeTrash);
      forall i :: 0 <= i < |items| ==>
        items[i].volumeId == Some(volume)
        && items[i].kind == GuessKind(items[i].name, items[i].mime)
        && (!includeTrash ==> !items[i].isTrashed)
  {
    var a := CollectionItems(volume, Images, t.images, includeTrash);
    var b := CollectionItems(volume, VideoFiles, t.video, includeTrash);
    var c := CollectionItems(volume, AudioFiles, t.audio, includeTrash);
    if t.images.Some? { CursorItemsSpec(volume, CollectionUri(volume, Images), t.images.value, includeTrash); }
    if t.video.Some? { CursorItemsSpec(volume, CollectionUri(volume, VideoFiles), t.video.value, includeTrash); }
    if t.audio.Some? { CursorItemsSpec(volume, CollectionUri(volume, AudioFiles), t.audio.value, includeTrash); }
    assert forall i :: 0 <= i < |a + b + c| ==>
      (a + b + c)[i] == if i < |a| then a[i] else if i < |a| + |b| then b[i - |a|] else c[i - |a| - |b|];
  }

  /** With the trash included, a volume scan yields one item per row of every non-null cursor. */
  lemma VolumeItemsCount(volume: string, t: VolumeTables)
    ensures |VolumeItems(volume, t, true)| ==
      (if t.images.Some? then |t.images.value| else 0)
      + (if t.video.Some? then |t.video.value| else 0)
      + (if t.audio.Some? then |t.audio.value| else 0)
  {
    if t.images.Some? { CursorItemsSpec(volume, CollectionUri(volume, Images), t.images.value, true); }
    if t.video.Some? { CursorItemsSpec(volume, CollectionUri(volume, VideoFiles), t.video.value, true); }
    if t.audio.Some? { CursorItemsSpec(volume, CollectionUri(volume, AudioFiles), t.audio.value, true); }
  }

  /** `scanPhoneAll`: the primary volume's scan. */
  method ScanPhoneAll(t: VolumeTables, includeTrash: bool) returns (out: seq<Item>)
    ensures out == VolumeItems(Primary, t, includeTrash)
    ensures forall i :: 0 <= i < |out| ==> out[i].volumeId == Some(Primary)
  {
    out := QueryByVolume(Primary, t, includeTrash);
    VolumeItemsSpec(Primary, t, includeTrash);
  }

  // ---------------------------------------------------------------------
  // scanRemovableAll

  /** A volume named by `getExternalVolumeNames`, with its collections. */
  datatype Volume = Volume(name: string, tables: VolumeTables)

  /** What `scanRemovableAll` returns: the scans of every non-primary volume, in order. */
  function RemovableItems(vols: seq<Volume>, includeTrash: bool): seq<Item> {
    if vols == [] then []
    else
      var init := RemovableItems(vols[..|vols| - 1], includeTrash);
      var v := vols[|vols| - 1];
      if v.name != Primary then init + VolumeItems(v.name, v.tables, includeTrash) else init
  }

  /** `scanRemovableAll(includeTrash)`. */
  method ScanRemovableAll(vols: seq<Volume>, includeTrash: bool) returns (out: seq<Item>)
    ensures out == RemovableItems(vols, includeTrash)
  {
    out := [];
    var i := 0;
    while i < |vols|
      invariant 0 <= i <= |vols|
      invariant out == RemovableItems(vols[..i], includeTrash)
    {
      assert vols[..i + 1][..i] == vols[..i];
      if vols[i].name != Primary {
        var part := QueryByVolume(vols[i].name, vols[i].tables, includeTrash);
        out := out + part;
      }
      i := i + 1;
    }
    assert vols[..i] == vols;
  }

  /** The item carries the name of one of the listed volumes, not the primary one. */
  predicate FromRemovable(x: Item, vols: seq<Volume>) {
    x.volumeId.Some? && x.volumeId.value != Primary
    && exists j :: 0 <= j < |vols| && vols[j].name == x.volumeId.value
  }

  /**
   * A removable scan never reports the primary volume: every item carries
   * the name of one of the listed non-primary volumes.
   */
  lemma {:induction false} RemovableSkipsPrimary(vols: seq<Volume>, includeTrash: bool)
    ensures forall x :: x in RemovableItems(vols, includeTrash) ==> FromRemovable(x, vols)
  {
    if vols != [] {
      var init := vols[..|vols| - 1];
      var v := vols[|vols| - 1];
      RemovableSkipsPrimary(init, includeTrash);
      forall x | x in RemovableItems(init, includeTrash) ensures FromRemovable(x, vols) {
        var j :| 0 <= j < |init| && init[j].name == x.volumeId.value;
        assert vols[j] == init[j];
      }
      if v.name != Primary {
        var b := VolumeItems(v.name, v.tables, includeTrash);
        VolumeItemsSpec(v.name, v.tables, includeTrash);
        forall x | x in b ensures FromRemovable(x, vols) {
          assert vols[|vols| - 1].name == x.volumeId.value;
        }
      }
    }
  }

  /** Every item of every non-primary volume's scan appears in the removable scan. */
  lemma {:induction false} RemovableCoversEveryVolume(vols: seq<Volume>, includeTrash: bool, j: nat)
    requires j < |vols| && vols[j].name != Primary
    ensures forall x :: x in VolumeItems(vols[j].name, vols[j].tables, includeTrash) ==>
      x in RemovableItems(vols, includeTrash)
  {
    var init := vols[..|vols| - 1];
    var a := RemovableItems(init, includeTrash);
    if j < |vols| - 1 {
      assert init[j] == vols[j];
      RemovableCoversEveryVolume(init, includeTrash, j);
    }
  }

  // ---------------------------------------------------------------------
  // listFromTree

  /** A document of the picked tree: a file, or a directory with its listing. */
  datatype DocNode =
    | FileNode(uri: string, name: Option<string>, mime: Option<string>, size: int)
    | DirNode(children: seq<DocNode>)

  /** The item for one file of the tree. */
  function FileItem(uri: string, name: Option<string>, mime: Option<string>, size: int): Item {
    var nm := name.GetOr("");
    Item(uri, nm, mime, size, ExtractVolumeId(uri), GuessKind(nm, mime), false)
  }

  /** The items of a listing, depth first, each directory's files at its position. */
  function ForestItems(nodes: seq<DocNode>): seq<Item>
    decreases nodes
  {
    if nodes == [] then []
    else
      var init := ForestItems(nodes[..|nodes| - 1]);
      match nodes[|nodes| - 1]
      case FileNode(u, n, m, s) => init + [FileItem(u, n, m, s)]
      case DirNode(c) => init + ForestItems(c)
  }

  /** The recursive `walk`: appends the items of a listing to `acc`. */
  method Walk(nodes: seq<DocNode>, acc: seq<Item>) returns (out: seq<Item>)
    ensures out == acc + ForestItems(nodes)
    decreases nodes
  {
    out := acc;
    var i := 0;
    while i < |nodes|
      invariant 0 <= i <= |nodes|
      invariant out == acc + ForestItems(nodes[..i])
      decreases |nodes| - i
    {
      assert nodes[..i + 1][..i] == nodes[..i];
      var f := nodes[i];
      if f.DirNode? {
        out := Walk(f.children, out);
      } else {
        out := out + [FileItem(f.uri, f.name, f.mime, f.size)];
      }
      i := i + 1;
    }
    assert nodes[..i] == nodes;
  }

  /** `listFromTree(treeUri)`: `root` is the top listing, `None` when the tree cannot be opened. */
  method ListFromTree(root: Option<seq<DocNode>>) returns (items: seq<Item>)
    ensures root.None? ==> items == []
    ensures root.Some? ==> items == ForestItems(root.value)
  {
    if root.None? {
      return [];
    }
    items := Walk(root.value, []);
  }

  /** How many files a listing holds, directories included recursively. */
  function FileCount(nodes: seq<DocNode>): nat
    decreases nodes
  {
    if nodes == [] then 0
    else
      FileCount(nodes[..|nodes| - 1]) + (match nodes[|nodes| - 1]
        case FileNode(_, _, _, _) => 1
        case DirNode(c) => FileCount(c))
  }

  /**
   * A tree scan yields one item per file, never a trashed one, each with
   * the volume id parsed from its URI and the kind its name and MIME type give.
   */
  lemma {:induction false} ForestItemsSpec(nodes: seq<DocNode>)
    ensures var items := ForestItems(nodes);
      |items| == FileCount(nodes)
      && forall i :: 0 <= i < |items| ==>
           !items[i].isTrashed
           && items[i].volumeId == ExtractVolumeId(items[i].uri)
           && items[i].kind == GuessKind(items[i].name, items[i].mime)
    decreases nodes
  {
    if nodes != [] {
      ForestItemsSpec(nodes[..|nodes| - 1]);
      match nodes[|nodes| - 1]
      case FileNode(u, n, m, s) =>
      case DirNode(c) =>
        ForestItemsSpec(c);
    }
  }
}

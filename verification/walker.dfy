/**
 * `parseFolders`: a depth-first walk over the folder tree that pushes every
 * record `parsePlacemark` builds onto an accumulator. The walk is compared with
 * a reference reading of the tree: the list of its placemarks, each labelled
 * with its nearest folder's name, in document order.
 *
 * The walk is stated for any placemark builder `build`; `ParseFolders` passes
 * `parsePlacemark`. Nothing about the walk depends on how a record is built.
 */
module Walker {
  import opened Wrappers
  import opened Place
  import opened Kml
  import opened Description
  import opened Placemarks

  /** Builds a record from a placemark and the name of the folder that classifies it. */
  type Builder = (Placemark, string) -> Option<Restaurant>

  /** `(folder.name as string) || ''`. */
  function FolderName(f: Folder): string {
    match f.name
    case Some(n) => n
    case None => ""
  }

  /** The `for (const placemark of placemarks)` loop: build each placemark with the folder
      name and push the records that are not null. */
  function AddPlacemarks(build: Builder, ps: seq<Placemark>, folderName: string, acc: seq<Restaurant>): seq<Restaurant>
    decreases |ps|
  {
    if |ps| == 0 then acc
    else
      var acc' := match build(ps[0], folderName)
        case Some(r) => acc + [r]
        case None => acc;
      AddPlacemarks(build, ps[1..], folderName, acc')
  }

  /** One folder: its own placemarks first, then its sub-folders. */
  function WalkFolder(build: Builder, f: Folder, acc: seq<Restaurant>): seq<Restaurant>
    decreases f, 1
  {
    WalkSubFolders(build, f, AddOwn(build, f, acc))
  }

  /** Lines 236-245: the folder's own placemarks, with the folder's name. */
  function AddOwn(build: Builder, f: Folder, acc: seq<Restaurant>): seq<Restaurant> {
    match f.placemark
    case Some(ps) => AddPlacemarks(build, AsSeq(ps), FolderName(f), acc)
    case None => acc
  }

  /** Lines 248-250: the recursive call on the sub-folders. */
  function WalkSubFolders(build: Builder, f: Folder, acc: seq<Restaurant>): seq<Restaurant>
    decreases f, 0
  {
    match f.folder
    case Some(sub) => WalkFolders(build, sub, 0, acc)
    case None => acc
  }

  /** The `for (const folder of folderArray)` loop, from position `i` on. */
  function WalkFolders(build: Builder, folders: Many<Folder>, i: nat, acc: seq<Restaurant>): seq<Restaurant>
    decreases folders, |AsSeq(folders)| - i
  {
    if i >= |AsSeq(folders)| then acc
    else WalkFolders(build, folders, i + 1, WalkFolder(build, AsSeq(folders)[i], acc))
  }

  /** `parseFolders(folders, restaurants)`, returning the final contents of `restaurants`.
      It only appends: the accumulator is kept as a prefix, and what follows is the
      records built from the tree's placemarks, in document order, each with its nearest
      folder's name; one record per placemark that builds. */
  function ParseFolders(m: Matchers, folders: Many<Folder>, acc: seq<Restaurant>): (r: seq<Restaurant>)
    ensures r == acc + Built(Parser(m), ItemsOf(folders, 0))
    ensures |r| == |acc| + CountBuilt(Parser(m), ItemsOf(folders, 0))
    ensures r[..|acc|] == acc
  {
    WalkFoldersIsBuilt(Parser(m), folders, 0, acc);
    BuiltCount(Parser(m), ItemsOf(folders, 0));
    WalkFolders(Parser(m), folders, 0, acc)
  }

  /** `parsePlacemark` as a builder. */
  function Parser(m: Matchers): Builder {
    (p, folderName) => ParsePlacemark(m, p, folderName)
  }

  // ---------------------------------------------------------------------------
  // The reference reading.

  /** A placemark and the name of the folder that classifies it. */
  datatype Item = Item(placemark: Placemark, folderName: string)

  function Label(ps: seq<Placemark>, folderName: string): (r: seq<Item>)
    ensures |r| == |ps|
    ensures forall i :: 0 <= i < |r| ==> r[i] == Item(ps[i], folderName)
  {
    seq(|ps|, i requires 0 <= i < |ps| => Item(ps[i], folderName))
  }

  /** The placemarks of a folder in document order, each with its nearest folder's name:
      the folder's own, then those of its sub-folders in sibling order. */
  function Items(f: Folder): seq<Item>
    decreases f, 1
  {
    OwnItems(f) + SubItems(f)
  }

  function OwnItems(f: Folder): seq<Item> {
    match f.placemark
    case Some(ps) => Label(AsSeq(ps), FolderName(f))
    case None => []
  }

  function SubItems(f: Folder): seq<Item>
    decreases f, 0
  {
    match f.folder
    case Some(sub) => ItemsOf(sub, 0)
    case None => []
  }

  /** The items of the folders of `folders` from position `i` on. */
  function ItemsOf(folders: Many<Folder>, i: nat): seq<Item>
    decreases folders, |AsSeq(folders)| - i
  {
    if i >= |AsSeq(folders)| then []
    else Items(AsSeq(folders)[i]) + ItemsOf(folders, i + 1)
  }

  /** The records built from `items`, in order, skipping the placemarks that yield none. */
  function Built(build: Builder, items: seq<Item>): seq<Restaurant>
    decreases |items|
  {
    if |items| == 0 then [] else Yield(build, items[0]) + Built(build, items[1..])
  }

  /** The record an item builds, as a list of zero or one. */
  function Yield(build: Builder, it: Item): seq<Restaurant> {
    match build(it.placemark, it.folderName)
    case Some(r) => [r]
    case None => []
  }

  /** The number of items for which `parsePlacemark` is not null. */
  function CountBuilt(build: Builder, items: seq<Item>): (n: nat)
    ensures n <= |items|
    decreases |items|
  {
    if |items| == 0 then 0
    else (if build(items[0].placemark, items[0].folderName).Some? then 1 else 0)
         + CountBuilt(build, items[1..])
  }

  lemma {:induction false} BuiltAppend(build: Builder, a: seq<Item>, b: seq<Item>)
    ensures Built(build, a + b) == Built(build, a) + Built(build, b)
    decreases |a|
  {
    if |a| > 0 {
      assert (a + b)[0] == a[0];
      assert (a + b)[1..] == a[1..] + b;
      BuiltAppend(build, a[1..], b);
      var h := Yield(build, a[0]);
      assert Built(build, a + b) == h + Built(build, a[1..] + b);
      assert Built(build, a) == h + Built(build, a[1..]);
      assert h + (Built(build, a[1..]) + Built(build, b)) == (h + Built(build, a[1..])) + Built(build, b);
    } else {
      assert a + b == b;
    }
  }

  /** One record per item that builds, and each record is the build of an item with the
      folder name it carries. */
  lemma {:induction false} BuiltCount(build: Builder, items: seq<Item>)
    ensures |Built(build, items)| == CountBuilt(build, items)
    ensures forall k :: 0 <= k < |Built(build, items)| ==>
              exists i :: 0 <= i < |items|
                          && build(items[i].placemark, items[i].folderName) == Some(Built(build, items)[k])
    decreases |items|
  {
    if |items| > 0 {
      var rest := Built(build, items[1..]);
      BuiltCount(build, items[1..]);
      var b := Built(build, items);
      forall k | 0 <= k < |b|
        ensures exists i :: 0 <= i < |items|
                            && build(items[i].placemark, items[i].folderName) == Some(b[k])
      {
        var r0 := build(items[0].placemark, items[0].folderName);
        if r0.Some? && k == 0 {
          assert b[0] == r0.value;
        } else {
          var k' := if r0.Some? then k - 1 else k;
          assert b[k] == rest[k'];
          var i :| 0 <= i < |items[1..]|
                   && build(items[1..][i].placemark, items[1..][i].folderName) == Some(rest[k']);
          assert items[1..][i] == items[i + 1];
        }
      }
    }
  }

  /** The placemark loop pushes the records built from its placemarks, labelled with the
      folder name, after what the accumulator held. */
  lemma {:induction false} AddPlacemarksIsBuilt(build: Builder, ps: seq<Placemark>, folderName: string, acc: seq<Restaurant>)
    ensures AddPlacemarks(build, ps, folderName, acc) == acc + Built(build, Label(ps, folderName))
    decreases |ps|
  {
    if |ps| > 0 {
      var acc' := match build(ps[0], folderName)
        case Some(r) => acc + [r]
        case None => acc;
      AddPlacemarksIsBuilt(build, ps[1..], folderName, acc');
      assert Label(ps, folderName) == [Item(ps[0], folderName)] + Label(ps[1..], folderName);
      BuiltAppend(build, [Item(ps[0], folderName)], Label(ps[1..], folderName));
    }
  }

  /** Walking one folder appends the records of its items. */
  lemma {:induction false} WalkFolderIsBuilt(build: Builder, f: Folder, acc: seq<Restaurant>)
    ensures WalkFolder(build, f, acc) == acc + Built(build, Items(f))
    decreases f, 1
  {
    var own := Built(build, OwnItems(f));
    var sub := Built(build, SubItems(f));
    AddOwnIsBuilt(build, f, acc);
    WalkSubFoldersIsBuilt(build, f, acc + own);
    assert WalkFolder(build, f, acc) == (acc + own) + sub;
    BuiltAppend(build, OwnItems(f), SubItems(f));
    Assoc(acc, own, sub);
  }

  lemma AddOwnIsBuilt(build: Builder, f: Folder, acc: seq<Restaurant>)
    ensures AddOwn(build, f, acc) == acc + Built(build, OwnItems(f))
  {
    if f.placemark.Some? {
      AddPlacemarksIsBuilt(build, AsSeq(f.placemark.value), FolderName(f), acc);
    }
  }

  lemma {:induction false} WalkSubFoldersIsBuilt(build: Builder, f: Folder, acc: seq<Restaurant>)
    ensures WalkSubFolders(build, f, acc) == acc + Built(build, SubItems(f))
    decreases f, 0
  {
    if f.folder.Some? {
      WalkFoldersIsBuilt(build, f.folder.value, 0, acc);
    } else {
      assert acc + [] == acc;
    }
  }

  /** Walking the folders from position `i` on appends the records of their items. */
  lemma {:induction false} WalkFoldersIsBuilt(build: Builder, folders: Many<Folder>, i: nat, acc: seq<Restaurant>)
    ensures WalkFolders(build, folders, i, acc) == acc + Built(build, ItemsOf(folders, i))
    decreases folders, |AsSeq(folders)| - i
  {
    if i < |AsSeq(folders)| {
      var f := AsSeq(folders)[i];
      assert f < folders by {
        assert f in AsSeq(folders);
      }
      var acc' := WalkFolder(build, f, acc);
      WalkFoldersStep(build, folders, i, acc);
      var here := Built(build, Items(f));
      var later := Built(build, ItemsOf(folders, i + 1));
      WalkFolderIsBuilt(build, f, acc);
      WalkFoldersIsBuilt(build, folders, i + 1, acc');
      BuiltAppend(build, Items(f), ItemsOf(folders, i + 1));
      Assoc(acc, here, later);
    } else {
      assert ItemsOf(folders, i) == [] && Built(build, []) == [];
      assert acc + [] == acc;
    }
  }

  /** One turn of the folder loop, for the walk and for the reference reading. */
  lemma WalkFoldersStep(build: Builder, folders: Many<Folder>, i: nat, acc: seq<Restaurant>)
    requires i < |AsSeq(folders)|
    ensures WalkFolders(build, folders, i, acc)
            == WalkFolders(build, folders, i + 1, WalkFolder(build, AsSeq(folders)[i], acc))
    ensures ItemsOf(folders, i) == Items(AsSeq(folders)[i]) + ItemsOf(folders, i + 1)
  {
  }

  lemma Assoc(a: seq<Restaurant>, b: seq<Restaurant>, c: seq<Restaurant>)
    ensures (a + b) + c == a + (b + c)
  {
  }

  /** A single folder node is walked as the one-element list holding it. */
  lemma SingleFolderIsList(build: Builder, f: Folder, acc: seq<Restaurant>)
    ensures WalkFolders(build, One(f), 0, acc) == WalkFolders(build, Many([f]), 0, acc)
  {
    WalkFoldersIsBuilt(build, One(f), 0, acc);
    WalkFoldersIsBuilt(build, Many([f]), 0, acc);
    assert ItemsOf(One(f), 1) == [] && ItemsOf(Many([f]), 1) == [];
  }
}

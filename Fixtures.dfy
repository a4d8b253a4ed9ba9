/**
 * The directory tree the library's own tests set up under
 * `vfs://public/gallery` (tests/TestCase.php:41-96), and what walking it
 * gives: the counts the album tests expect of `albums`, `getLeaves` and
 * `albumWalk`.
 */
module Fixtures {
  import opened Wrappers
  import opened Storage
  import opened FolderNames
  import opened AlbumSpecs

  /** A name starting with `_` and a title character is archived. */
  lemma ArchivedByUnderscore(s: string)
    requires |s| >= 2 && s[0] == '_' && TitleChar(s[1])
    ensures ArchivedName(s)
  {
    assert MatchStart(s, 0) == Some(0);
  }

  /** A name starting with a title character is not archived. */
  lemma UnarchivedByTitle(s: string)
    requires |s| >= 1 && TitleChar(s[0])
    ensures !ArchivedName(s)
  {
    assert MatchStart(s, 0) == Some(0);
  }

  function Bar(): Dir
  {
    Dir("bar", [], ["header.jpg", "img-1.jpg", "img-1_thumb.jpg", "img-2.jpg", "img-3.jpg", "img-3_thumb.jpg"])
  }

  function Bazzy(): Dir
  {
    Dir("bazzy", [], ["photo-1.jpg", "photo-2.jpg", "_photo-3.jpg", "photo-3_thumb.jpg"])
  }

  function Bazzybazz(): Dir
  {
    Dir("bazzybazz", [], ["photo-1.jpg", "2_photo-2.jpg", "1_photo-3.jpg", "photo-3_thumb.jpg"])
  }

  function Baz(): Dir
  {
    Dir("baz", [Bazzy(), Bazzybazz()], [])
  }

  function Boo(): Dir
  {
    Dir("_boo", [], ["photo-a.jpg", "photo-b.jpg", "photo-c.jpg", "sample-vid-1.mp4"])
  }

  function Featured(): Dir
  {
    Dir("featured_s", [], ["preview-a.mp4", "preview-b.mp4", "preview-c.mp4"])
  }

  function ArchivedPhotos(name: string): Dir
  {
    Dir(name, [], ["photo-1.jpg", "photo-2.jpg", "photo-3.jpg", "photo-3_thumb.jpg"])
  }

  function AllArchived(): Dir
  {
    Dir("all-archived", [ArchivedPhotos("_bazzy"), ArchivedPhotos("_bazzybazz")], [])
  }

  function Foo(): Dir
  {
    Dir("foo", [Bar(), Baz(), Boo(), Featured(), AllArchived()], [])
  }

  /** The gallery's base directory. */
  function GalleryRoot(): Dir
  {
    Dir("gallery", [Foo()], [])
  }

  /** Which of the test directories are archived. */
  lemma NamesArchived()
    ensures ArchivedName("_boo") && ArchivedName("_bazzy") && ArchivedName("_bazzybazz")
    ensures !ArchivedName("foo") && !ArchivedName("bar") && !ArchivedName("baz")
    ensures !ArchivedName("bazzy") && !ArchivedName("bazzybazz")
    ensures !ArchivedName("featured_s") && !ArchivedName("all-archived")
  {
    ArchivedByUnderscore("_boo");
    ArchivedByUnderscore("_bazzy");
    ArchivedByUnderscore("_bazzybazz");
    UnarchivedByTitle("foo");
    UnarchivedByTitle("bar");
    UnarchivedByTitle("baz");
    UnarchivedByTitle("bazzy");
    UnarchivedByTitle("bazzybazz");
    UnarchivedByTitle("featured_s");
    UnarchivedByTitle("all-archived");
  }

  /** `_boo` is an archived album titled `boo`, not sticky (tests/AlbumTest.php:202-222, 309-312). */
  lemma BooName()
    ensures ParseFolderName("_boo") == Some(FolderInfo(true, "boo", false))
  {
    var info := FolderInfo(true, "boo", false);
    ParseFormatFolderName(info);
    assert FormatFolderName(info) == "_boo";
  }

  /** `featured_s` is a sticky album titled `featured`, not archived (tests/AlbumTest.php:215-218). */
  lemma FeaturedName()
    ensures ParseFolderName("featured_s") == Some(FolderInfo(false, "featured", true))
  {
    var info := FolderInfo(false, "featured", true);
    ParseFormatFolderName(info);
    assert FormatFolderName(info) == "featured_s";
  }

  /** Filtering keeps an unarchived directory in front of others. */
  lemma UnarchivedKeep(k: Dir, ds: seq<Dir>, rest: seq<Dir>)
    requires !ArchivedName(k.name) && UnarchivedDirs(ds) == rest
    ensures UnarchivedDirs([k] + ds) == [k] + rest
  {
    assert ([k] + ds)[1..] == ds;
  }

  /** Filtering drops an archived directory in front of others. */
  lemma UnarchivedDrop(k: Dir, ds: seq<Dir>, rest: seq<Dir>)
    requires ArchivedName(k.name) && UnarchivedDirs(ds) == rest
    ensures UnarchivedDirs([k] + ds) == rest
  {
    assert ([k] + ds)[1..] == ds;
  }

  /** Five directories put in front of each other one at a time. */
  lemma Nested(a: Dir, b: Dir, c: Dir, e: Dir, f: Dir)
    ensures [a] + ([b] + ([c] + ([e] + [f]))) == [a, b, c, e, f]
    ensures [a] + ([b] + ([e] + [f])) == [a, b, e, f]
  {
  }

  /** Filtering keeps the unarchived ones among five directories, in order. */
  lemma UnarchivedOfFive(a: Dir, b: Dir, c: Dir, e: Dir, f: Dir)
    requires !ArchivedName(a.name) && !ArchivedName(b.name) && ArchivedName(c.name)
    requires !ArchivedName(e.name) && !ArchivedName(f.name)
    ensures UnarchivedDirs([a, b, c, e, f]) == [a, b, e, f]
  {
    UnarchivedKeep(f, [], []);
    assert [f] + [] == [f];
    UnarchivedKeep(e, [f], [f]);
    UnarchivedDrop(c, [e] + [f], [e] + [f]);
    UnarchivedKeep(b, [c] + ([e] + [f]), [e] + [f]);
    UnarchivedKeep(a, [b] + ([c] + ([e] + [f])), [b] + ([e] + [f]));
    Nested(a, b, c, e, f);
  }

  /** `albums()` on `foo` lists four sub-albums, `albums(true)` five (tests/AlbumTest.php:103-127). */
  lemma FooAlbums()
    ensures Kids(Foo(), false) == [Bar(), Baz(), Featured(), AllArchived()]
    ensures |Kids(Foo(), false)| == 4 && |Kids(Foo(), true)| == 5
  {
    NamesArchived();
    UnarchivedOfFive(Bar(), Baz(), Boo(), Featured(), AllArchived());
  }

  /** Walking one more directory at the end appends its walk. */
  lemma WalkAllSnoc(parent: Dir, ds: seq<Dir>, k: Dir, pos: seq<string>, withArchived: bool)
    requires forall x | x in ds + [k] :: x in parent.subdirs
    ensures WalkAll(parent, ds + [k], pos, withArchived)
         == WalkAll(parent, ds, pos, withArchived) + Walk(k, pos + [k.name], withArchived)
  {
    assert (ds + [k])[..|ds|] == ds;
  }

  /** Collecting the leaves of one more directory at the end appends them. */
  lemma LeavesAllSnoc(parent: Dir, ds: seq<Dir>, k: Dir, pos: seq<string>, withArchived: bool)
    requires forall x | x in ds + [k] :: x in parent.subdirs
    ensures LeavesAll(parent, ds + [k], pos, withArchived)
         == LeavesAll(parent, ds, pos, withArchived) + Leaves(k, pos + [k.name], withArchived)
  {
    assert (ds + [k])[..|ds|] == ds;
  }

  /** A directory without sub-directories is its own walk and its own only leaf. */
  lemma Childless(d: Dir, pos: seq<string>, withArchived: bool)
    requires d.subdirs == []
    ensures Walk(d, pos, withArchived) == [pos] && Leaves(d, pos, withArchived) == [pos]
  {
    assert Kids(d, withArchived) == [];
  }

  /** The walk and the leaves of a directory over two childless sub-directories. */
  lemma TwoLeaves(d: Dir, x: Dir, y: Dir, pos: seq<string>, withArchived: bool)
    requires d.subdirs == [x, y] && x.subdirs == [] && y.subdirs == []
    requires Kids(d, withArchived) == d.subdirs
    ensures |Walk(d, pos, withArchived)| == 3 && |Leaves(d, pos, withArchived)| == 2
  {
    assert [] + [x] == [x];
    assert [x] + [y] == [x, y];
    WalkAllSnoc(d, [], x, pos, withArchived);
    WalkAllSnoc(d, [x], y, pos, withArchived);
    LeavesAllSnoc(d, [], x, pos, withArchived);
    LeavesAllSnoc(d, [x], y, pos, withArchived);
    Childless(x, pos + [x.name], withArchived);
    Childless(y, pos + [y.name], withArchived);
  }

  /** Two sub-directories filtered together. */
  lemma UnarchivedOfTwo(x: Dir, y: Dir)
    ensures !ArchivedName(x.name) && !ArchivedName(y.name) ==> UnarchivedDirs([x, y]) == [x, y]
    ensures ArchivedName(x.name) && ArchivedName(y.name) ==> UnarchivedDirs([x, y]) == []
  {
    assert [y] + [] == [y];
    assert [x] + [y] == [x, y];
    if !ArchivedName(x.name) && !ArchivedName(y.name) {
      UnarchivedKeep(y, [], []);
      UnarchivedKeep(x, [y], [y]);
    }
    if ArchivedName(x.name) && ArchivedName(y.name) {
      UnarchivedDrop(y, [], []);
      UnarchivedDrop(x, [y], []);
    }
  }

  /** `baz` holds two unarchived leaves: its walk has three albums and two leaves. */
  lemma BazShape(pos: seq<string>, withArchived: bool)
    ensures |Walk(Baz(), pos, withArchived)| == 3 && |Leaves(Baz(), pos, withArchived)| == 2
  {
    UnarchivedByTitle("bazzy");
    UnarchivedByTitle("bazzybazz");
    UnarchivedOfTwo(Bazzy(), Bazzybazz());
    TwoLeaves(Baz(), Bazzy(), Bazzybazz(), pos, withArchived);
  }

  /** `all-archived` holds two archived leaves, which only the archived walk visits. */
  lemma AllArchivedShape(pos: seq<string>)
    ensures |Walk(AllArchived(), pos, false)| == 1 && |Leaves(AllArchived(), pos, false)| == 0
    ensures |Walk(AllArchived(), pos, true)| == 3 && |Leaves(AllArchived(), pos, true)| == 2
  {
    var a, b := ArchivedPhotos("_bazzy"), ArchivedPhotos("_bazzybazz");
    ArchivedByUnderscore(a.name);
    ArchivedByUnderscore(b.name);
    UnarchivedOfTwo(a, b);
    assert Kids(AllArchived(), false) == [];
    TwoLeaves(AllArchived(), a, b, pos, true);
  }

  /** Five directories appended one at a time. */
  lemma Appended(a: Dir, b: Dir, c: Dir, e: Dir, f: Dir)
    ensures [a, b, c, e, f] == [] + [a] + [b] + [c] + [e] + [f]
    ensures [a, b, e, f] == [] + [a] + [b] + [e] + [f]
  {
  }

  /**
   * Walking `foo` without the archived albums: seven albums and four
   * leaves (tests/AlbumTest.php:250-255).
   */
  lemma FooShapeUnarchived(pos: seq<string>)
    ensures |Walk(Foo(), pos, false)| == 7 && |Leaves(Foo(), pos, false)| == 4
  {
    FooAlbums();
    var a, b, c, e, f := Bar(), Baz(), Boo(), Featured(), AllArchived();
    Appended(a, b, c, e, f);
    WalkAllSnoc(Foo(), [], a, pos, false);
    WalkAllSnoc(Foo(), [] + [a], b, pos, false);
    WalkAllSnoc(Foo(), [] + [a] + [b], e, pos, false);
    WalkAllSnoc(Foo(), [] + [a] + [b] + [e], f, pos, false);
    LeavesAllSnoc(Foo(), [], a, pos, false);
    LeavesAllSnoc(Foo(), [] + [a], b, pos, false);
    LeavesAllSnoc(Foo(), [] + [a] + [b], e, pos, false);
    LeavesAllSnoc(Foo(), [] + [a] + [b] + [e], f, pos, false);
    Childless(a, pos + [a.name], false);
    Childless(e, pos + [e.name], false);
    BazShape(pos + [b.name], false);
    AllArchivedShape(pos + [f.name]);
  }

  /**
   * Walking `foo` with the archived albums: ten albums and seven leaves
   * (tests/AlbumTest.php:256-260).
   */
  lemma FooShapeAll(pos: seq<string>)
    ensures |Walk(Foo(), pos, true)| == 10 && |Leaves(Foo(), pos, true)| == 7
  {
    var a, b, c, e, f := Bar(), Baz(), Boo(), Featured(), AllArchived();
    Appended(a, b, c, e, f);
    WalkAllSnoc(Foo(), [], a, pos, true);
    WalkAllSnoc(Foo(), [] + [a], b, pos, true);
    WalkAllSnoc(Foo(), [] + [a] + [b], c, pos, true);
    WalkAllSnoc(Foo(), [] + [a] + [b] + [c], e, pos, true);
    WalkAllSnoc(Foo(), [] + [a] + [b] + [c] + [e], f, pos, true);
    LeavesAllSnoc(Foo(), [], a, pos, true);
    LeavesAllSnoc(Foo(), [] + [a], b, pos, true);
    LeavesAllSnoc(Foo(), [] + [a] + [b], c, pos, true);
    LeavesAllSnoc(Foo(), [] + [a] + [b] + [c], e, pos, true);
    LeavesAllSnoc(Foo(), [] + [a] + [b] + [c] + [e], f, pos, true);
    Childless(a, pos + [a.name], true);
    Childless(c, pos + [c.name], true);
    Childless(e, pos + [e.name], true);
    BazShape(pos + [b.name], true);
    AllArchivedShape(pos + [f.name]);
  }

  /**
   * `albumWalk` from the gallery's base album visits eight albums, and
   * eleven with the archived ones (tests/AlbumTest.php:379-397).
   */
  lemma GalleryWalk()
    ensures |Walk(GalleryRoot(), [], false)| == 8 && |Walk(GalleryRoot(), [], true)| == 11
  {
    UnarchivedByTitle("foo");
    UnarchivedKeep(Foo(), [], []);
    assert [Foo()] + [] == [Foo()] == [] + [Foo()];
    assert Kids(GalleryRoot(), false) == [Foo()];
    WalkAllSnoc(GalleryRoot(), [], Foo(), [], false);
    WalkAllSnoc(GalleryRoot(), [], Foo(), [], true);
    FooShapeUnarchived([] + ["foo"]);
    FooShapeAll([] + ["foo"]);
  }
}

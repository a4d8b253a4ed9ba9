/**
 * What the library's file and gallery tests expect of the test tree under
 * `vfs://public/gallery` (tests/FileTest.php, tests/GalleryTest.php and the
 * content counts of tests/AlbumTest.php), stated of the model's functions
 * and of `File` objects on those paths.
 */
module FileFixtures {
  import opened Wrappers
  import opened FilePaths
  import opened Storage
  import opened FileNames
  import opened FolderNames
  import opened AlbumSpecs
  import opened Files
  import opened Galleries
  import opened Fixtures

  /** The configuration the tests run with (tests/TestCase.php). */
  function TestConfig(): Config
  {
    Config('/', "vfs://public/gallery", "http://test.com/gallery", "header.jpg", "vfs://public/index_store")
  }

  /** The name `getName` reads off a path is what follows the last slash. */
  lemma NameOfPath(dir: string, name: string)
    requires '/' !in name
    ensures LastSegment(dir + "/" + name, '/') == name
  {
    var p := dir + "/" + name;
    assert p[|dir|] == '/' && p[|dir| + 1..] == name;
    LastSegmentAfter(p, '/', |dir|);
  }

  // ---------------------------------------------------------------------
  // File names

  /** A name that spells attributes the convention spells unambiguously parses to them. */
  lemma ParsesAs(name: string, info: FileInfo)
    requires Spellable(info) && FormatFilename(info) == name
    ensures '\n' !in name && ParseFilename(name) == Some(info)
  {
    ParseFormatFilename(info);
  }

  /** `img-1.jpg` has the extension `jpg` (tests/FileTest.php:13-16). */
  lemma Img1Name()
    ensures ParseFilename("img-1.jpg") == Some(FileInfo(false, "", "img-1", false, "jpg"))
  {
    ParsesAs("img-1.jpg", FileInfo(false, "", "img-1", false, "jpg"));
  }

  /** `sample-vid-1.mp4` has the extension `mp4` (tests/FileTest.php:18-19). */
  lemma SampleVidName()
    ensures ParseFilename("sample-vid-1.mp4") == Some(FileInfo(false, "", "sample-vid-1", false, "mp4"))
  {
    ParsesAs("sample-vid-1.mp4", FileInfo(false, "", "sample-vid-1", false, "mp4"));
  }

  /** `2_photo-2.jpg` has the order 2 (tests/FileTest.php:29-30). */
  lemma OrderedPhoto2Name()
    ensures ParseFilename("2_photo-2.jpg") == Some(FileInfo(false, "2", "photo-2", false, "jpg"))
  {
    ParsesAs("2_photo-2.jpg", FileInfo(false, "2", "photo-2", false, "jpg"));
  }

  /** `photo-1.jpg` has the empty order (tests/FileTest.php:35-36). */
  lemma Photo1Name()
    ensures ParseFilename("photo-1.jpg") == Some(FileInfo(false, "", "photo-1", false, "jpg"))
  {
    ParsesAs("photo-1.jpg", FileInfo(false, "", "photo-1", false, "jpg"));
  }

  /** `1_photo-3.jpg` has the title `photo-3` (tests/FileTest.php:97-101). */
  lemma OrderedPhoto3Name()
    ensures ParseFilename("1_photo-3.jpg") == Some(FileInfo(false, "1", "photo-3", false, "jpg"))
  {
    ParsesAs("1_photo-3.jpg", FileInfo(false, "1", "photo-3", false, "jpg"));
  }

  /** `photo-3_thumb.jpg` is a thumbnail (tests/FileTest.php:133-134). */
  lemma Photo3ThumbName()
    ensures ParseFilename("photo-3_thumb.jpg") == Some(FileInfo(false, "", "photo-3", true, "jpg"))
  {
    ParsesAs("photo-3_thumb.jpg", FileInfo(false, "", "photo-3", true, "jpg"));
  }

  /** `photo-2.jpg` is neither a thumbnail nor archived (tests/FileTest.php:110-111, 136-137). */
  lemma Photo2Name()
    ensures ParseFilename("photo-2.jpg") == Some(FileInfo(false, "", "photo-2", false, "jpg"))
  {
    ParsesAs("photo-2.jpg", FileInfo(false, "", "photo-2", false, "jpg"));
  }

  /** `_photo-3.jpg` is archived by its own name (tests/FileTest.php:116-117). */
  lemma ArchivedPhoto3Name()
    ensures ParseFilename("_photo-3.jpg") == Some(FileInfo(true, "", "photo-3", false, "jpg"))
  {
    ParsesAs("_photo-3.jpg", FileInfo(true, "", "photo-3", false, "jpg"));
  }

  /** `photo-c.jpg` is not archived by its own name (tests/FileTest.php:122-123). */
  lemma PhotoCName()
    ensures ParseFilename("photo-c.jpg") == Some(FileInfo(false, "", "photo-c", false, "jpg"))
  {
    ParsesAs("photo-c.jpg", FileInfo(false, "", "photo-c", false, "jpg"));
  }

  /** A thumbnail and a plain picture (tests/FileTest.php:131-138). */
  lemma ThumbnailFixtures()
    ensures IsThumbnail(ParseFilename("photo-3_thumb.jpg")) && !IsThumbnail(ParseFilename("photo-2.jpg"))
  {
    Photo3ThumbName();
    Photo2Name();
  }

  /** A file name that parses with the archive mark. */
  predicate OwnArchived(info: Option<FileInfo>)
  {
    info.Some? && info.value.isArchived
  }

  /**
   * `photo-2.jpg` in `foo/baz/bazzy` is not archived, `_photo-3.jpg` is by
   * its own name, and `photo-c.jpg` in `foo/_boo` is by its album's
   * (tests/FileTest.php:108-124): the test `File.isArchived` makes.
   */
  lemma ArchivedFixtures()
    ensures !(OwnArchived(ParseFilename("photo-2.jpg")) || AncestorArchived(["foo", "baz", "bazzy"]))
    ensures OwnArchived(ParseFilename("_photo-3.jpg"))
    ensures !OwnArchived(ParseFilename("photo-c.jpg")) && AncestorArchived(["foo", "_boo"])
  {
    Photo2Name();
    ArchivedPhoto3Name();
    PhotoCName();
    AncestorsFixture();
  }

  /** The archived test up the tree for the two test albums. */
  lemma AncestorsFixture()
    ensures !AncestorArchived(["foo", "baz", "bazzy"]) && AncestorArchived(["foo", "_boo"])
  {
    UnarchivedByTitle("foo");
    UnarchivedByTitle("baz");
    UnarchivedByTitle("bazzy");
    ArchivedByUnderscore("_boo");
    var s := ["foo", "baz", "bazzy"];
    assert s[0] == "foo" && s[1] == "baz" && s[2] == "bazzy";
    var t := ["foo", "_boo"];
    assert t[1] == "_boo";
  }

  /** `getContainingDirectory('/foo/bar/baz.jpg')` is `/foo/bar` (tests/FileTest.php:157-160). */
  lemma ContainingDirectoryFixture()
    ensures ContainingDirectory("/foo/bar/baz.jpg", '/') == "/foo/bar"
  {
    ContainingDirectoryOfJoin("/foo/bar", "baz.jpg", '/');
    assert JoinPath("/foo/bar", "baz.jpg", '/') == "/foo/bar/baz.jpg";
  }

  // ---------------------------------------------------------------------
  // File objects

  /** The file `2_photo-2.jpg` of `foo/baz/bazzybazz` under the test configuration. */
  predicate OnPhoto2(f: File)
  {
    f.album.disk.cfg == TestConfig() && f.path == Photo2Dir() + "/" + "2_photo-2.jpg"
  }

  /** The directory `foo/baz/bazzybazz` below the test base directory. */
  function Photo2Dir(): string
  {
    TestConfig().baseDir + "/foo" + "/baz" + "/bazzybazz"
  }

  /** The file's path ends in its name `2_photo-2.jpg` (tests/FileTest.php:44-48, 66-70). */
  lemma Photo2Fixture(f: File)
    requires OnPhoto2(f)
    ensures LastSegment(f.GetPath(), '/') == "2_photo-2.jpg"
  {
    NameOfPath(Photo2Dir(), "2_photo-2.jpg");
  }

  /** The same file's order is 2 and its title `photo-2` (tests/FileTest.php:27-31). */
  lemma Photo2OrderFixture(f: File)
    requires f.Parsed() && OnPhoto2(f)
    ensures f.GetOrder() == Some("2") && f.GetTitle() == Some("photo-2")
  {
    Photo2Fixture(f);
    OrderedPhoto2Name();
  }

  /** The same file's URL is the root URL followed by its path below the base directory (tests/FileTest.php:55-59). */
  lemma Photo2UrlFixture(f: File)
    requires OnPhoto2(f)
    ensures UrlOf(f.album.disk.cfg, f.path) == TestConfig().rootUrl + Photo2Rest()
  {
    assert f.path == TestConfig().baseDir + Photo2Rest();
    UrlFixture();
  }

  /**
   * The URL of a file below the base directory, when the base's first
   * character does not occur again and no backslash does, is the root URL
   * followed by the rest of the path.
   */
  lemma UrlUnder(cfg: Config, rest: string)
    requires cfg.baseDir != [] && cfg.baseDir[0] !in rest && '\\' !in cfg.rootUrl + rest
    ensures UrlOf(cfg, cfg.baseDir + rest) == cfg.rootUrl + rest
  {
    AbsentChar(cfg.baseDir, rest, 0);
    UrlAsWrittenAgrees(cfg, rest);
    ReplaceAbsent(cfg.rootUrl + rest, '\\', '/');
  }

  /** The path of `foo/baz/bazzybazz/2_photo-2.jpg` below the base directory. */
  function Photo2Rest(): string
  {
    "/foo" + "/baz" + "/bazzybazz" + "/2_photo-2.jpg"
  }

  /**
   * The URL of `foo/baz/bazzybazz/2_photo-2.jpg` is `http://test.com/gallery`
   * followed by that path (tests/FileTest.php:55-59).
   */
  lemma UrlFixture()
    ensures UrlOf(TestConfig(), TestConfig().baseDir + Photo2Rest()) == TestConfig().rootUrl + Photo2Rest()
  {
    Photo2RestPlain();
    Photo2UrlPlain();
    UrlUnder(TestConfig(), Photo2Rest());
  }

  /** The path below the base directory holds no `v`, the base's first character. */
  lemma Photo2RestPlain()
    ensures TestConfig().baseDir[0] !in Photo2Rest()
  {
    assert 'v' !in "/foo" && 'v' !in "/baz";
    assert 'v' !in "/bazzybazz" && 'v' !in "/2_photo-2.jpg";
  }

  /** Neither the root URL nor the path below the base directory holds a backslash. */
  lemma Photo2UrlPlain()
    ensures '\\' !in TestConfig().rootUrl + Photo2Rest()
  {
    assert '\\' !in "/foo" && '\\' !in "/baz";
    assert '\\' !in "/bazzybazz" && '\\' !in "/2_photo-2.jpg";
    assert '\\' !in "http:" + "//test.com" + "/gallery";
  }

  // ---------------------------------------------------------------------
  // Content of `foo/bar`

  /** A name ending in `.jpg` is a picture: neither the sidecar nor a caption. */
  lemma JpgName(stem: string)
    ensures TypeOfName(stem + ".jpg") == Some(Jpg)
  {
    var f := stem + ".jpg";
    var n := |f|;
    assert f[n - 4] == '.' && f[n - 3] == 'j' && f[n - 2] == 'p' && f[n - 1] == 'g';
    assert f[n - 3..] == "jpg";
    LastDot(f, n - 4);
    assert Extension(f) == "jpg";
    assert f != MetaFileName by {
      assert MetaFileName[|MetaFileName| - 1] == 'o';
    }
    LastSegmentEnds(f, '_');
    assert CaptionSuffix[|CaptionSuffix| - 1] == 't';
  }

  /** A path not ending in the delimiter has a last segment ending in the same character. */
  lemma LastSegmentEnds(f: string, d: char)
    requires f != [] && f[|f| - 1] != d
    ensures var last := LastSegment(f, d); last != [] && last[|last| - 1] == f[|f| - 1]
  {
    match LastIndexOf(f, d)
    case None =>
      assert IndexOf(f, d) == |f|;
      assert Split(f, d) == [f];
    case Some(i) =>
      LastSegmentAfter(f, d, i);
  }

  /** What `loadContent` keeps of a listed `.jpg` file with an unreserved name. */
  lemma ClassifyJpg(dir: string, stem: string, info: FileInfo, reserved: seq<string>)
    requires NameOk(stem + ".jpg") && stem + ".jpg" !in reserved
    requires ParseFilename(stem + ".jpg") == Some(info)
    ensures Classify(dir, stem + ".jpg", reserved, '/') == Some(Listed(info.title, info.isThumbnail, Pic(dir, stem + ".jpg")))
  {
    JpgName(stem);
    ListedName(dir, stem + ".jpg", '/');
    TypeDependsOnNameOnly(ListedPath(dir, stem + ".jpg", '/'), '/');
  }

  /** A picture listed in `dir`. */
  function Pic(dir: string, name: string): Media
  {
    Media(ListedPath(dir, name, '/'), Jpg)
  }

  /** The header image of `foo/bar` is reserved, so `loadContent` skips it. */
  lemma BarHeaderSkipped(dir: string)
    ensures Classify(dir, "header.jpg", ReservedNames(TestConfig()), '/') == None
  {
    ListedName(dir, "header.jpg", '/');
  }

  /** The name of the `.jpg` picture titled `stem`, or of its thumbnail. */
  function JpgOf(stem: string, thumb: bool): string
  {
    FormatFilename(FileInfo(false, "", stem, thumb, "jpg"))
  }

  /**
   * An unreserved `.jpg` picture whose title is one plain word is kept
   * under that title, as a thumbnail exactly when its name says so.
   */
  lemma JpgKept(dir: string, stem: string, thumb: bool, reserved: seq<string>)
    requires stem != "" && !IsDigit(stem[0]) && '_' !in stem && '.' !in stem && NameOk(stem)
    requires JpgOf(stem, thumb) !in reserved
    ensures NameOk(JpgOf(stem, thumb))
    ensures Classify(dir, JpgOf(stem, thumb), reserved, '/') == Some(Listed(stem, thumb, Pic(dir, JpgOf(stem, thumb))))
  {
    JpgOfParses(stem, thumb);
    ClassifyJpg(dir, stem + (if thumb then "_thumb" else ""), FileInfo(false, "", stem, thumb, "jpg"), reserved);
  }

  /** The name of a picture titled with one plain word is proper and parses back to that title. */
  lemma JpgOfParses(stem: string, thumb: bool)
    requires stem != "" && !IsDigit(stem[0]) && '_' !in stem && '.' !in stem && NameOk(stem)
    ensures var base := stem + (if thumb then "_thumb" else "");
      JpgOf(stem, thumb) == base + ".jpg" && NameOk(base + ".jpg") &&
      ParseFilename(base + ".jpg") == Some(FileInfo(false, "", stem, thumb, "jpg"))
  {
    JpgOfProper(stem, thumb);
    assert Spellable(FileInfo(false, "", stem, thumb, "jpg"));
    ParseFormatFilename(FileInfo(false, "", stem, thumb, "jpg"));
  }

  /** The name of a picture with a proper title is proper, and ends in `.jpg`. */
  lemma JpgOfProper(stem: string, thumb: bool)
    requires NameOk(stem)
    ensures var base := stem + (if thumb then "_thumb" else "");
      JpgOf(stem, thumb) == base + ".jpg" && NameOk(base + ".jpg")
  {
    var base := stem + (if thumb then "_thumb" else "");
    assert "" + "" + "" + stem == stem;
    assert NameOk(base + ".jpg");
  }

  /** The name of a picture is its title followed by `.jpg`, `_thumb.jpg` for a thumbnail. */
  lemma JpgOfSpelled(stem: string, thumb: bool)
    ensures JpgOf(stem, thumb) == stem + (if thumb then "_thumb.jpg" else ".jpg")
  {
    var mk := if thumb then "_thumb" else "";
    assert "" + "" + "" + stem == stem;
    assert stem + mk + "." + "jpg" == stem + (mk + "." + "jpg");
    assert mk + "." + "jpg" == (if thumb then "_thumb.jpg" else ".jpg");
  }

  /** The pictures titled `img-1`, spelled by the naming convention. */
  lemma Img1Spelled()
    ensures JpgOf("img-1", false) == "img-1.jpg" && JpgOf("img-1", true) == "img-1_thumb.jpg"
  {
    JpgOfSpelled("img-1", false);
    assert "img-1" + ".jpg" == "img-1.jpg";
    JpgOfSpelled("img-1", true);
    assert "img-1" + "_thumb.jpg" == "img-1_thumb.jpg";
  }

  /** The pictures titled `img-2` and `img-3`, spelled by the naming convention. */
  lemma Img23Spelled()
    ensures JpgOf("img-2", false) == "img-2.jpg"
    ensures JpgOf("img-3", false) == "img-3.jpg" && JpgOf("img-3", true) == "img-3_thumb.jpg"
  {
    JpgOfSpelled("img-2", false);
    assert "img-2" + ".jpg" == "img-2.jpg";
    JpgOfSpelled("img-3", false);
    assert "img-3" + ".jpg" == "img-3.jpg";
    JpgOfSpelled("img-3", true);
    assert "img-3" + "_thumb.jpg" == "img-3_thumb.jpg";
  }

  /** The five pictures of `foo/bar` are spelled by the naming convention. */
  lemma BarNames()
    ensures Bar().files == ["header.jpg", JpgOf("img-1", false), JpgOf("img-1", true),
                            JpgOf("img-2", false), JpgOf("img-3", false), JpgOf("img-3", true)]
  {
    Img1Spelled();
    Img23Spelled();
  }

  /**
   * Five kept files under three titles, the first and the third title with
   * a picture then its thumbnail, fill three slots in order of the titles.
   */
  lemma FoldOfBar(l1: Listed, l2: Listed, l3: Listed, l4: Listed, l5: Listed)
    requires l1.key == l2.key && l4.key == l5.key
    requires l1.key != l3.key && l3.key != l4.key && l1.key != l4.key
    requires !l1.isThumb && l2.isThumb && !l3.isThumb && !l4.isThumb && l5.isThumb
    ensures Fold([l1, l2, l3, l4, l5]) ==
      [ Slot(l1.key, Some(l2.media), Some(l1.media)),
        Slot(l3.key, None, Some(l3.media)),
        Slot(l4.key, Some(l5.media), Some(l4.media)) ]
  {
    FoldFive(l1, l2, l3, l4, l5);
    PutsOfBar(l1, l2, l3, l4, l5);
  }

  /** Five files put into an empty table in turn, under the titles of `foo/bar`. */
  lemma PutsOfBar(l1: Listed, l2: Listed, l3: Listed, l4: Listed, l5: Listed)
    requires l1.key == l2.key && l4.key == l5.key
    requires l1.key != l3.key && l3.key != l4.key && l1.key != l4.key
    requires !l1.isThumb && l2.isThumb && !l3.isThumb && !l4.isThumb && l5.isThumb
    ensures Put(Put(Put(Put(Put([], l1), l2), l3), l4), l5) ==
      [ Slot(l1.key, Some(l2.media), Some(l1.media)),
        Slot(l3.key, None, Some(l3.media)),
        Slot(l4.key, Some(l5.media), Some(l4.media)) ]
  {
    var c1 := [Slot(l1.key, None, Some(l1.media))];
    assert Put([], l1) == c1;
    var c2 := [Slot(l1.key, Some(l2.media), Some(l1.media))];
    assert Find(c1, l2.key) == Some(0);
    var c3 := c2 + [Slot(l3.key, None, Some(l3.media))];
    assert Find(c2, l3.key) == None;
    var c4 := c3 + [Slot(l4.key, None, Some(l4.media))];
    assert Find(c3, l4.key) == None;
    assert Find(c4, l5.key) == Some(2);
  }

  /** The table of five kept files is built by putting them in one after another. */
  lemma FoldFive(l1: Listed, l2: Listed, l3: Listed, l4: Listed, l5: Listed)
    ensures Fold([l1, l2, l3, l4, l5]) == Put(Put(Put(Put(Put([], l1), l2), l3), l4), l5)
  {
    FoldSnoc([], l1);
    assert [] + [l1] == [l1];
    FoldSnoc([l1], l2);
    assert [l1] + [l2] == [l1, l2];
    FoldSnoc([l1, l2], l3);
    assert [l1, l2] + [l3] == [l1, l2, l3];
    FoldSnoc([l1, l2, l3], l4);
    assert [l1, l2, l3] + [l4] == [l1, l2, l3, l4];
    FoldSnoc([l1, l2, l3, l4], l5);
    assert [l1, l2, l3, l4] + [l5] == [l1, l2, l3, l4, l5];
  }

  /** Folding one more kept file puts it into the table of the ones before. */
  lemma FoldSnoc(ls: seq<Listed>, l: Listed)
    ensures Fold(ls + [l]) == Put(Fold(ls), l)
  {
    assert (ls + [l])[..|ls|] == ls;
  }

  // ---------------------------------------------------------------------
  // The gallery

  /** The parent folder of a name joined under `p` is `p`. */
  lemma ParentOfJoin(p: string, name: string, d: char)
    requires d !in name
    ensures ParentOf(JoinPath(p, name, d), d) == p
  {
    var base := JoinPath(p, name, d);
    assert base[|p|] == d && base[|p| + 1..] == name;
    LastSegmentAfter(base, d, |p|);
    ParentOfSpellsBase(base, d);
    var q := ParentOf(base, d);
    assert q + [d] + name == base;
    assert |q| == |p|;
    assert q == base[..|p|];
  }

  /** The parent folder of `vfs://public/gallery` is `vfs://public` (tests/GalleryTest.php:9-13). */
  lemma ParentFixture()
    ensures ParentOf("vfs://public/gallery", '/') == "vfs://public"
  {
    ParentOfJoin("vfs://public", "gallery", '/');
    assert JoinPath("vfs://public", "gallery", '/') == "vfs://public/gallery";
  }

  /** `getAlbum(['foo', 'bar'])` finds an album and `getAlbum(['not', 'here'])` none (tests/GalleryTest.php:31-38). */
  lemma AlbumLookupFixture()
    ensures Lookup(GalleryRoot(), ["foo", "bar"]) == Some(Bar())
    ensures Lookup(GalleryRoot(), ["not", "here"]) == None
  {
    assert ["foo", "bar"][1..] == ["bar"] && ["bar"][1..] == [];
    assert Child(GalleryRoot().subdirs, "foo") == Some(Foo());
    assert Child(Foo().subdirs, "bar") == Some(Bar());
    assert Child(GalleryRoot().subdirs, "not") == None;
  }
}

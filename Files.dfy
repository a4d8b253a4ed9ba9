/**
 * A file inside an album (src/BrokunMusheen/FSGallery/File.php): its parsed
 * name, its URL, whether it is archived, and its thumbnail.
 *
 * The pure parts of the class (`_parseFilename`, `type`,
 * `getContainingDirectory`) live in the FileNames module; this module holds
 * the object, its memoised name and URL, and the operations that consult
 * the album.
 */
module Files {
  import opened Wrappers
  import opened FilePaths
  import opened FileNames
  import opened FolderNames
  import opened Storage
  import opened AlbumSpecs
  import opened Albums

  // ---------------------------------------------------------------------
  // Making a path relative to the base directory

  /**
   * `str_replace($search, '', $subject)`: every occurrence of `search`
   * removed, found from left to right without overlap; an empty `search`
   * changes nothing.
   */
  function RemoveAll(s: string, search: string): (r: string)
    ensures |r| <= |s|
    decreases |s|
  {
    if search == [] || |s| < |search| then s
    else if s[..|search|] == search then RemoveAll(s[|search|..], search)
    else [s[0]] + RemoveAll(s[1..], search)
  }

  /** `search` occurs somewhere in `s`. */
  predicate OccursIn(search: string, s: string)
  {
    exists k | 0 <= k <= |s| :: search <= s[k..]
  }

  /** The base directory with the path's leading copy of it removed, as the source means to. */
  function Relative(path: string, base: string): (r: string)
    ensures base <= path ==> base + r == path
    ensures !(base <= path) ==> r == path
  {
    if base <= path then path[|base|..] else path
  }

  /** Removing a string that does not occur changes nothing. */
  lemma {:induction false} RemoveAbsent(s: string, search: string)
    requires search != [] && !OccursIn(search, s)
    ensures RemoveAll(s, search) == s
    decreases |s|
  {
    if |s| >= |search| {
      assert s[0..] == s;
      assert !OccursIn(search, s[1..]) by {
        forall k | 0 <= k <= |s| - 1
          ensures !(search <= s[1..][k..])
        {
          assert s[1..][k..] == s[k + 1..];
        }
      }
      RemoveAbsent(s[1..], search);
      assert s == [s[0]] + s[1..];
    }
  }

  /** A string holding a character that `s` lacks does not occur in `s`. */
  lemma AbsentChar(search: string, s: string, i: nat)
    requires i < |search| && search[i] !in s
    ensures !OccursIn(search, s)
  {
    forall k | 0 <= k <= |s|
      ensures !(search <= s[k..])
    {
      if k + i < |s| {
        assert s[k + i] in s;
        assert s[k..][i] == s[k + i];
      }
    }
  }

  /**
   * When the base directory occurs in the path only as its prefix, removing
   * every occurrence is removing the prefix.
   */
  lemma RemoveOnlyPrefix(base: string, rest: string)
    requires base != [] && !OccursIn(base, rest)
    ensures RemoveAll(base + rest, base) == Relative(base + rest, base) == rest
  {
    var s := base + rest;
    assert s[..|base|] == base && s[|base|..] == rest;
    RemoveAbsent(rest, base);
  }

  /**
   * `getUrl` as written (src/BrokunMusheen/FSGallery/File.php:104-121): every
   * occurrence of the base directory removed from the path, the root URL in
   * front, and backslashes turned into slashes.
   */
  function UrlAsWritten(cfg: Config, path: string): string
  {
    WindowsToUnix(cfg.rootUrl + RemoveAll(path, cfg.baseDir))
  }

  /** The URL the source means: only the leading base directory is removed. */
  function UrlOf(cfg: Config, path: string): (url: string)
    ensures '\\' !in url
  {
    WindowsToUnix(cfg.rootUrl + Relative(path, cfg.baseDir))
  }

  /**
   * The two agree whenever the base directory occurs in the file's path only
   * as its prefix; the URL is then the root URL followed by the path below
   * the base directory, with slashes.
   */
  lemma UrlAsWrittenAgrees(cfg: Config, rest: string)
    requires cfg.baseDir != [] && !OccursIn(cfg.baseDir, rest)
    ensures UrlAsWritten(cfg, cfg.baseDir + rest) == UrlOf(cfg, cfg.baseDir + rest)
    ensures UrlOf(cfg, cfg.baseDir + rest) == WindowsToUnix(cfg.rootUrl + rest)
  {
    RemoveOnlyPrefix(cfg.baseDir, rest);
  }

  /** No copy of `search` starts inside the first `n` characters of `s`. */
  predicate NoneStartsBefore(search: string, s: string, n: nat)
  {
    forall k | 0 <= k < n && k <= |s| :: !(search <= s[k..])
  }

  /**
   * Removing every copy of the base directory from `a`, the base directory
   * and `f`, when no copy starts in `a` and none occurs in `f`, leaves `a`
   * and `f`.
   */
  lemma {:induction false} RemoveThrough(a: string, base: string, f: string)
    requires base != [] && !OccursIn(base, f)
    requires NoneStartsBefore(base, a + base + f, |a|)
    ensures RemoveAll(a + base + f, base) == a + f
    decreases |a|
  {
    var s := a + base + f;
    if a == [] {
      assert s == base + f;
      assert s[..|base|] == base && s[|base|..] == f;
      RemoveAbsent(f, base);
    } else {
      assert s[0..] == s;
      var t := a[1..] + base + f;
      assert s[1..] == t;
      assert NoneStartsBefore(base, t, |a| - 1) by {
        forall k | 0 <= k < |a| - 1 && k <= |t|
          ensures !(base <= t[k..])
        {
          assert t[k..] == s[k + 1..];
        }
      }
      RemoveThrough(a[1..], base, f);
      assert a + f == [a[0]] + (a[1..] + f);
    }
  }

  /**
   * A base directory that recurs further down the path is cut out there too:
   * with base directory `/web`, the file `/web/a/web/b.jpg` gets the URL of
   * `/a/b.jpg`, not that of `/a/web/b.jpg`. In general, the file
   * base + `a` + base + `f` loses the inner copy, and its URL is not the one
   * the source means.
   */
  lemma UrlAsWrittenCutsInside(cfg: Config, a: string, f: string)
    requires cfg.baseDir != [] && !OccursIn(cfg.baseDir, f)
    requires NoneStartsBefore(cfg.baseDir, a + cfg.baseDir + f, |a|)
    ensures var path := cfg.baseDir + a + cfg.baseDir + f;
      UrlAsWritten(cfg, path) == WindowsToUnix(cfg.rootUrl + a + f) &&
      UrlOf(cfg, path) == WindowsToUnix(cfg.rootUrl + a + cfg.baseDir + f) &&
      UrlAsWritten(cfg, path) != UrlOf(cfg, path)
  {
    var base := cfg.baseDir;
    var path := base + a + base + f;
    var rest := a + base + f;
    assert RemoveAll(path, base) == a + f && Relative(path, base) == rest by {
      assert path == base + rest;
      assert path[..|base|] == base && path[|base|..] == rest;
      RemoveThrough(a, base, f);
    }
    assert cfg.rootUrl + (a + f) == cfg.rootUrl + a + f;
    assert cfg.rootUrl + rest == cfg.rootUrl + a + base + f;
    assert |cfg.rootUrl + a + f| != |cfg.rootUrl + a + base + f|;
  }

  /** The instance: base directory `/web`, file `/web` + `/a` + `/web` + `/b.jpg`. */
  lemma UrlAsWrittenCutsWeb(cfg: Config)
    requires cfg.baseDir == "/web"
    ensures var path := cfg.baseDir + "/a" + cfg.baseDir + "/b.jpg";
      UrlAsWritten(cfg, path) == WindowsToUnix(cfg.rootUrl + "/a" + "/b.jpg") &&
      UrlOf(cfg, path) == WindowsToUnix(cfg.rootUrl + "/a" + cfg.baseDir + "/b.jpg") &&
      UrlAsWritten(cfg, path) != UrlOf(cfg, path)
  {
    var base := "/web";
    assert !OccursIn(base, "/b.jpg") by {
      AbsentChar(base, "/b.jpg", 1);
    }
    assert NoneStartsBefore(base, "/a" + base + "/b.jpg", 2) by {
      var rest := "/a" + base + "/b.jpg";
      assert rest[1] == 'a';
      assert rest[0..][1] != base[1];
      assert rest[1..][0] != base[0];
    }
    UrlAsWrittenCutsInside(cfg, "/a", "/b.jpg");
  }

  // ---------------------------------------------------------------------
  // Finding a thumbnail

  /** What Laravel's `array_get` can find in a content table: nothing, a slot, or a file. */
  datatype Got = Missing | GotSlot(slot: Slot) | GotMedia(media: Media)

  /**
   * `array_get($content, $key)`: a slot stored under the whole key first;
   * otherwise the key is split at dots and followed one level at a time,
   * title, then `thumb` or `orig`; a file object or null has no third level.
   */
  function ArrayGet(content: seq<Slot>, key: string): Got
  {
    match Find(content, key)
    case Some(i) => GotSlot(content[i])
    case None =>
      var steps := Split(key, '.');
      if |steps| != 2 then Missing
      else match Find(content, steps[0])
        case None => Missing
        case Some(i) =>
          var slot := content[i];
          var m := if steps[1] == "thumb" then slot.thumb else if steps[1] == "orig" then slot.orig else None;
          if m.Some? then GotMedia(m.value) else Missing
  }

  /** `getThumbnail` as written (src/BrokunMusheen/FSGallery/File.php:145-150): `array_get` with the title and `.thumb`. */
  function ThumbnailAsWritten(content: seq<Slot>, title: string): Got
  {
    ArrayGet(content, title + ".thumb")
  }

  /** The thumbnail the source means: the `thumb` place of the slot under the title. */
  function ThumbnailOf(content: seq<Slot>, title: string): (t: Option<Media>)
    ensures t.Some? ==> exists i | 0 <= i < |content| :: content[i].key == title && content[i].thumb == t
    ensures (forall i | 0 <= i < |content| :: content[i].key != title) ==> t.None?
  {
    match Find(content, title)
    case None => None
    case Some(i) => content[i].thumb
  }

  /** A key with one dot splits into the text before and after it. */
  lemma SplitOneDot(a: string, b: string)
    requires '.' !in a && '.' !in b
    ensures Split(a + "." + b, '.') == [a, b]
  {
    SplitAppend(a, b, '.');
    SplitWhole(a, '.');
    SplitWhole(b, '.');
  }

  /** A string without the delimiter is one segment. */
  lemma SplitWhole(s: string, d: char)
    requires d !in s
    ensures Split(s, d) == [s]
  {
    assert IndexOf(s, d) == |s|;
  }

  /**
   * When no title has a dot, `array_get` finds exactly the thumbnail the
   * source means, and never a whole slot.
   */
  lemma ThumbnailAsWrittenAgrees(content: seq<Slot>, title: string)
    requires '.' !in title
    requires forall i | 0 <= i < |content| :: '.' !in content[i].key
    ensures ThumbnailAsWritten(content, title) ==
      (if ThumbnailOf(content, title).Some? then GotMedia(ThumbnailOf(content, title).value) else Missing)
  {
    var key := title + ".thumb";
    assert key[|title|] == '.';
    assert forall i | 0 <= i < |content| :: content[i].key != key;
    assert key == title + "." + "thumb";
    SplitOneDot(title, "thumb");
  }

  /** A key with two dots splits into three steps. */
  lemma SplitTwoDots(a: string, b: string, c: string)
    requires '.' !in a && '.' !in b && '.' !in c
    ensures Split(a + "." + b + "." + c, '.') == [a, b, c]
  {
    var bc := b + "." + c;
    assert Split(bc, '.') == [b, c] by {
      SplitOneDot(b, c);
    }
    assert Split(a, '.') == [a] by {
      SplitWhole(a, '.');
    }
    assert a + "." + b + "." + c == a + ['.'] + bc;
    SplitAppend(a, bc, '.');
  }

  /**
   * A title with a dot, legal in file names such as `my.photo.jpg`, is split
   * apart by `array_get`, so its thumbnail is never found, while the slot
   * under the title may well hold one.
   */
  lemma ThumbnailAsWrittenMissesDottedTitle(content: seq<Slot>, a: string, b: string)
    requires '.' !in a && '.' !in b
    requires forall i | 0 <= i < |content| :: content[i].key != a + "." + b + ".thumb"
    ensures ThumbnailAsWritten(content, a + "." + b) == Missing
  {
    assert '.' !in "thumb";
    assert a + "." + b + ".thumb" == a + "." + b + "." + "thumb";
    SplitTwoDots(a, b, "thumb");
  }

  /** The instance: the slot `my.photo` holds thumbnail `m`, and `array_get` misses it. */
  lemma ThumbnailAsWrittenMissesMyPhoto(m: Media, o: Media)
    ensures var content := [Slot("my" + "." + "photo", Some(m), Some(o))];
      ThumbnailAsWritten(content, "my" + "." + "photo") == Missing &&
      ThumbnailOf(content, "my" + "." + "photo") == Some(m)
  {
    var content := [Slot("my" + "." + "photo", Some(m), Some(o))];
    assert '.' !in "my" && '.' !in "photo";
    assert |"my" + "." + "photo" + ".thumb"| != |"my" + "." + "photo"|;
    ThumbnailAsWrittenMissesDottedTitle(content, "my", "photo");
  }

  /** The cuts of `my.photo.jpg`: no underscore, order or marker; the title runs to the last dot. */
  lemma MyPhotoCuts()
    ensures LastIndexOf("my.photo.jpg", '.') == Some(8)
    ensures CutsOf("my.photo.jpg", 8) == Cuts(0, 0, 0, 8, 8)
  {
    var name := "my.photo.jpg";
    assert DigitRunEnd(name, 0) == 0;
    assert TitleRunEnd(name, 0) == 12;
  }

  /** The file name of the dotted-title counterexample parses, with title `my.photo`. */
  lemma ParsesMyPhoto()
    ensures ParseFilename("my.photo.jpg") == Some(FileInfo(false, "", "my.photo", false, "jpg"))
  {
    var name := "my.photo.jpg";
    MyPhotoCuts();
    assert name[..0] == "" && name[0..8] == "my.photo" && name[9..] == "jpg";
    assert GroupsAt(name, 8) == Groups("", "", "", "my.photo", "", "", "jpg");
  }

  // ---------------------------------------------------------------------
  // Archived ancestors

  /** Some album on the path below the base directory has an archived name. */
  predicate AncestorArchived(segs: seq<string>)
  {
    exists k | 0 <= k < |segs| :: ArchivedName(segs[k])
  }

  /** `new File($file_path, $album)` and its state. */
  class File {
    const album: Album
    /** `_path`: the file's full path. */
    const path: string
    /** What `_parseFilename` made of the name, read once by the constructor. */
    const info: Option<FileInfo>
    /** `_name`, null until `getName` computes it. */
    var name: Option<string>
    /** `_url`, null until `getUrl` computes it. */
    var url: Option<string>

    /** The memoised name and URL, once set, are the ones the path gives. */
    ghost predicate Valid()
      reads this
    {
      (name.Some? ==> name.value == LastSegment(path, album.disk.cfg.delimiter)) &&
      (url.Some? ==> url.value == UrlOf(album.disk.cfg, path))
    }

    /** The attributes are what `_parseFilename` makes of the last segment of the path. */
    ghost predicate Parsed()
    {
      '\n' !in LastSegment(path, album.disk.cfg.delimiter) &&
      info == ParseFilename(LastSegment(path, album.disk.cfg.delimiter))
    }

    /**
     * The constructor (src/BrokunMusheen/FSGallery/File.php:47-67) parses
     * the name, which `getName` memoises on the way.
     */
    constructor(path: string, album: Album)
      requires '\n' !in LastSegment(path, album.disk.cfg.delimiter)
      ensures this.path == path && this.album == album && Valid() && Parsed()
      ensures name == Some(LastSegment(path, album.disk.cfg.delimiter)) && url == None
    {
      var n := LastSegment(path, album.disk.cfg.delimiter);
      this.album := album;
      this.path := path;
      this.info := ParseFilename(n);
      this.name := Some(n);
      this.url := None;
    }

    /** `getPath`: the path whose last segment the attributes were parsed from. */
    function GetPath(): (p: string)
      ensures Parsed() ==>
        '\n' !in LastSegment(p, album.disk.cfg.delimiter) &&
        info == ParseFilename(LastSegment(p, album.disk.cfg.delimiter))
    {
      path
    }

    /** `getExtension`: null when the name did not parse. */
    function GetExtension(): (ext: Option<string>)
      ensures ext.Some? <==> info.Some?
    {
      if info.Some? then Some(info.value.extension) else None
    }

    /** `getOrder`: null when the name did not parse. */
    function GetOrder(): (o: Option<string>)
      ensures o.Some? <==> info.Some?
      ensures Parsed() ==> (o.Some? <==> '.' in LastSegment(path, album.disk.cfg.delimiter))
    {
      if info.Some? then Some(info.value.order) else None
    }

    /** `getTitle`: null when the name did not parse. */
    function GetTitle(): (t: Option<string>)
      ensures t.Some? <==> info.Some?
      ensures Parsed() ==> (t.Some? <==> '.' in LastSegment(path, album.disk.cfg.delimiter))
      ensures Parsed() && t.Some? ==> '_' !in t.value
    {
      if info.Some? then Some(info.value.title) else None
    }

    /** `isThumbnail` (src/BrokunMusheen/FSGallery/File.php:193-196): false when the name did not parse. */
    function IsThumbnailFile(): (b: bool)
      ensures b ==> info.Some? && info.value.isThumbnail
      ensures Parsed() && b ==> '.' in LastSegment(path, album.disk.cfg.delimiter)
    {
      IsThumbnail(info)
    }

    /**
     * `getName` (src/BrokunMusheen/FSGallery/File.php:128-138): the last
     * segment of the path, computed once.
     */
    method GetName() returns (n: string)
      requires Valid()
      modifies this`name
      ensures n == LastSegment(path, album.disk.cfg.delimiter) && name == Some(n) && Valid()
    {
      if name.None? {
        var parts := StringToArray(path, album.disk.cfg.delimiter);
        name := Some(parts[|parts| - 1]);
      }
      n := name.value;
    }

    /**
     * `getUrl` (src/BrokunMusheen/FSGallery/File.php:104-121), with the base
     * directory removed only in front: the root URL followed by the path
     * relative to the base directory, with slashes, computed once.
     */
    method GetUrl() returns (u: string)
      requires Valid()
      modifies this`url
      ensures u == UrlOf(album.disk.cfg, path) && url == Some(u) && Valid()
      ensures '\\' !in u
    {
      if url.None? {
        var relative := Relative(path, album.disk.cfg.baseDir);
        var full := album.disk.cfg.rootUrl + relative;
        url := Some(WindowsToUnix(full));
      }
      u := url.value;
    }

    /**
     * `getThumbnail` (src/BrokunMusheen/FSGallery/File.php:145-150), looking
     * the title up as a key of its own: the thumbnail of the slot for the
     * file's title in the album's content table (a null title reads as '').
     */
    method GetThumbnail() returns (t: Option<Media>)
      requires album.Placed() && album.ContentCached()
      modifies album`files
      ensures t == ThumbnailOf(album.ContentTable(), GetTitle().GetOr(""))
      ensures album.ContentCached()
    {
      var content := album.GetContent();
      var title := GetTitle();
      t := ThumbnailOf(content, title.GetOr(""));
    }

    /**
     * `isArchived` (src/BrokunMusheen/FSGallery/File.php:167-186): the file's
     * own flag, or the flag of an album on the way up from the file's album
     * to the base album, which is not asked.
     */
    method IsArchived() returns (r: bool)
      requires album.Placed()
      ensures r <==> (info.Some? && info.value.isArchived) || AncestorArchived(album.segs)
    {
      if info.Some? && info.value.isArchived {
        return true;
      }
      var parent := album;
      var base := album.disk.cfg.baseDir;
      while parent.directory != base
        invariant parent.Placed() && parent.disk == album.disk
        invariant |parent.segs| <= |album.segs| && parent.segs == album.segs[..|parent.segs|]
        invariant forall k | |parent.segs| <= k < |album.segs| :: !ArchivedName(album.segs[k])
        decreases |parent.segs|
      {
        PathOfIsBase(parent.disk.cfg, parent.segs);
        parent.AttributesFromName();
        var archived := parent.IsArchived();
        if archived {
          return true;
        }
        var up := parent.GetParent();
        parent := up.value;
      }
      PathOfIsBase(parent.disk.cfg, parent.segs);
      return false;
    }
  }
}

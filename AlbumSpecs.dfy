/**
 * What an album's listing and its tree of sub-directories mean, as values:
 * the content table `Album::loadContent` builds from the files of a
 * directory, and the orders in which `Album::albumWalk` and
 * `Album::getLeaves` visit sub-directories
 * (src/BrokunMusheen/FSGallery/Album.php). The `Album` class is proved
 * against these functions.
 */
module AlbumSpecs {
  import opened Wrappers
  import opened FilePaths
  import opened FileNames
  import opened FolderNames
  import opened Storage

  // ---------------------------------------------------------------------
  // Content

  /** The object `File::make` builds for a listed file: an `Image` for `Jpg`, a `Video` for `Mp4`. */
  datatype Media = Media(path: string, kind: Kind)

  /** One entry of the content table: the title it is keyed by, its thumbnail and its original. */
  datatype Slot = Slot(key: string, thumb: Option<Media>, orig: Option<Media>)

  /** A listed file that `loadContent` keeps: its key, whether it is a thumbnail, and its object. */
  datatype Listed = Listed(key: string, isThumb: bool, media: Media)

  /** `Gallery::reservedFileNames` (src/BrokunMusheen/FSGallery/Gallery.php:217-223). */
  function ReservedNames(cfg: Config): (r: seq<string>)
    ensures MetaFileName in r && cfg.headerImageName in r && |r| == 2
  {
    [MetaFileName, cfg.headerImageName]
  }

  predicate FilesOk(files: seq<string>)
  {
    forall k | 0 <= k < |files| :: NameOk(files[k])
  }

  /**
   * The path a listed file gets: the file under its directory, converted to
   * backslashes when the configured delimiter is a backslash.
   */
  function ListedPath(dir: string, f: string, d: char): string
  {
    var p := JoinPath(dir, f, d);
    if d == '\\' then UnixToWindows(p) else p
  }

  /** The name `File::getName` reads off a listed path is the listed name. */
  lemma ListedName(dir: string, f: string, d: char)
    requires IsDelimiter(d) && NameOk(f)
    ensures LastSegment(ListedPath(dir, f, d), d) == f
  {
    var p := ListedPath(dir, f, d);
    var q := JoinPath(dir, f, d);
    var i := |dir|;
    assert q[i] == d;
    assert p[i] == d;
    assert p[i + 1..] == f by {
      forall k | 0 <= k < |f| ensures p[i + 1 + k] == f[k] {
        assert q[i + 1 + k] == f[k];
      }
    }
    LastSegmentAfter(p, d, i);
  }

  /**
   * What `loadContent` makes of one listed file
   * (src/BrokunMusheen/FSGallery/Album.php:519-549): nothing when `make`
   * gives null, when it is a caption, or when its name is reserved; otherwise
   * its title as key (null as ''), its thumbnail flag and its object.
   */
  function Classify(dir: string, f: string, reserved: seq<string>, d: char): Option<Listed>
    requires IsDelimiter(d) && NameOk(f)
  {
    var path := ListedPath(dir, f, d);
    var kind := Type(path, d);
    ListedName(dir, f, d);
    var name := LastSegment(path, d);
    if kind.None? || kind == Some(Desc) || name in reserved then None
    else
      var info := ParseFilename(name);
      Some(Listed(if info.Some? then info.value.title else "", IsThumbnail(info), Media(path, kind.value)))
  }

  /**
   * A kept file has the listed path and an unreserved name; with the
   * sidecar name reserved it is a picture or a video.
   */
  lemma ClassifyKeeps(dir: string, f: string, reserved: seq<string>, d: char)
    requires IsDelimiter(d) && NameOk(f)
    requires Classify(dir, f, reserved, d).Some?
    ensures var l := Classify(dir, f, reserved, d).value;
      l.media.path == ListedPath(dir, f, d) && f !in reserved &&
      (MetaFileName in reserved ==> l.media.kind == Jpg || l.media.kind == Mp4)
  {
    ListedName(dir, f, d);
  }

  /** The files of a listing that `loadContent` keeps, in listing order. */
  function Listings(dir: string, files: seq<string>, reserved: seq<string>, d: char): seq<Listed>
    requires IsDelimiter(d) && FilesOk(files)
    decreases |files|
  {
    if files == [] then []
    else
      var init := files[..|files| - 1];
      assert FilesOk(init) by {
        forall k | 0 <= k < |init| ensures NameOk(init[k]) {
          assert init[k] == files[k];
        }
      }
      Listings(dir, init, reserved, d) + Kept(Classify(dir, files[|files| - 1], reserved, d))
  }

  /** The kept file of a classification, if any. */
  function Kept(o: Option<Listed>): (ls: seq<Listed>)
    ensures o.None? ==> ls == []
    ensures o.Some? ==> ls == [o.value]
  {
    match o
    case None => []
    case Some(l) => [l]
  }

  /** The index of the slot keyed `key`, if there is one. */
  function Find(c: seq<Slot>, key: string): (r: Option<nat>)
    ensures r.Some? ==> r.value < |c| && c[r.value].key == key
    ensures r.None? ==> forall j | 0 <= j < |c| :: c[j].key != key
  {
    if c == [] then None
    else if c[|c| - 1].key == key then Some(|c| - 1)
    else Find(c[..|c| - 1], key)
  }

  /** The slot with the listed file put in its thumbnail or original place. */
  function Fill(s: Slot, l: Listed): Slot
  {
    if l.isThumb then s.(thumb := Some(l.media)) else s.(orig := Some(l.media))
  }

  /** One step of `loadContent`: an empty slot is added for a new key, then filled. */
  function Put(c: seq<Slot>, l: Listed): seq<Slot>
  {
    match Find(c, l.key)
    case Some(i) => c[i := Fill(c[i], l)]
    case None => c + [Fill(Slot(l.key, None, None), l)]
  }

  /** The table the kept files build, one step per file. */
  function Fold(ls: seq<Listed>): seq<Slot>
  {
    if ls == [] then [] else Put(Fold(ls[..|ls| - 1]), ls[|ls| - 1])
  }

  /** `Album::loadContent`'s table for a directory's listing. */
  function ContentOf(dir: string, files: seq<string>, reserved: seq<string>, d: char): seq<Slot>
    requires IsDelimiter(d) && FilesOk(files)
  {
    Fold(Listings(dir, files, reserved, d))
  }

  /** The table with a classified file put in, when it is kept. */
  function PutIn(c: seq<Slot>, o: Option<Listed>): seq<Slot>
  {
    match o
    case None => c
    case Some(l) => Put(c, l)
  }

  /** The kept files of one more listed file are the previous ones and its own. */
  lemma ListingsStep(dir: string, files: seq<string>, i: nat, reserved: seq<string>, d: char)
    requires IsDelimiter(d) && FilesOk(files) && i < |files|
    ensures FilesOk(files[..i]) && FilesOk(files[..i + 1])
    ensures Listings(dir, files[..i + 1], reserved, d)
         == Listings(dir, files[..i], reserved, d) + Kept(Classify(dir, files[i], reserved, d))
  {
    assert files[..i + 1][..i] == files[..i];
  }

  /** Folding one more kept file puts it into the table. */
  lemma FoldKept(ls: seq<Listed>, o: Option<Listed>)
    ensures Fold(ls + Kept(o)) == PutIn(Fold(ls), o)
  {
    if o.Some? {
      assert (ls + [o.value])[..|ls|] == ls;
    } else {
      assert ls + [] == ls;
    }
  }

  /** The table of one more listed file is the previous table with that file put in. */
  lemma ContentOfStep(dir: string, files: seq<string>, i: nat, reserved: seq<string>, d: char)
    requires IsDelimiter(d) && FilesOk(files) && i < |files|
    ensures FilesOk(files[..i]) && FilesOk(files[..i + 1])
    ensures ContentOf(dir, files[..i + 1], reserved, d)
         == PutIn(ContentOf(dir, files[..i], reserved, d), Classify(dir, files[i], reserved, d))
  {
    ListingsStep(dir, files, i, reserved, d);
    FoldKept(Listings(dir, files[..i], reserved, d), Classify(dir, files[i], reserved, d));
  }

  // The table described without steps: one slot per title, in the order
  // titles first occur, holding the last thumbnail and the last original
  // listed under that title.

  /** The keys of the kept files, each once, in order of first occurrence. */
  function FirstKeys(ls: seq<Listed>): (ks: seq<string>)
    ensures forall i, j | 0 <= i < j < |ks| :: ks[i] != ks[j]
  {
    if ls == [] then []
    else
      var ks := FirstKeys(ls[..|ls| - 1]);
      if ls[|ls| - 1].key in ks then ks else ks + [ls[|ls| - 1].key]
  }

  /** The object of the last kept file with this key and thumbnail flag. */
  function Latest(ls: seq<Listed>, key: string, thumb: bool): Option<Media>
  {
    if ls == [] then None
    else if ls[|ls| - 1].key == key && ls[|ls| - 1].isThumb == thumb then Some(ls[|ls| - 1].media)
    else Latest(ls[..|ls| - 1], key, thumb)
  }

  function Expected(ls: seq<Listed>): seq<Slot>
  {
    var ks := FirstKeys(ls);
    seq(|ks|, i requires 0 <= i < |ks| => Slot(ks[i], Latest(ls, ks[i], true), Latest(ls, ks[i], false)))
  }

  /** A key some kept file has is among the first keys. */
  lemma {:induction false} LatestHasKey(ls: seq<Listed>, key: string, thumb: bool)
    requires Latest(ls, key, thumb).Some?
    ensures key in FirstKeys(ls)
  {
    var init := ls[..|ls| - 1];
    if !(ls[|ls| - 1].key == key && ls[|ls| - 1].isThumb == thumb) {
      LatestHasKey(init, key, thumb);
    }
  }

  /** Among distinct keys, `Find` gives the one position holding the key. */
  lemma FindDistinct(c: seq<Slot>, i: nat)
    requires i < |c|
    requires forall x, y | 0 <= x < y < |c| :: c[x].key != c[y].key
    ensures Find(c, c[i].key) == Some(i)
  {
  }

  /**
   * `loadContent`'s table is the stepless description: one slot per title
   * in order of first occurrence, each with the last thumbnail and the last
   * original listed under that title, so a later file replaces an earlier
   * one of the same title and kind.
   */
  lemma {:induction false} FoldIsExpected(ls: seq<Listed>)
    ensures Fold(ls) == Expected(ls)
  {
    if ls != [] {
      FoldIsExpected(ls[..|ls| - 1]);
      if ls[|ls| - 1].key in FirstKeys(ls[..|ls| - 1]) {
        PutKnownKey(ls);
      } else {
        PutNewKey(ls);
      }
    }
  }

  /** Files before the last one with another key keep their latest objects. */
  lemma LatestOtherKey(ls: seq<Listed>, k: string, b: bool)
    requires ls != [] && k != ls[|ls| - 1].key
    ensures Latest(ls, k, b) == Latest(ls[..|ls| - 1], k, b)
  {
  }

  /** A file whose title already has a slot fills that slot. */
  lemma PutKnownKey(ls: seq<Listed>)
    requires ls != [] && ls[|ls| - 1].key in FirstKeys(ls[..|ls| - 1])
    ensures Put(Expected(ls[..|ls| - 1]), ls[|ls| - 1]) == Expected(ls)
  {
    var init := ls[..|ls| - 1];
    var l := ls[|ls| - 1];
    var c := Expected(init);
    var ks := FirstKeys(init);
    var e := Expected(ls);
    assert FirstKeys(ls) == ks;
    var i :| 0 <= i < |ks| && ks[i] == l.key;
    assert c[i].key == l.key;
    FindDistinct(c, i);
    var p := c[i := Fill(c[i], l)];
    assert |e| == |p|;
    forall j | 0 <= j < |p| ensures e[j] == p[j] {
      if j != i {
        LatestOtherKey(ls, ks[j], true);
        LatestOtherKey(ls, ks[j], false);
      }
    }
  }

  /** A file with a new title gets a new slot at the end. */
  lemma PutNewKey(ls: seq<Listed>)
    requires ls != [] && ls[|ls| - 1].key !in FirstKeys(ls[..|ls| - 1])
    ensures Put(Expected(ls[..|ls| - 1]), ls[|ls| - 1]) == Expected(ls)
  {
    var init := ls[..|ls| - 1];
    var l := ls[|ls| - 1];
    var c := Expected(init);
    var ks := FirstKeys(init);
    var e := Expected(ls);
    assert FirstKeys(ls) == ks + [l.key];
    assert Find(c, l.key) == None;
    forall b ensures Latest(init, l.key, b) == None {
      if Latest(init, l.key, b).Some? {
        LatestHasKey(init, l.key, b);
      }
    }
    var p := c + [Fill(Slot(l.key, None, None), l)];
    assert |e| == |p|;
    forall j | 0 <= j < |p| ensures e[j] == p[j] {
      if j < |c| {
        LatestOtherKey(ls, ks[j], true);
        LatestOtherKey(ls, ks[j], false);
      } else {
        assert Latest(ls, l.key, l.isThumb) == Some(l.media);
        assert Latest(ls, l.key, !l.isThumb) == Latest(init, l.key, !l.isThumb);
      }
    }
  }

  /** `getFiles`: the originals of the table in order, skipping slots that only have a thumbnail. */
  function Originals(c: seq<Slot>): (ms: seq<Media>)
    ensures forall m | m in ms :: exists i | 0 <= i < |c| :: c[i].orig == Some(m)
    ensures forall i | 0 <= i < |c| && c[i].orig.Some? :: c[i].orig.value in ms
  {
    if c == [] then []
    else
      var init := Originals(c[..|c| - 1]);
      assert forall i | 0 <= i < |c| - 1 :: c[..|c| - 1][i] == c[i];
      if c[|c| - 1].orig.Some? then init + [c[|c| - 1].orig.value] else init
  }

  /**
   * What `getFiles` returns for a listing: exactly the last original of
   * each title; thumbnails, captions, reserved names and unknown kinds never
   * appear.
   */
  lemma GetFilesReference(ls: seq<Listed>, m: Media)
    ensures m in Originals(Fold(ls)) <==>
      exists i | 0 <= i < |FirstKeys(ls)| :: Latest(ls, FirstKeys(ls)[i], false) == Some(m)
  {
    FoldIsExpected(ls);
    var e := Expected(ls);
    if m in Originals(e) {
      var i :| 0 <= i < |e| && e[i].orig == Some(m);
      assert Latest(ls, FirstKeys(ls)[i], false) == Some(m);
    }
    if exists i | 0 <= i < |FirstKeys(ls)| :: Latest(ls, FirstKeys(ls)[i], false) == Some(m) {
      var i :| 0 <= i < |FirstKeys(ls)| && Latest(ls, FirstKeys(ls)[i], false) == Some(m);
      assert e[i].orig == Some(m);
    }
  }

  /** The latest object of a key is the object of some kept file. */
  lemma {:induction false} LatestListed(ls: seq<Listed>, key: string, thumb: bool)
    requires Latest(ls, key, thumb).Some?
    ensures exists j | 0 <= j < |ls| :: ls[j].media == Latest(ls, key, thumb).value && ls[j].isThumb == thumb
  {
    var init := ls[..|ls| - 1];
    if !(ls[|ls| - 1].key == key && ls[|ls| - 1].isThumb == thumb) {
      LatestListed(init, key, thumb);
      var j :| 0 <= j < |init| && init[j].media == Latest(init, key, thumb).value && init[j].isThumb == thumb;
      assert ls[j] == init[j];
    }
  }

  /**
   * With the sidecar name reserved, every file `getFiles` returns is a
   * picture or a video that is not a thumbnail.
   */
  lemma GetFilesAreMedia(dir: string, files: seq<string>, reserved: seq<string>, d: char, m: Media)
    requires IsDelimiter(d) && FilesOk(files) && MetaFileName in reserved
    requires m in Originals(ContentOf(dir, files, reserved, d))
    ensures m.kind == Jpg || m.kind == Mp4
    ensures exists j | 0 <= j < |files| :: m.path == ListedPath(dir, files[j], d) && files[j] !in reserved
  {
    var ls := Listings(dir, files, reserved, d);
    GetFilesReference(ls, m);
    var i :| 0 <= i < |FirstKeys(ls)| && Latest(ls, FirstKeys(ls)[i], false) == Some(m);
    LatestListed(ls, FirstKeys(ls)[i], false);
    var j :| 0 <= j < |ls| && ls[j].media == m && !ls[j].isThumb;
    ListingsFrom(dir, files, reserved, d, j);
  }

  /** Every kept file comes from the listing and is a picture or a video when the sidecar name is reserved. */
  lemma {:induction false} ListingsFrom(dir: string, files: seq<string>, reserved: seq<string>, d: char, j: nat)
    requires IsDelimiter(d) && FilesOk(files)
    requires j < |Listings(dir, files, reserved, d)|
    ensures var l := Listings(dir, files, reserved, d)[j];
      exists k | 0 <= k < |files| :: l.media.path == ListedPath(dir, files[k], d) && files[k] !in reserved
    ensures var l := Listings(dir, files, reserved, d)[j];
      MetaFileName in reserved ==> l.media.kind == Jpg || l.media.kind == Mp4
    decreases |files|
  {
    var init := files[..|files| - 1];
    var ls := Listings(dir, files, reserved, d);
    var li := Listings(dir, init, reserved, d);
    assert FilesOk(init) by {
      forall k | 0 <= k < |init| ensures NameOk(init[k]) {
        assert init[k] == files[k];
      }
    }
    if j < |li| {
      ListingsFrom(dir, init, reserved, d, j);
      assert ls[j] == li[j];
      var k :| 0 <= k < |init| && li[j].media.path == ListedPath(dir, init[k], d) && init[k] !in reserved;
      assert files[k] == init[k];
    } else {
      assert ls[j] == Kept(Classify(dir, files[|files| - 1], reserved, d))[0];
      ClassifyKeeps(dir, files[|files| - 1], reserved, d);
    }
  }

  // ---------------------------------------------------------------------
  // Walking the tree

  /** The sub-directories whose names do not parse as archived, in order. */
  function UnarchivedDirs(ds: seq<Dir>): (r: seq<Dir>)
    ensures forall k | k in r :: k in ds && !ArchivedName(k.name)
    ensures forall k | k in ds && !ArchivedName(k.name) :: k in r
  {
    if ds == [] then []
    else (if ArchivedName(ds[0].name) then [] else [ds[0]]) + UnarchivedDirs(ds[1..])
  }

  /** `Album::albums($include_archived)` on directories: all sub-directories, or the unarchived ones. */
  function Kids(node: Dir, withArchived: bool): (ks: seq<Dir>)
    ensures forall k | k in ks :: k in node.subdirs
  {
    if withArchived then node.subdirs else UnarchivedDirs(node.subdirs)
  }

  /**
   * The positions `albumWalk` visits from the album at `pos` on `node`:
   * the album itself, then each visited sub-album's walk in order.
   */
  function Walk(node: Dir, pos: seq<string>, withArchived: bool): seq<seq<string>>
    decreases node, 1
  {
    [pos] + WalkAll(node, Kids(node, withArchived), pos, withArchived)
  }

  function WalkAll(parent: Dir, ds: seq<Dir>, pos: seq<string>, withArchived: bool): seq<seq<string>>
    requires forall k | k in ds :: k in parent.subdirs
    decreases parent, 0, |ds|
  {
    if ds == [] then []
    else
      var last := ds[|ds| - 1];
      assert last in parent.subdirs;
      WalkAll(parent, ds[..|ds| - 1], pos, withArchived) + Walk(last, pos + [last.name], withArchived)
  }

  /**
   * The positions `getLeaves` returns from the album at `pos` on `node`: the
   * album itself when it has no sub-directory at all, archived or not;
   * otherwise the leaves of each visited sub-album in order, which is empty
   * when every sub-directory is archived and archived ones are skipped.
   */
  function Leaves(node: Dir, pos: seq<string>, withArchived: bool): seq<seq<string>>
    decreases node, 1
  {
    if node.subdirs != [] then LeavesAll(node, Kids(node, withArchived), pos, withArchived) else [pos]
  }

  function LeavesAll(parent: Dir, ds: seq<Dir>, pos: seq<string>, withArchived: bool): seq<seq<string>>
    requires forall k | k in ds :: k in parent.subdirs
    decreases parent, 0, |ds|
  {
    if ds == [] then []
    else
      var last := ds[|ds| - 1];
      assert last in parent.subdirs;
      LeavesAll(parent, ds[..|ds| - 1], pos, withArchived) + Leaves(last, pos + [last.name], withArchived)
  }

  /** Walking one more sub-directory appends its walk. */
  lemma WalkAllStep(parent: Dir, ks: seq<Dir>, i: nat, pos: seq<string>, withArchived: bool)
    requires i < |ks| && forall k | k in ks :: k in parent.subdirs
    ensures WalkAll(parent, ks[..i + 1], pos, withArchived)
         == WalkAll(parent, ks[..i], pos, withArchived) + Walk(ks[i], pos + [ks[i].name], withArchived)
  {
    assert ks[..i + 1][..i] == ks[..i];
  }

  /** Collecting the leaves of one more sub-directory appends them. */
  lemma LeavesAllStep(parent: Dir, ks: seq<Dir>, i: nat, pos: seq<string>, withArchived: bool)
    requires i < |ks| && forall k | k in ks :: k in parent.subdirs
    ensures LeavesAll(parent, ks[..i + 1], pos, withArchived)
         == LeavesAll(parent, ks[..i], pos, withArchived) + Leaves(ks[i], pos + [ks[i].name], withArchived)
  {
    assert ks[..i + 1][..i] == ks[..i];
  }

  /** Position `p` lies at or below `pos` and names an existing directory of `node`. */
  predicate Below(node: Dir, pos: seq<string>, p: seq<string>)
  {
    |pos| <= |p| && p[..|pos|] == pos && Lookup(node, p[|pos|..]).Some?
  }

  /** Position `p` lies at or below `pos` and names a directory of `node` without sub-directories. */
  predicate LeafBelow(node: Dir, pos: seq<string>, p: seq<string>)
  {
    Below(node, pos, p) && Lookup(node, p[|pos|..]).value.subdirs == []
  }

  /** A sub-directory of a proper tree is a proper tree with a proper name. */
  lemma ChildOk(node: Dir, k: Dir)
    requires TreeOk(node) && k in node.subdirs
    ensures TreeOk(k) && NameOk(k.name)
  {
    var i :| 0 <= i < |node.subdirs| && node.subdirs[i] == k;
  }

  /** Looking up a child's name and then a path below it is looking up the child's path. */
  lemma LookupThroughChild(node: Dir, k: Dir, q: seq<string>)
    requires TreeOk(node) && k in node.subdirs
    ensures Lookup(node, [k.name] + q) == Lookup(k, q)
  {
    var i :| 0 <= i < |node.subdirs| && node.subdirs[i] == k;
    ChildUnique(node.subdirs, i);
    assert ([k.name] + q)[1..] == q;
  }

  /** A position below a child's position, found in the child, is found in the parent. */
  lemma BelowChild(node: Dir, k: Dir, pos: seq<string>, p: seq<string>)
    requires TreeOk(node) && k in node.subdirs
    requires Below(k, pos + [k.name], p)
    ensures Below(node, pos, p)
    ensures Lookup(node, p[|pos|..]) == Lookup(k, p[|pos| + 1..])
  {
    PositionAfter(pos, k.name, p);
    LookupThroughChild(node, k, p[|pos| + 1..]);
  }

  /** A position starting with `pos` and then `name` splits there. */
  lemma PositionAfter(pos: seq<string>, name: string, p: seq<string>)
    requires |pos| + 1 <= |p| && p[..|pos| + 1] == pos + [name]
    ensures p[..|pos|] == pos && p[|pos|..] == [name] + p[|pos| + 1..]
  {
    assert p[..|pos|] == (pos + [name])[..|pos|];
    assert p[|pos|] == (pos + [name])[|pos|];
  }

  /** `albumWalk` visits only existing albums, below the one it starts from. */
  lemma {:induction false} WalkExists(node: Dir, pos: seq<string>, withArchived: bool)
    requires TreeOk(node)
    ensures forall p | p in Walk(node, pos, withArchived) :: Below(node, pos, p)
    decreases node, 1
  {
    assert Below(node, pos, pos) by {
      assert pos[|pos|..] == [];
    }
    WalkAllExists(node, Kids(node, withArchived), pos, withArchived);
  }

  lemma {:induction false} WalkAllExists(parent: Dir, ds: seq<Dir>, pos: seq<string>, withArchived: bool)
    requires TreeOk(parent)
    requires forall k | k in ds :: k in parent.subdirs
    ensures forall p | p in WalkAll(parent, ds, pos, withArchived) :: Below(parent, pos, p)
    decreases parent, 0, |ds|
  {
    if ds != [] {
      var last := ds[|ds| - 1];
      WalkAllExists(parent, ds[..|ds| - 1], pos, withArchived);
      ChildOk(parent, last);
      WalkExists(last, pos + [last.name], withArchived);
      forall p | p in Walk(last, pos + [last.name], withArchived) ensures Below(parent, pos, p) {
        BelowChild(parent, last, pos, p);
      }
    }
  }

  /**
   * Walking with archived albums included visits every existing album: a
   * position found below the start is in the walk.
   */
  lemma {:induction false} WalkComplete(node: Dir, pos: seq<string>, q: seq<string>)
    requires TreeOk(node) && Lookup(node, q).Some?
    ensures pos + q in Walk(node, pos, true)
    decreases |q|
  {
    if q == [] {
      assert pos + q == pos;
    } else {
      var k := Child(node.subdirs, q[0]).value;
      var i :| 0 <= i < |node.subdirs| && node.subdirs[i] == k;
      ChildOk(node, k);
      WalkComplete(k, pos + [k.name], q[1..]);
      assert pos + q == (pos + [k.name]) + q[1..];
      WalkAllContains(node, node.subdirs, pos, true, i, pos + q);
    }
  }

  /** What a sub-directory's walk visits is part of the walk over all of them. */
  lemma {:induction false} WalkAllContains(parent: Dir, ds: seq<Dir>, pos: seq<string>, withArchived: bool, i: nat, p: seq<string>)
    requires forall k | k in ds :: k in parent.subdirs
    requires i < |ds| && p in Walk(ds[i], pos + [ds[i].name], withArchived)
    ensures p in WalkAll(parent, ds, pos, withArchived)
    decreases |ds|
  {
    if i < |ds| - 1 {
      WalkAllContains(parent, ds[..|ds| - 1], pos, withArchived, i, p);
    }
  }

  /** No position occurs twice. */
  predicate NoRepeats(ps: seq<seq<string>>)
  {
    forall i, j | 0 <= i < j < |ps| :: ps[i] != ps[j]
  }

  /** Directories with pairwise different names. */
  predicate NamesApart(ds: seq<Dir>)
  {
    forall i, j {:trigger NamedApart(ds[i], ds[j])} | 0 <= i < j < |ds| :: NamedApart(ds[i], ds[j])
  }

  /** Dropping the archived directories keeps the names apart. */
  lemma {:induction false} UnarchivedApart(ds: seq<Dir>)
    requires NamesApart(ds)
    ensures NamesApart(UnarchivedDirs(ds))
  {
    if ds != [] {
      var rest := ds[1..];
      assert NamesApart(rest) by {
        forall i, j | 0 <= i < j < |rest| ensures NamedApart(rest[i], rest[j]) {
          assert NamedApart(ds[i + 1], ds[j + 1]);
        }
      }
      UnarchivedApart(rest);
      var u := UnarchivedDirs(rest);
      if !ArchivedName(ds[0].name) {
        var r := UnarchivedDirs(ds);
        assert r == [ds[0]] + u;
        forall i, j | 0 <= i < j < |r| ensures NamedApart(r[i], r[j]) {
          if i == 0 {
            assert r[j] == u[j - 1] && u[j - 1] in u;
            var m :| 0 <= m < |rest| && rest[m] == r[j];
            assert NamedApart(ds[0], ds[m + 1]);
          } else {
            assert r[i] == u[i - 1] && r[j] == u[j - 1];
          }
        }
      }
    }
  }

  /** The sub-directories `albums` gives have different names. */
  lemma KidsApart(node: Dir, withArchived: bool)
    requires TreeOk(node)
    ensures NamesApart(Kids(node, withArchived))
  {
    if !withArchived {
      UnarchivedApart(node.subdirs);
    }
  }

  /**
   * Every position the walk over some sub-directories visits lies strictly
   * below `pos`, under the name of one of them, whose index is returned.
   */
  lemma {:induction false} WalkAllHead(parent: Dir, ds: seq<Dir>, pos: seq<string>, withArchived: bool, p: seq<string>)
    returns (i: nat)
    requires TreeOk(parent)
    requires forall k | k in ds :: k in parent.subdirs
    requires p in WalkAll(parent, ds, pos, withArchived)
    ensures i < |ds| && |pos| < |p| && p[|pos|] == ds[i].name
    decreases |ds|
  {
    var last := ds[|ds| - 1];
    if p in WalkAll(parent, ds[..|ds| - 1], pos, withArchived) {
      i := WalkAllHead(parent, ds[..|ds| - 1], pos, withArchived, p);
    } else {
      ChildOk(parent, last);
      WalkExists(last, pos + [last.name], withArchived);
      assert p[|pos|] == p[..|pos| + 1][|pos|];
      i := |ds| - 1;
    }
  }

  /** Two sequences without repeats and without common elements make one without repeats. */
  lemma NoRepeatsAppend(a: seq<seq<string>>, b: seq<seq<string>>)
    requires NoRepeats(a) && NoRepeats(b)
    requires forall p | p in a :: p !in b
    ensures NoRepeats(a + b)
  {
    forall i, j | 0 <= i < j < |a + b| ensures (a + b)[i] != (a + b)[j] {
      if i < |a| && |a| <= j {
        assert (a + b)[i] in a && (a + b)[j] == b[j - |a|];
      }
    }
  }

  /** `albumWalk` calls back on no album twice: the positions it visits are all different. */
  lemma {:induction false} WalkDistinct(node: Dir, pos: seq<string>, withArchived: bool)
    requires TreeOk(node)
    ensures NoRepeats(Walk(node, pos, withArchived))
    decreases node, 1
  {
    var ks := Kids(node, withArchived);
    KidsApart(node, withArchived);
    WalkAllDistinct(node, ks, pos, withArchived);
    forall q | q in WalkAll(node, ks, pos, withArchived) ensures |pos| < |q| {
      var i := WalkAllHead(node, ks, pos, withArchived, q);
    }
    NoRepeatsAppend([pos], WalkAll(node, ks, pos, withArchived));
  }

  lemma {:induction false} WalkAllDistinct(parent: Dir, ds: seq<Dir>, pos: seq<string>, withArchived: bool)
    requires TreeOk(parent)
    requires forall k | k in ds :: k in parent.subdirs
    requires NamesApart(ds)
    ensures NoRepeats(WalkAll(parent, ds, pos, withArchived))
    decreases parent, 0, |ds|
  {
    if ds != [] {
      var init := ds[..|ds| - 1];
      var last := ds[|ds| - 1];
      assert NamesApart(init) by {
        forall i, j | 0 <= i < j < |init| ensures NamedApart(init[i], init[j]) {
          assert NamedApart(ds[i], ds[j]);
        }
      }
      WalkAllDistinct(parent, init, pos, withArchived);
      ChildOk(parent, last);
      WalkDistinct(last, pos + [last.name], withArchived);
      WalkExists(last, pos + [last.name], withArchived);
      var a := WalkAll(parent, init, pos, withArchived);
      var b := Walk(last, pos + [last.name], withArchived);
      forall q | q in b ensures |pos| < |q| && q[|pos|] == last.name {
        assert q[|pos|] == q[..|pos| + 1][|pos|];
      }
      forall p | p in a ensures p !in b {
        var i := WalkAllHead(parent, init, pos, withArchived, p);
        assert NamedApart(ds[i], ds[|ds| - 1]);
      }
      NoRepeatsAppend(a, b);
    }
  }

  /**
   * `getLeaves` returns only albums without sub-albums, each of which
   * `albumWalk` visits too.
   */
  lemma {:induction false} LeavesAreLeaves(node: Dir, pos: seq<string>, withArchived: bool)
    requires TreeOk(node)
    ensures forall p | p in Leaves(node, pos, withArchived) :: LeafBelow(node, pos, p) && p in Walk(node, pos, withArchived)
    decreases node, 1
  {
    if node.subdirs != [] {
      LeavesAllAreLeaves(node, Kids(node, withArchived), pos, withArchived);
    } else {
      assert pos[|pos|..] == [];
    }
  }

  lemma {:induction false} LeavesAllAreLeaves(parent: Dir, ds: seq<Dir>, pos: seq<string>, withArchived: bool)
    requires TreeOk(parent)
    requires forall k | k in ds :: k in parent.subdirs
    ensures forall p | p in LeavesAll(parent, ds, pos, withArchived) ::
      LeafBelow(parent, pos, p) && p in WalkAll(parent, ds, pos, withArchived)
    decreases parent, 0, |ds|
  {
    if ds != [] {
      var last := ds[|ds| - 1];
      LeavesAllAreLeaves(parent, ds[..|ds| - 1], pos, withArchived);
      ChildOk(parent, last);
      LeavesAreLeaves(last, pos + [last.name], withArchived);
      forall p | p in Leaves(last, pos + [last.name], withArchived)
        ensures LeafBelow(parent, pos, p)
      {
        BelowChild(parent, last, pos, p);
      }
    }
  }
}

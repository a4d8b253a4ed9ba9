/**
 * An album: a directory under the gallery's base directory, with its
 * cached sub-albums, content table, id and creation time
 * (src/BrokunMusheen/FSGallery/Album.php).
 *
 * The source's back-reference to the gallery is used only for the base
 * directory and the reserved file names; here the album reaches both
 * through the disk's configuration.
 */
module Albums {
  import opened Wrappers
  import opened FilePaths
  import opened FileNames
  import opened FolderNames
  import opened Storage
  import opened MetaFiles
  import opened AlbumSpecs

  /** `Album::getRealPath` of the album at `segs`: its path below the root, under the base directory. */
  function RealPathOf(cfg: Config, segs: seq<string>): string
  {
    JoinPath(cfg.baseDir, Join(segs, cfg.delimiter), cfg.delimiter)
  }

  /** `Album::getMetaFilePath` of the album at `segs`. */
  function MetaPathOf(cfg: Config, segs: seq<string>): string
  {
    JoinPath(RealPathOf(cfg, segs), MetaFileName, cfg.delimiter)
  }

  /** `array_reverse`. */
  function Reverse<T>(s: seq<T>): (r: seq<T>)
    ensures |r| == |s|
  {
    if s == [] then [] else Reverse(s[1..]) + [s[0]]
  }

  lemma {:induction false} ReverseAppend<T>(a: seq<T>, b: seq<T>)
    ensures Reverse(a + b) == Reverse(b) + Reverse(a)
  {
    if a != [] {
      assert (a + b)[1..] == a[1..] + b;
      ReverseAppend(a[1..], b);
    } else {
      assert a + b == b;
    }
  }

  /** Reversing twice gives the sequence back. */
  lemma {:induction false} ReverseReverse<T>(s: seq<T>)
    ensures Reverse(Reverse(s)) == s
  {
    if s != [] {
      ReverseAppend(Reverse(s[1..]), [s[0]]);
      ReverseReverse(s[1..]);
      assert s == [s[0]] + s[1..];
    }
  }

  /** The positions of a sequence of albums. */
  ghost function Positions(albums: seq<Album>): (ps: seq<seq<string>>)
    ensures |ps| == |albums|
  {
    seq(|albums|, i requires 0 <= i < |albums| => albums[i].segs)
  }

  /** `array_filter` with `! $album->isArchived()`: the unarchived albums, in order. */
  function Unarchived(albums: seq<Album>): (r: seq<Album>)
    ensures forall a | a in r :: a in albums && !a.IsArchived()
  {
    if albums == [] then []
    else (if albums[0].IsArchived() then [] else [albums[0]]) + Unarchived(albums[1..])
  }

  class Album {
    const disk: Disk
    /** `_directory`: the album's directory path. */
    const directory: string
    /** The position of the directory below the base directory. */
    ghost const segs: seq<string>
    /** `_name`: the last segment of the directory path. */
    const name: string := LastSegment(directory, disk.cfg.delimiter)
    /** What `_parseFolderName` made of the name. */
    const folder: Option<FolderInfo> := ParseFolderName(name)
    /** `_sub_albums`, null until first asked for. */
    var subAlbums: Option<seq<Album>>
    /** `_files`, the content table, null until first asked for. */
    var files: Option<seq<Slot>>
    /** `_album_id` and `_album_created_at`, null until loaded from the sidecar. */
    var albumId: Option<string>
    var createdAt: Option<int>
    /** The album and every sub-album object reachable through the cache. */
    ghost var Repr: set<Album>

    /** The album names an existing directory of a proper disk, and its constant fields agree with that. */
    ghost predicate Placed()
    {
      disk.Ok() && SegmentsOk(segs) && Lookup(disk.tree, segs).Some? &&
      TreeOk(Lookup(disk.tree, segs).value) &&
      directory == PathOf(disk.cfg, segs)
    }

    /** The album's directory. */
    ghost function Node(): Dir
      requires Placed()
    {
      Lookup(disk.tree, segs).value
    }

    /** The content table the album's listing gives. */
    ghost function ContentTable(): seq<Slot>
      requires Placed()
    {
      ContentOf(directory, Node().files, ReservedNames(disk.cfg), disk.cfg.delimiter)
    }

    /** The content table, once loaded, is the one the listing gives. */
    ghost predicate ContentCached()
      reads this
      requires Placed()
    {
      files.Some? ==> files.value == ContentTable()
    }

    /**
     * The cached sub-albums, once loaded, are one album object per
     * sub-directory, in listing order, each valid in turn and owning a part
     * of `Repr` of its own.
     */
    ghost predicate Valid()
      reads this, Repr
      decreases Repr
    {
      this in Repr && Placed() && ContentCached() &&
      (subAlbums.Some? ==>
        |subAlbums.value| == |Node().subdirs| &&
        (forall i | 0 <= i < |subAlbums.value| ::
           subAlbums.value[i] in Repr && subAlbums.value[i].Repr <= Repr &&
           this !in subAlbums.value[i].Repr &&
           subAlbums.value[i].disk == disk &&
           subAlbums.value[i].segs == segs + [Node().subdirs[i].name] &&
           subAlbums.value[i].Valid()) &&
        (forall i, j {:trigger Apart(subAlbums.value[i], subAlbums.value[j])}
           | 0 <= i < |subAlbums.value| && 0 <= j < |subAlbums.value| && i != j ::
           Apart(subAlbums.value[i], subAlbums.value[j])))
    }

    /** `new Album($directory, $gallery)` for a directory that exists. */
    constructor(disk: Disk, directory: string)
      requires disk.Ok() && disk.Exists(directory)
      ensures this.disk == disk && this.directory == directory
      ensures segs == Resolve(disk.cfg, directory).value
      ensures Valid() && Repr == {this}
      ensures subAlbums == None && files == None && albumId == None && createdAt == None
    {
      var position := Resolve(disk.cfg, directory).value;
      this.disk := disk;
      this.directory := directory;
      this.segs := position;
      subAlbums := None;
      files := None;
      albumId := None;
      createdAt := None;
      Repr := {this};
      new;
      PathOfResolve(disk.cfg, directory);
      LookupSegmentsOk(disk.tree, position);
    }

    /** `getDirectory`: the album's directory path, whose last segment is the album's name. */
    function GetDirectory(): (dir: string)
      ensures Placed() ==> dir == PathOf(disk.cfg, segs)
      ensures LastSegment(dir, disk.cfg.delimiter) == GetName()
    {
      directory
    }

    /** `getName`: the folder name, a single path segment; a name that does not parse gives no attributes. */
    function GetName(): (n: string)
      ensures disk.cfg.delimiter !in n
      ensures ParseFolderName(n).None? ==> GetTitle().None? && !IsArchived() && !IsSticky()
    {
      name
    }

    /**
     * `getTitle`: null exactly when the name holds no title character;
     * otherwise a non-empty run of title characters.
     */
    function GetTitle(): (t: Option<string>)
      ensures t.None? <==> forall q | 0 <= q < |name| :: !TitleChar(name[q])
      ensures t.Some? ==> t.value != [] && forall k | 0 <= k < |t.value| :: TitleChar(t.value[k])
    {
      if folder.Some? then
        ParseFolderNameShape(name);
        Some(folder.value.title)
      else None
    }

    /** `isArchived`: null, that is false, when the name did not parse; archived names hold a `_` right before a title character. */
    function IsArchived(): (b: bool)
      ensures b ==> exists p | 0 <= p < |name| - 1 :: name[p] == '_' && TitleChar(name[p + 1])
    {
      if folder.Some? then
        ParseFolderNameShape(name);
        var p := MatchStart(name, 0).value;
        assert folder.value.isArchived ==> name[p] == '_' && TitleChar(name[p + 1]);
        folder.value.isArchived
      else false
    }

    /** `isSticky`: null, that is false, when the name did not parse; sticky names hold `_s` right after a title character. */
    function IsSticky(): (b: bool)
      ensures b ==> exists e | 0 < e < |name| - 1 :: TitleChar(name[e - 1]) && name[e] == '_' && name[e + 1] == 's'
    {
      if folder.Some? then
        ParseFolderNameShape(name);
        var p := MatchStart(name, 0).value;
        var e := p + (if folder.value.isArchived then 1 else 0) + |folder.value.title|;
        assert folder.value.isSticky ==> TitleChar(name[e - 1]) && name[e] == '_' && name[e + 1] == 's';
        folder.value.isSticky
      else false
    }

    /** The album's attributes are those its own folder name gives. */
    lemma AttributesFromName()
      requires Placed() && segs != []
      ensures GetName() == segs[|segs| - 1]
      ensures IsArchived() == ArchivedName(segs[|segs| - 1])
      ensures var info := ParseFolderName(segs[|segs| - 1]);
        (GetTitle().Some? <==> info.Some?) &&
        (info.Some? ==> GetTitle().value == info.value.title) &&
        (IsSticky() <==> info.Some? && info.value.isSticky)
    {
      LastSegmentOfPath(disk.cfg, segs);
    }

    /** The album's directory is what the disk finds at its path. */
    lemma DirAtDirectory()
      requires Placed()
      ensures disk.DirAt(directory) == Some(Node())
    {
      ResolvePathOf(disk.cfg, segs);
    }

    /** The `i`-th sub-directory is found one segment below the album. */
    lemma ChildNode(k: Dir)
      requires Placed() && k in Node().subdirs
      ensures Lookup(disk.tree, segs + [k.name]) == Some(k)
      ensures NameOk(k.name)
    {
      var i :| 0 <= i < |Node().subdirs| && Node().subdirs[i] == k;
      LookupChild(disk.tree, segs, i);
      ChildOk(Node(), k);
    }

    /**
     * `_load_sub_albums` (src/BrokunMusheen/FSGallery/Album.php:573-586): a
     * new album for every sub-directory, in listing order.
     */
    method LoadSubAlbums()
      requires Valid() && subAlbums.None?
      modifies this`subAlbums, this`Repr
      ensures Valid() && subAlbums.Some? && fresh(Repr - old(Repr))
      ensures Unloaded(Repr - old(Repr))
      ensures files == old(files)
    {
      DirAtDirectory();
      var node := disk.DirAt(directory).value;
      var cs: seq<Album> := [];
      var i := 0;
      while i < |node.subdirs|
        invariant 0 <= i <= |node.subdirs| && |cs| == i
        invariant unchanged(this)
        invariant forall j | 0 <= j < i :: fresh(cs[j]) && Adoptable(cs[j], node.subdirs[j])
        invariant forall j | 0 <= j < i :: cs[j] !in cs[..j]
      {
        var c := NewSubAlbum(node.subdirs[i]);
        assert c !in cs;
        assert (cs + [c])[..i] == cs;
        cs := cs + [c];
        i := i + 1;
      }
      subAlbums := Some(cs);
      Repr := Repr + set j | 0 <= j < |cs| :: cs[j];
      AdoptedValid(cs);
    }

    /** `new Album($directory->getPathname(), ...)` for the sub-directory `k`. */
    method NewSubAlbum(k: Dir) returns (c: Album)
      requires Placed() && k in Node().subdirs
      ensures fresh(c) && Adoptable(c, k)
    {
      ChildNode(k);
      PathOfChild(disk.cfg, segs, k.name);
      assert SegmentsOk(segs + [k.name]);
      ResolvePathOf(disk.cfg, segs + [k.name]);
      c := new Album(disk, JoinPath(directory, k.name, disk.cfg.delimiter));
    }

    /** A newly made album for sub-directory `k`: it owns only itself and has loaded nothing. */
    ghost predicate Adoptable(c: Album, k: Dir)
      reads c
    {
      c.Repr == {c} && c.Valid() && c.disk == disk && c.segs == segs + [k.name] && c.NothingLoaded()
    }

    /** An album as its constructor leaves it: no id, no creation time and no files read yet. */
    ghost predicate NothingLoaded()
      reads this`albumId, this`createdAt, this`files
    {
      albumId == None && createdAt == None && files == None
    }

    /** Newly made albums for every sub-directory, taken into the cache, keep the album valid. */
    lemma AdoptedValid(cs: seq<Album>)
      requires Placed() && ContentCached() && this in Repr
      requires subAlbums == Some(cs) && |cs| == |Node().subdirs|
      requires forall j | 0 <= j < |cs| :: cs[j] in Repr && cs[j] != this && Adoptable(cs[j], Node().subdirs[j])
      requires forall j | 0 <= j < |cs| :: cs[j] !in cs[..j]
      ensures Valid()
    {
      forall j, k | 0 <= j < |cs| && 0 <= k < |cs| && j != k
        ensures Apart(cs[j], cs[k])
      {
        if j < k {
          assert cs[j] == cs[..k][j];
        } else {
          assert cs[k] == cs[..j][k];
        }
      }
    }

    /**
     * `albums($include_archived)` (src/BrokunMusheen/FSGallery/Album.php:184-202):
     * the cached sub-albums, loaded on first use, all of them or only the
     * unarchived ones; the album at each place is the one at the matching
     * sub-directory.
     */
    method Albums(withArchived: bool) returns (r: seq<Album>)
      requires Valid()
      modifies this`subAlbums, this`Repr
      ensures Valid() && subAlbums.Some? && fresh(Repr - old(Repr))
      ensures Unloaded(Repr - old(Repr))
      ensures old(subAlbums).Some? ==> subAlbums == old(subAlbums) && Repr == old(Repr)
      ensures files == old(files)
      ensures r == if withArchived then subAlbums.value else Unarchived(subAlbums.value)
      ensures |r| == |Kids(Node(), withArchived)|
      ensures forall i | 0 <= i < |r| ::
        r[i] in subAlbums.value && r[i].segs == segs + [Kids(Node(), withArchived)[i].name]
    {
      if subAlbums.None? {
        LoadSubAlbums();
      }
      if withArchived {
        r := subAlbums.value;
      } else {
        r := Unarchived(subAlbums.value);
        UnarchivedMirrors(subAlbums.value, Node().subdirs);
      }
    }

    /** Filtering album objects by their names filters their directories the same way. */
    lemma UnarchivedMirrors(albums: seq<Album>, ds: seq<Dir>)
      requires |albums| == |ds|
      requires forall i | 0 <= i < |albums| :: albums[i].Placed() && albums[i].segs == segs + [ds[i].name]
      ensures |Unarchived(albums)| == |UnarchivedDirs(ds)|
      ensures forall i | 0 <= i < |Unarchived(albums)| :: Unarchived(albums)[i].segs == segs + [UnarchivedDirs(ds)[i].name]
    {
      forall i | 0 <= i < |albums|
        ensures albums[i].IsArchived() == ArchivedName(ds[i].name)
      {
        albums[i].AttributesFromName();
      }
      FilterMirrors(albums, ds, segs);
    }

    /** `hasSubAlbums($include_archived)`: whether `albums` is non-empty. */
    method HasSubAlbums(withArchived: bool) returns (r: bool)
      requires Valid()
      modifies this`subAlbums, this`Repr
      ensures Valid() && subAlbums.Some? && fresh(Repr - old(Repr))
      ensures Unloaded(Repr - old(Repr))
      ensures old(subAlbums).Some? ==> subAlbums == old(subAlbums) && Repr == old(Repr)
      ensures files == old(files)
      ensures r <==> Kids(Node(), withArchived) != []
    {
      var albums := Albums(withArchived);
      r := albums != [];
    }

    /**
     * `albumWalk($callback, $include_archived)` (src/BrokunMusheen/FSGallery/Album.php:424-435):
     * the albums the callback is called on, in the order it is called: this
     * album, then the walk of each sub-album `albums` gives.
     */
    method AlbumWalk(withArchived: bool) returns (visited: seq<Album>)
      requires Valid()
      modifies Repr`subAlbums, Repr`Repr
      ensures Valid() && fresh(Repr - old(Repr))
      ensures Unloaded(Repr - old(Repr))
      ensures forall o | o in old(Repr) :: unchanged(o`albumId, o`createdAt, o`files)
      ensures Positions(visited) == Walk(Node(), segs, withArchived)
      ensures Gathered(visited)
      decreases Node(), 1
    {
      var below := WalkBelow(withArchived);
      visited := [this] + below;
      PositionsAppend([this], below);
    }

    /** The part of `albumWalk` after the album itself: the walks of the sub-albums `albums` gives. */
    method WalkBelow(withArchived: bool) returns (visited: seq<Album>)
      requires Valid()
      modifies Repr`subAlbums, Repr`Repr
      ensures Valid() && fresh(Repr - old(Repr))
      ensures Unloaded(Repr - old(Repr))
      ensures Positions(visited) == WalkAll(Node(), Kids(Node(), withArchived), segs, withArchived)
      ensures Gathered(visited)
      decreases Node(), 0, 4
    {
      var has := HasSubAlbums(withArchived);
      if has {
        visited := WalkKids(withArchived);
      } else {
        visited := [];
      }
    }

    /** The branch of `albumWalk` for an album with sub-albums: the walks of those `albums` gives. */
    method WalkKids(withArchived: bool) returns (visited: seq<Album>)
      requires Valid() && subAlbums.Some?
      modifies Repr`subAlbums, Repr`Repr
      ensures Valid() && fresh(Repr - old(Repr))
      ensures Unloaded(Repr - old(Repr))
      ensures Positions(visited) == WalkAll(Node(), Kids(Node(), withArchived), segs, withArchived)
      ensures Gathered(visited)
      decreases Node(), 0, 3
    {
      var kids := Albums(withArchived);
      visited := WalkSubAlbums(kids, Kids(Node(), withArchived), withArchived);
    }

    /** The loop of `albumWalk`: the walks of the given sub-albums, one after another. */
    method WalkSubAlbums(kids: seq<Album>, ghost ks: seq<Dir>, withArchived: bool) returns (visited: seq<Album>)
      requires Valid() && subAlbums.Some? && |kids| == |ks|
      requires forall j | 0 <= j < |kids| :: kids[j] in subAlbums.value && kids[j].segs == segs + [ks[j].name]
      requires forall k | k in ks :: k in Node().subdirs
      modifies Repr`subAlbums, Repr`Repr
      ensures Valid() && fresh(Repr - old(Repr))
      ensures Unloaded(Repr - old(Repr))
      ensures Positions(visited) == WalkAll(Node(), ks, segs, withArchived)
      ensures Gathered(visited)
      decreases Node(), 0, 2
    {
      visited := [];
      ghost var sub := subAlbums.value;
      var i := 0;
      while i < |kids|
        invariant 0 <= i <= |kids|
        invariant Valid() && fresh(Repr - old(Repr)) && subAlbums == Some(sub)
        invariant Unloaded(Repr - old(Repr))
        invariant Positions(visited) == WalkAll(Node(), ks[..i], segs, withArchived)
        invariant Gathered(visited)
      {
        ghost var before := Repr;
        visited := WalkStep(kids[i], ks[i], visited, ks[..i], withArchived);
        UnloadedUnion(before - old(Repr), Repr - before, Repr - old(Repr));
        PrefixStep(ks, i);
        i := i + 1;
      }
      assert ks[..i] == ks;
    }

    /**
     * `getLeaves($include_archived)` (src/BrokunMusheen/FSGallery/Album.php:331-348):
     * this album when it has no sub-album at all, otherwise the leaves of
     * each sub-album `albums` gives, in order.
     */
    method GetLeaves(withArchived: bool) returns (leaves: seq<Album>)
      requires Valid()
      modifies Repr`subAlbums, Repr`Repr
      ensures Valid() && fresh(Repr - old(Repr))
      ensures Unloaded(Repr - old(Repr))
      ensures forall o | o in old(Repr) :: unchanged(o`albumId, o`createdAt, o`files)
      ensures Positions(leaves) == Leaves(Node(), segs, withArchived)
      ensures Gathered(leaves)
      decreases Node(), 2
    {
      leaves := LeavesHere(withArchived);
    }

    /** The body of `getLeaves`: the check for sub-albums, then this album or the leaves below it. */
    method LeavesHere(withArchived: bool) returns (leaves: seq<Album>)
      requires Valid()
      modifies Repr`subAlbums, Repr`Repr
      ensures Valid() && fresh(Repr - old(Repr))
      ensures Unloaded(Repr - old(Repr))
      ensures Positions(leaves) == Leaves(Node(), segs, withArchived)
      ensures Gathered(leaves)
      decreases Node(), 1
    {
      var has := HasSubAlbums(true);
      if has {
        leaves := LeavesBelow(withArchived);
      } else {
        leaves := [this];
      }
    }

    /** The branch of `getLeaves` for an album with sub-albums: the leaves of those `albums` gives. */
    method LeavesBelow(withArchived: bool) returns (leaves: seq<Album>)
      requires Valid() && subAlbums.Some?
      modifies Repr`subAlbums, Repr`Repr
      ensures Valid() && fresh(Repr - old(Repr))
      ensures Unloaded(Repr - old(Repr))
      ensures Positions(leaves) == LeavesAll(Node(), Kids(Node(), withArchived), segs, withArchived)
      ensures Gathered(leaves)
      decreases Node(), 0, 3
    {
      var kids := Albums(withArchived);
      leaves := LeavesOfSubAlbums(kids, Kids(Node(), withArchived), withArchived);
    }

    /** The loop of `getLeaves`: the leaves of the given sub-albums, one after another. */
    method LeavesOfSubAlbums(kids: seq<Album>, ghost ks: seq<Dir>, withArchived: bool) returns (leaves: seq<Album>)
      requires Valid() && subAlbums.Some? && |kids| == |ks|
      requires forall j | 0 <= j < |kids| :: kids[j] in subAlbums.value && kids[j].segs == segs + [ks[j].name]
      requires forall k | k in ks :: k in Node().subdirs
      modifies Repr`subAlbums, Repr`Repr
      ensures Valid() && fresh(Repr - old(Repr))
      ensures Unloaded(Repr - old(Repr))
      ensures Positions(leaves) == LeavesAll(Node(), ks, segs, withArchived)
      ensures Gathered(leaves)
      decreases Node(), 0, 2
    {
      leaves := [];
      ghost var sub := subAlbums.value;
      var i := 0;
      while i < |kids|
        invariant 0 <= i <= |kids|
        invariant Valid() && fresh(Repr - old(Repr)) && subAlbums == Some(sub)
        invariant Unloaded(Repr - old(Repr))
        invariant Positions(leaves) == LeavesAll(Node(), ks[..i], segs, withArchived)
        invariant Gathered(leaves)
      {
        ghost var before := Repr;
        leaves := LeavesStep(kids[i], ks[i], leaves, ks[..i], withArchived);
        UnloadedUnion(before - old(Repr), Repr - before, Repr - old(Repr));
        PrefixStep(ks, i);
        i := i + 1;
      }
      assert ks[..i] == ks;
    }

    /** The albums gathered so far lie in this album's tree. */
    ghost predicate Gathered(albums: seq<Album>)
      reads this
    {
      forall a | a in albums :: a in Repr && a.Placed() && a.disk == disk
    }

    /** One turn of `albumWalk`'s loop: the walk of the sub-album on `k` is appended. */
    method WalkStep(kid: Album, ghost k: Dir, visited: seq<Album>, ghost done: seq<Dir>, withArchived: bool)
      returns (r: seq<Album>)
      requires Valid() && subAlbums.Some? && kid in subAlbums.value
      requires k in Node().subdirs && kid.segs == segs + [k.name]
      requires forall x | x in done :: x in Node().subdirs
      requires Positions(visited) == WalkAll(Node(), done, segs, withArchived)
      requires Gathered(visited)
      modifies Repr`subAlbums, Repr`Repr
      ensures Valid() && fresh(Repr - old(Repr)) && subAlbums == old(subAlbums)
      ensures Unloaded(Repr - old(Repr))
      ensures Positions(r) == WalkAll(Node(), done + [k], segs, withArchived)
      ensures Gathered(r)
      decreases Node(), 0, 1
    {
      ChildNode(k);
      var v := KidWalk(kid, withArchived);
      PositionsAppend(visited, v);
      assert (done + [k])[..|done|] == done;
      r := visited + v;
    }

    /** One turn of `getLeaves`' loop: the leaves of the sub-album on `k` are appended. */
    method LeavesStep(kid: Album, ghost k: Dir, leaves: seq<Album>, ghost done: seq<Dir>, withArchived: bool)
      returns (r: seq<Album>)
      requires Valid() && subAlbums.Some? && kid in subAlbums.value
      requires k in Node().subdirs && kid.segs == segs + [k.name]
      requires forall x | x in done :: x in Node().subdirs
      requires Positions(leaves) == LeavesAll(Node(), done, segs, withArchived)
      requires Gathered(leaves)
      modifies Repr`subAlbums, Repr`Repr
      ensures Valid() && fresh(Repr - old(Repr)) && subAlbums == old(subAlbums)
      ensures Unloaded(Repr - old(Repr))
      ensures Positions(r) == LeavesAll(Node(), done + [k], segs, withArchived)
      ensures Gathered(r)
      decreases Node(), 0, 1
    {
      ChildNode(k);
      var v := KidLeaves(kid, withArchived);
      PositionsAppend(leaves, v);
      assert (done + [k])[..|done|] == done;
      r := leaves + v;
    }

    /** One step of `albumWalk`'s loop: the walk of a sub-album, whose objects join `Repr`. */
    method KidWalk(kid: Album, withArchived: bool) returns (v: seq<Album>)
      requires Valid() && subAlbums.Some? && kid in subAlbums.value
      modifies Repr`subAlbums, Repr`Repr
      ensures Valid() && fresh(Repr - old(Repr)) && old(Repr) <= Repr
      ensures Unloaded(Repr - old(Repr))
      ensures subAlbums == old(subAlbums) && kid.Placed()
      ensures Positions(v) == Walk(kid.Node(), kid.segs, withArchived)
      ensures Gathered(v)
      decreases Node(), 0, 0
    {
      KidBelow(kid);
      label Before:
      v := kid.AlbumWalk(withArchived);
      Repr := Repr + kid.Repr;
      OthersKept@Before(kid);
      SubAlbumGrew@Before(kid);
    }

    /** One step of `getLeaves`' loop: the leaves of a sub-album, whose objects join `Repr`. */
    method KidLeaves(kid: Album, withArchived: bool) returns (v: seq<Album>)
      requires Valid() && subAlbums.Some? && kid in subAlbums.value
      modifies Repr`subAlbums, Repr`Repr
      ensures Valid() && fresh(Repr - old(Repr)) && old(Repr) <= Repr
      ensures Unloaded(Repr - old(Repr))
      ensures subAlbums == old(subAlbums) && kid.Placed()
      ensures Positions(v) == Leaves(kid.Node(), kid.segs, withArchived)
      ensures Gathered(v)
      decreases Node(), 0, 0
    {
      KidBelow(kid);
      label Before:
      v := kid.GetLeaves(withArchived);
      Repr := Repr + kid.Repr;
      OthersKept@Before(kid);
      SubAlbumGrew@Before(kid);
    }

    /** A sub-album sits on one of this album's sub-directories. */
    lemma KidBelow(kid: Album)
      requires Valid() && subAlbums.Some? && kid in subAlbums.value
      ensures kid.Placed() && kid.Node() in Node().subdirs
    {
      var m :| 0 <= m < |subAlbums.value| && subAlbums.value[m] == kid;
      ChildNode(Node().subdirs[m]);
    }

    /**
     * After one sub-album's subtree changed, grew by fresh objects and was
     * added to `Repr`, the album is valid again: every other sub-album owns
     * objects the change did not touch.
     */
    twostate lemma SubAlbumGrew(kid: Album)
      requires old(Valid()) && old(subAlbums).Some? && kid in old(subAlbums).value
      requires subAlbums == old(subAlbums) && files == old(files)
      requires Repr == old(Repr) + kid.Repr
      requires kid.Valid() && fresh(kid.Repr - old(kid.Repr))
      requires forall i | 0 <= i < |subAlbums.value| && subAlbums.value[i] != kid ::
        subAlbums.value[i].Valid() && subAlbums.value[i].Repr == old(subAlbums.value[i].Repr)
      ensures Valid()
    {
      var sub := subAlbums.value;
      forall i, j | 0 <= i < |sub| && 0 <= j < |sub| && i != j
        ensures Apart(sub[i], sub[j])
      {
        assert old(Apart(sub[i], sub[j]));
      }
    }

    /** The sub-albums other than `kid` own none of the objects that changed, so they stay valid. */
    twostate lemma OthersKept(kid: Album)
      requires old(Valid()) && old(subAlbums).Some? && kid in old(subAlbums).value
      requires subAlbums == old(subAlbums)
      requires forall o: Album | o in old(Repr) && o !in old(kid.Repr) && o != this :: unchanged(o)
      ensures forall i | 0 <= i < |subAlbums.value| && subAlbums.value[i] != kid ::
        subAlbums.value[i].Valid() && subAlbums.value[i].Repr == old(subAlbums.value[i].Repr)
    {
      var sub := subAlbums.value;
      var m :| 0 <= m < |sub| && sub[m] == kid;
      forall i | 0 <= i < |sub| && sub[i] != kid
        ensures sub[i].Valid() && sub[i].Repr == old(sub[i].Repr)
      {
        assert old(Apart(sub[i], sub[m]));
        ValidKept(sub[i]);
      }
    }

    /**
     * `getParent` (src/BrokunMusheen/FSGallery/Album.php:388-409): none for
     * the base directory; otherwise a new album for the directory path
     * without its last segment.
     */
    method GetParent() returns (p: Option<Album>)
      requires Placed()
      ensures p.None? <==> segs == []
      ensures p.Some? ==>
        fresh(p.value) && p.value.Valid() && p.value.Repr == {p.value} &&
        p.value.disk == disk && p.value.segs == segs[..|segs| - 1]
    {
      PathOfIsBase(disk.cfg, segs);
      if directory == disk.cfg.baseDir {
        return None;
      }
      var d := disk.cfg.delimiter;
      var parts := StringToArray(directory, d);
      var parentDir := ArrayToString(parts[..|parts| - 1], None, d);
      ParentExists(disk, segs);
      var parent := new Album(disk, parentDir);
      p := Some(parent);
    }

    /**
     * `getPath` (src/BrokunMusheen/FSGallery/Album.php:365-381): the names of
     * the album and its ancestors up to the root, reversed, without the
     * root's, joined; '' for the root.
     */
    method GetPath() returns (p: string)
      requires Placed()
      ensures p == Join(segs, disk.cfg.delimiter)
    {
      var names: seq<string> := [];
      var current: Option<Album> := Some(this);
      ghost var rootName := LastSegment(disk.cfg.baseDir, disk.cfg.delimiter);
      while current.Some?
        invariant current.Some? ==>
          current.value.Placed() && current.value.disk == disk &&
          |current.value.segs| <= |segs| && current.value.segs == segs[..|current.value.segs|] &&
          names == Reverse(segs[|current.value.segs|..])
        invariant current.None? ==> names == Reverse(segs) + [rootName]
        decreases if current.Some? then |current.value.segs| + 1 else 0
      {
        var a := current.value;
        LastSegmentOfPath(disk.cfg, a.segs);
        if a.segs != [] {
          assert a.GetName() == segs[|a.segs| - 1];
          ClimbNames(segs, |a.segs|, names);
        } else {
          assert segs[0..] == segs;
        }
        names := names + [a.GetName()];
        current := a.GetParent();
      }
      ReverseAppend(Reverse(segs), [rootName]);
      ReverseReverse(segs);
      names := Reverse(names);
      names := names[1..];
      p := ArrayToString(names, None, disk.cfg.delimiter);
    }

    /** `getRealPath` (src/BrokunMusheen/FSGallery/Album.php:355-358). */
    method GetRealPath() returns (p: string)
      requires Placed()
      ensures p == RealPathOf(disk.cfg, segs)
    {
      var path := GetPath();
      p := JoinPath(disk.cfg.baseDir, path, disk.cfg.delimiter);
    }

    /** `getMetaFilePath` (src/BrokunMusheen/FSGallery/Album.php:624-627). */
    method GetMetaFilePath() returns (p: string)
      requires Placed()
      ensures p == MetaPathOf(disk.cfg, segs)
    {
      var realPath := GetRealPath();
      p := JoinPath(realPath, MetaFileName, disk.cfg.delimiter);
    }

    /** The outcome of loading the sidecar from this sidecar store and clock. */
    ghost function MetaStep(sidecars: map<string, Record>, clock: nat): MetaOutcome
    {
      var mp := MetaPathOf(disk.cfg, segs);
      MetaInfoStep(if mp in sidecars then Some(sidecars[mp]) else None, clock, disk.mtime(RealPathOf(disk.cfg, segs)))
    }

    /**
     * `getMetaInfo` (src/BrokunMusheen/FSGallery/Album.php:293-309): the
     * sidecar object, loaded when the file exists and saved, with a new id,
     * when it does not.
     */
    method GetMetaInfo() returns (meta: MetaFile)
      requires Placed()
      modifies disk`clock, disk`sidecars
      ensures fresh(meta) && meta.disk == disk
      ensures meta.path == MetaPathOf(disk.cfg, segs) && meta.albumRealPath == RealPathOf(disk.cfg, segs)
      ensures MetaPathOf(disk.cfg, segs) in old(disk.sidecars) ==>
        meta.albumId == old(disk.sidecars)[MetaPathOf(disk.cfg, segs)].id &&
        meta.createdAt == old(disk.sidecars)[MetaPathOf(disk.cfg, segs)].createdAt &&
        disk.sidecars == old(disk.sidecars) && disk.clock == old(disk.clock)
      ensures MetaPathOf(disk.cfg, segs) !in old(disk.sidecars) ==>
        meta.albumId == Some(UniqId(old(disk.clock))) &&
        meta.createdAt == Some(disk.mtime(RealPathOf(disk.cfg, segs))) &&
        disk.clock == old(disk.clock) + 1 &&
        disk.sidecars == old(disk.sidecars)[MetaPathOf(disk.cfg, segs) := Record(meta.albumId, meta.createdAt)]
    {
      var mp := GetMetaFilePath();
      var realPath := GetRealPath();
      meta := new MetaFile(disk, mp, realPath);
      if mp in disk.sidecars {
        var _ := meta.LoadFile();
      } else {
        meta.Save();
      }
    }

    /**
     * `_loadMetaInfo` (src/BrokunMusheen/FSGallery/Album.php:311-318): the
     * id read from the sidecar object, then its creation time, which may
     * save the sidecar again.
     */
    method LoadMetaInfo()
      requires Placed()
      modifies this`albumId, this`createdAt, disk`clock, disk`sidecars
      ensures var o := MetaStep(old(disk.sidecars), old(disk.clock));
        albumId == o.id && createdAt == o.createdAt && disk.clock == o.clock &&
        disk.sidecars == old(disk.sidecars)[MetaPathOf(disk.cfg, segs) := o.stored]
    {
      var meta := GetMetaInfo();
      albumId := meta.GetId();
      createdAt := meta.GetCreatedAt();
    }

    /**
     * `getId` (src/BrokunMusheen/FSGallery/Album.php:128-136): the cached id,
     * or the one the sidecar gives once loaded.
     */
    method GetId() returns (id: Option<string>)
      requires Placed()
      modifies this`albumId, this`createdAt, disk`clock, disk`sidecars
      ensures old(albumId).Some? ==> id == old(albumId) && unchanged(this) && unchanged(disk)
      ensures old(albumId).None? ==>
        var o := MetaStep(old(disk.sidecars), old(disk.clock));
        id == o.id && albumId == o.id && createdAt == o.createdAt && disk.clock == o.clock &&
        disk.sidecars == old(disk.sidecars)[MetaPathOf(disk.cfg, segs) := o.stored]
    {
      if albumId.None? {
        LoadMetaInfo();
      }
      id := albumId;
    }

    /**
     * `getCreatedAt` (src/BrokunMusheen/FSGallery/Album.php:138-146): the
     * cached creation time, or the one the sidecar gives once loaded.
     */
    method GetCreatedAt() returns (c: Option<int>)
      requires Placed()
      modifies this`albumId, this`createdAt, disk`clock, disk`sidecars
      ensures old(createdAt).Some? ==> c == old(createdAt) && unchanged(this) && unchanged(disk)
      ensures old(createdAt).None? ==>
        var o := MetaStep(old(disk.sidecars), old(disk.clock));
        c == o.createdAt && albumId == o.id && createdAt == o.createdAt && disk.clock == o.clock &&
        disk.sidecars == old(disk.sidecars)[MetaPathOf(disk.cfg, segs) := o.stored]
    {
      if createdAt.None? {
        LoadMetaInfo();
      }
      c := createdAt;
    }

    /**
     * `unsetId` (src/BrokunMusheen/FSGallery/Album.php:634-640): the sidecar
     * is deleted and both cached values forgotten.
     */
    method UnsetId()
      requires Placed()
      modifies this`albumId, this`createdAt, disk`sidecars
      ensures disk.sidecars == old(disk.sidecars) - {MetaPathOf(disk.cfg, segs)}
      ensures albumId == None && createdAt == None
    {
      var mp := GetMetaFilePath();
      disk.sidecars := disk.sidecars - {mp};
      albumId := None;
      createdAt := None;
    }

    /**
     * `loadContent` (src/BrokunMusheen/FSGallery/Album.php:509-552): one pass
     * over the directory's files, adding a slot for each new title and
     * putting each kept file in its slot's thumbnail or original place.
     */
    method LoadContent()
      requires Placed()
      modifies this`files
      ensures files == Some(ContentOf(directory, Node().files, ReservedNames(disk.cfg), disk.cfg.delimiter))
    {
      DirAtDirectory();
      var listing := disk.DirAt(directory).value.files;
      var reserved := ReservedNames(disk.cfg);
      var d := disk.cfg.delimiter;
      var content: seq<Slot> := [];
      var i := 0;
      while i < |listing|
        invariant 0 <= i <= |listing|
        invariant content == ContentOf(directory, listing[..i], reserved, d)
      {
        content := AddListedFile(content, directory, listing[i], reserved, d);
        ContentOfStep(directory, listing, i, reserved, d);
        i := i + 1;
      }
      assert listing[..i] == listing;
      files := Some(content);
    }

    /** `getContent` (src/BrokunMusheen/FSGallery/Album.php:233-241): the content table, loaded once. */
    method GetContent() returns (c: seq<Slot>)
      requires Placed() && ContentCached()
      modifies this`files
      ensures c == ContentOf(directory, Node().files, ReservedNames(disk.cfg), disk.cfg.delimiter)
      ensures files == Some(c)
    {
      if files.None? {
        LoadContent();
      }
      c := files.value;
    }

    /**
     * `getFiles` (src/BrokunMusheen/FSGallery/Album.php:210-219): the
     * originals of the content table in order.
     */
    method GetFiles() returns (fs: seq<Media>)
      requires Placed() && ContentCached()
      modifies this`files
      ensures fs == Originals(ContentOf(directory, Node().files, ReservedNames(disk.cfg), disk.cfg.delimiter))
      ensures ContentCached()
    {
      var c := GetContent();
      fs := Originals(c);
    }

    /** `hasContent` (src/BrokunMusheen/FSGallery/Album.php:457-465): whether `getFiles` gives anything. */
    method HasContent() returns (r: bool)
      requires Placed() && ContentCached()
      modifies this`files
      ensures r <==> Originals(ContentOf(directory, Node().files, ReservedNames(disk.cfg), disk.cfg.delimiter)) != []
    {
      var fs := GetFiles();
      r := fs != [];
    }

    /** `hasImagery` (src/BrokunMusheen/FSGallery/Album.php:472-484): whether some file is a picture. */
    method HasImagery() returns (r: bool)
      requires Placed() && ContentCached()
      modifies this`files
      ensures r <==> exists m | m in Originals(ContentOf(directory, Node().files, ReservedNames(disk.cfg), disk.cfg.delimiter)) :: m.kind == Jpg
    {
      var fs := GetFiles();
      r := AnyOfKind(fs, Jpg);
    }

    /** `hasVideo` (src/BrokunMusheen/FSGallery/Album.php:491-502): whether some file is a video. */
    method HasVideo() returns (r: bool)
      requires Placed() && ContentCached()
      modifies this`files
      ensures r <==> exists m | m in Originals(ContentOf(directory, Node().files, ReservedNames(disk.cfg), disk.cfg.delimiter)) :: m.kind == Mp4
    {
      var fs := GetFiles();
      r := AnyOfKind(fs, Mp4);
    }
  }

  /** The loop of `hasImagery` and `hasVideo`: whether some object is of the kind, stopping at the first. */
  method AnyOfKind(ms: seq<Media>, k: Kind) returns (r: bool)
    ensures r <==> exists m | m in ms :: m.kind == k
  {
    for i := 0 to |ms|
      invariant forall j | 0 <= j < i :: ms[j].kind != k
    {
      if ms[i].kind == k {
        return true;
      }
    }
    return false;
  }

  /**
   * The body of `loadContent`'s loop: the listed file is classified as
   * `File::make`, `isDescription` and `getName` do, and a kept file goes into
   * the slot of its title, which is added at the end when new.
   */
  method AddListedFile(content: seq<Slot>, dir: string, f: string, reserved: seq<string>, d: char)
    returns (r: seq<Slot>)
    requires IsDelimiter(d) && NameOk(f)
    ensures r == PutIn(content, Classify(dir, f, reserved, d))
  {
    r := content;
    var kept := Classify(dir, f, reserved, d);
    if kept.Some? {
      var l := kept.value;
      var at := Find(r, l.key);
      if at.Some? {
        r := r[at.value := Fill(r[at.value], l)];
      } else {
        r := r + [Fill(Slot(l.key, None, None), l)];
      }
    }
  }

  /** The path with its last segment dropped names the parent position, which exists. */
  lemma ParentExists(disk: Disk, segs: seq<string>)
    requires disk.Ok() && SegmentsOk(segs) && Lookup(disk.tree, segs).Some? && segs != []
    ensures var d := disk.cfg.delimiter;
      var parts := StringToArray(PathOf(disk.cfg, segs), d);
      var parent := ArrayToString(parts[..|parts| - 1], None, d);
      disk.Exists(parent) && Resolve(disk.cfg, parent) == Some(segs[..|segs| - 1])
  {
    var prefix := segs[..|segs| - 1];
    ParentPath(disk.cfg, segs);
    assert SegmentsOk(prefix);
    ResolvePathOf(disk.cfg, prefix);
    LookupPrefix(disk.tree, segs, |segs| - 1);
  }

  /** Albums that have loaded nothing: no id, no creation time, no files. */
  ghost predicate Unloaded(s: set<Album>)
    reads s`albumId, s`createdAt, s`files
  {
    forall o | o in s :: o.NothingLoaded()
  }

  /** Albums drawn from two unloaded sets are unloaded. */
  lemma UnloadedUnion(a: set<Album>, b: set<Album>, c: set<Album>)
    requires Unloaded(a) && Unloaded(b) && c <= a + b
    ensures Unloaded(c)
  {
  }

  /** Two albums own no object in common. */
  ghost predicate Apart(a: Album, b: Album)
    reads a, b
  {
    a.Repr !! b.Repr
  }

  /** An album whose objects are all unchanged stays valid. */
  twostate lemma ValidKept(a: Album)
    requires old(a.Valid())
    requires forall o: Album | o in old(a.Repr) :: unchanged(o)
    ensures a.Valid() && a.Repr == old(a.Repr)
  {
  }

  /**
   * An album stays valid when only ids and creation times changed: the
   * sub-album caches, content tables and footprints of all its objects are
   * as they were.
   */
  twostate lemma {:induction false} ValidIgnoresIds(a: Album)
    requires old(a.Valid())
    requires forall o: Album | o in old(a.Repr) ::
      o.subAlbums == old(o.subAlbums) && o.files == old(o.files) && o.Repr == old(o.Repr)
    ensures a.Valid()
    decreases old(a.Repr)
  {
    if a.subAlbums.Some? {
      var sub := a.subAlbums.value;
      forall i | 0 <= i < |sub|
        ensures sub[i].Valid()
      {
        assert old(sub[i].Repr) < old(a.Repr);
        ValidIgnoresIds(sub[i]);
      }
      forall i, j | 0 <= i < |sub| && 0 <= j < |sub| && i != j
        ensures Apart(sub[i], sub[j])
      {
        assert old(Apart(sub[i], sub[j]));
      }
    }
  }

  /** Albums whose archived flags follow their directories' names are filtered alike. */
  lemma {:induction false} FilterMirrors(albums: seq<Album>, ds: seq<Dir>, segs: seq<string>)
    requires |albums| == |ds|
    requires forall i | 0 <= i < |albums| ::
      albums[i].IsArchived() == ArchivedName(ds[i].name) && albums[i].segs == segs + [ds[i].name]
    ensures |Unarchived(albums)| == |UnarchivedDirs(ds)|
    ensures forall i | 0 <= i < |Unarchived(albums)| :: Unarchived(albums)[i].segs == segs + [UnarchivedDirs(ds)[i].name]
  {
    if albums != [] {
      var ra, rd := Unarchived(albums[1..]), UnarchivedDirs(ds[1..]);
      FilterMirrors(albums[1..], ds[1..], segs);
      assert albums[0].IsArchived() == ArchivedName(ds[0].name) && albums[0].segs == segs + [ds[0].name];
      if albums[0].IsArchived() {
        assert Unarchived(albums) == ra && UnarchivedDirs(ds) == rd;
      } else {
        assert Unarchived(albums) == [albums[0]] + ra && UnarchivedDirs(ds) == [ds[0]] + rd;
        MirrorsCons(albums[0], ra, ds[0], rd, segs);
      }
    }
  }

  /** An album on directory `d` put before albums mirroring `ds` mirrors `[d] + ds`. */
  lemma MirrorsCons(a: Album, albums: seq<Album>, d: Dir, ds: seq<Dir>, segs: seq<string>)
    requires a.segs == segs + [d.name] && |albums| == |ds|
    requires forall i | 0 <= i < |albums| :: albums[i].segs == segs + [ds[i].name]
    ensures forall i | 0 <= i < |albums| + 1 :: ([a] + albums)[i].segs == segs + [([d] + ds)[i].name]
  {
    forall i | 0 <= i < |albums| + 1
      ensures ([a] + albums)[i].segs == segs + [([d] + ds)[i].name]
    {
      if i > 0 {
        assert ([a] + albums)[i] == albums[i - 1] && ([d] + ds)[i] == ds[i - 1];
      }
    }
  }

  /** The prefix of one more element. */
  lemma PrefixStep<T>(s: seq<T>, i: nat)
    requires i < |s|
    ensures s[..i] + [s[i]] == s[..i + 1]
  {
  }

  /** Climbing one level adds the name of that level to the reversed names. */
  lemma ClimbNames<T>(s: seq<T>, k: nat, names: seq<T>)
    requires 0 < k <= |s| && names == Reverse(s[k..])
    ensures names + [s[k - 1]] == Reverse(s[k - 1..])
  {
    assert s[k - 1..][1..] == s[k..];
  }

  lemma PositionsAppend(a: seq<Album>, b: seq<Album>)
    ensures Positions(a + b) == Positions(a) + Positions(b)
  {
  }
}

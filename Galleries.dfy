/**
 * The gallery (src/BrokunMusheen/FSGallery/Gallery.php): the base album, the
 * album-id index with its index file, finding albums by position and by id,
 * and the gallery folder's parent.
 *
 * PHP's loose comparison makes a null id and the empty string the same
 * array key and the same `in_array` element; ids are therefore keyed by
 * `KeyOf`.
 */
module Galleries {
  import opened Wrappers
  import opened FilePaths
  import opened Storage
  import opened AlbumSpecs
  import opened Albums
  import FileNames

  /** The index file's name inside the data directory. */
  const IndexFileName := "gallery.idx"

  /** The array key an id becomes: null reads as ''. */
  function KeyOf(id: Option<string>): string
  {
    id.GetOr("")
  }

  /** The positions other than the root's, in order. */
  function Proper(ps: seq<seq<string>>): (r: seq<seq<string>>)
    ensures forall p | p in r :: p in ps && p != []
    ensures |r| <= |ps|
  {
    if ps == [] then []
    else Proper(ps[..|ps| - 1]) + (if ps[|ps| - 1] == [] then [] else [ps[|ps| - 1]])
  }

  /** Every position of a walk but its first is below the root, so `Proper` drops only the root. */
  lemma {:induction false} ProperDropsRoot(ps: seq<seq<string>>)
    requires forall i | 0 <= i < |ps| :: ps[i] == [] <==> i == 0
    ensures ps != [] ==> Proper(ps) == ps[1..]
    decreases |ps|
  {
    if |ps| > 1 {
      var init := ps[..|ps| - 1];
      ProperDropsRoot(init);
      assert init[1..] + [ps[|ps| - 1]] == ps[1..];
    } else if |ps| == 1 {
      assert Proper(ps) == Proper([]) + [];
    }
  }

  /** The albums indexed after the first `i` albums of the walk: its proper ones, in walk order. */
  ghost predicate Reached(indexed: seq<Album>, walked: seq<Album>, i: nat)
  {
    i <= |walked| && Positions(indexed) == Proper(Positions(walked[..i]))
  }

  /** One more album of the walk: the root is skipped, any other album indexed. */
  lemma ProperStep(walked: seq<Album>, i: nat, indexed: seq<Album>)
    requires i < |walked| && Positions(indexed) == Proper(Positions(walked[..i]))
    ensures walked[i].segs == [] ==> Positions(indexed) == Proper(Positions(walked[..i + 1]))
    ensures walked[i].segs != [] ==> Positions(indexed + [walked[i]]) == Proper(Positions(walked[..i + 1]))
  {
    var ps := Positions(walked[..i + 1]);
    assert ps[..|ps| - 1] == Positions(walked[..i]);
    assert ps[|ps| - 1] == walked[i].segs;
    PositionsAppend(indexed, [walked[i]]);
  }

  /**
   * The duplicate check of `buildIndex` over `keys`, given the ids `firsts`
   * their albums' `getId` gave before any repair: an id no earlier album
   * took is kept; a taken one is replaced by the spelling of a clock
   * reading between `c0` (the clock before the walk) and `c` (after it).
   */
  predicate KeptOrFresh(keys: seq<string>, firsts: seq<Option<string>>, c0: nat, c: nat)
  {
    |firsts| == |keys| &&
    (forall j | 0 <= j < |keys| && KeyOf(firsts[j]) !in keys[..j] :: keys[j] == KeyOf(firsts[j])) &&
    (forall j | 0 <= j < |keys| && KeyOf(firsts[j]) in keys[..j] ::
      c0 <= HexToNat(keys[j]) < c && keys[j] == UniqId(HexToNat(keys[j])))
  }

  /** One more album through the duplicate check keeps the rule for every album so far. */
  lemma KeptOrFreshStep(keys: seq<string>, firsts: seq<Option<string>>, c0: nat, c: nat, c': nat, key: string, first: Option<string>)
    requires KeptOrFresh(keys, firsts, c0, c) && c0 <= c <= c'
    requires KeyOf(first) !in keys ==> key == KeyOf(first)
    requires KeyOf(first) in keys ==> c < c' && key == UniqId(c' - 1)
    ensures KeptOrFresh(keys + [key], firsts + [first], c0, c')
  {
    var keys', firsts' := keys + [key], firsts + [first];
    forall j | 0 <= j < |keys'| && KeyOf(firsts'[j]) !in keys'[..j]
      ensures keys'[j] == KeyOf(firsts'[j])
    {
      if j < |keys| {
        assert keys'[..j] == keys[..j];
      } else {
        assert keys'[..j] == keys;
      }
    }
    forall j | 0 <= j < |keys'| && KeyOf(firsts'[j]) in keys'[..j]
      ensures c0 <= HexToNat(keys'[j]) < c' && keys'[j] == UniqId(HexToNat(keys'[j]))
    {
      if j < |keys| {
        assert keys'[..j] == keys[..j] && keys'[j] == keys[j] && firsts'[j] == firsts[j];
      } else {
        assert keys'[..j] == keys;
        HexRoundTrip(c' - 1);
      }
    }
  }

  /** No two entries are equal. */
  predicate Distinct(keys: seq<string>)
  {
    forall i, j | 0 <= i < j < |keys| :: keys[i] != keys[j]
  }

  /**
   * The index holds exactly the distinct `keys`, the j-th mapped to the
   * path of the j-th indexed album.
   */
  ghost predicate Entries(index: map<string, string>, keys: seq<string>, indexed: seq<Album>, d: char)
  {
    |keys| == |indexed| && Distinct(keys) && index.Keys == (set k | k in keys) &&
    forall j | 0 <= j < |keys| :: index[keys[j]] == Join(indexed[j].segs, d)
  }

  /** A key not yet in the index, added with an album's path, extends the entries by one. */
  lemma EntryAdded(index: map<string, string>, keys: seq<string>, indexed: seq<Album>, key: string, a: Album, d: char)
    requires Entries(index, keys, indexed, d) && key !in index
    ensures Entries(index[key := Join(a.segs, d)], keys + [key], indexed + [a], d)
  {
    var index', keys', indexed' := index[key := Join(a.segs, d)], keys + [key], indexed + [a];
    forall j | 0 <= j < |keys'|
      ensures index'[keys'[j]] == Join(indexed'[j].segs, d)
    {
      if j < |keys| {
        assert keys'[j] == keys[j] && keys[j] in index;
      }
    }
  }

  /** The path of a position, joined, is empty exactly for the root. */
  lemma JoinEmpty(segs: seq<string>, d: char)
    requires SegmentsOk(segs)
    ensures Join(segs, d) == "" <==> segs == []
  {
    if |segs| == 1 {
      assert Join(segs, d) == segs[0];
    } else if |segs| > 1 {
      assert Join(segs, d) == segs[0] + [d] + Join(segs[1..], d);
    }
  }

  /** Different positions have different sidecar paths. */
  lemma MetaPathInjective(cfg: Config, s1: seq<string>, s2: seq<string>)
    requires ConfigOk(cfg) && SegmentsOk(s1) && SegmentsOk(s2)
    ensures MetaPathOf(cfg, s1) == MetaPathOf(cfg, s2) ==> s1 == s2
  {
    var d := cfg.delimiter;
    var j1, j2 := Join(s1, d), Join(s2, d);
    var pre, suf := cfg.baseDir + [d], [d] + FileNames.MetaFileName;
    assert MetaPathOf(cfg, s1) == pre + j1 + suf && MetaPathOf(cfg, s2) == pre + j2 + suf;
    assert j1 == (pre + j1 + suf)[|pre|..|pre| + |j1|];
    assert j2 == (pre + j2 + suf)[|pre|..|pre| + |j2|];
    JoinEmpty(s1, d);
    JoinEmpty(s2, d);
    if s1 != [] {
      SplitJoin(s1, d);
    }
    if s2 != [] {
      SplitJoin(s2, d);
    }
  }

  /** The sidecar paths of the albums, in order. */
  ghost function MetaPaths(cfg: Config, albums: seq<Album>): (mps: seq<string>)
    ensures |mps| == |albums|
    ensures forall k | 0 <= k < |albums| :: mps[k] == MetaPathOf(cfg, albums[k].segs)
  {
    if albums == [] then [] else MetaPaths(cfg, albums[..|albums| - 1]) + [MetaPathOf(cfg, albums[|albums| - 1].segs)]
  }

  /** Albums at pairwise different positions have pairwise different sidecar paths. */
  lemma MetaPathsDistinct(cfg: Config, albums: seq<Album>)
    requires ConfigOk(cfg) && forall a | a in albums :: SegmentsOk(a.segs)
    requires NoRepeats(Positions(albums))
    ensures Distinct(MetaPaths(cfg, albums))
  {
    var mps := MetaPaths(cfg, albums);
    forall x, y | 0 <= x < y < |mps| ensures mps[x] != mps[y] {
      assert albums[x] in albums && albums[y] in albums;
      assert Positions(albums)[x] == albums[x].segs && Positions(albums)[y] == albums[y].segs;
      MetaPathInjective(cfg, albums[x].segs, albums[y].segs);
    }
  }

  /** Every sidecar record but the one at `p` is still there, unchanged. */
  predicate KeptExcept(s0: map<string, Record>, s: map<string, Record>, p: string)
  {
    forall q | q in s0 && q != p :: q in s && s[q] == s0[q]
  }

  /** Two changes confined to the sidecar at `p` make one. */
  lemma KeptExceptTrans(s0: map<string, Record>, s1: map<string, Record>, s2: map<string, Record>, p: string)
    requires KeptExcept(s0, s1, p) && KeptExcept(s1, s2, p)
    ensures KeptExcept(s0, s2, p)
  {
  }

  /** The sidecar record at `p`, if there was one, is still there, unchanged. */
  predicate KeptAt(s0: map<string, Record>, s: map<string, Record>, p: string)
  {
    p in s0 ==> p in s && s[p] == s0[p]
  }

  /**
   * `first`, the id `getId` gave an album, is the one the state before
   * determines: the album's cached id when it had one, otherwise the id of
   * its sidecar record at `mp` when that existed.
   */
  predicate Recorded(first: Option<string>, cached: Option<string>, sidecars: map<string, Record>, mp: string)
  {
    (cached.Some? ==> first == cached) &&
    (cached.None? && mp in sidecars ==> first == sidecars[mp].id)
  }

  /**
   * The path an index entry holds for a position below the root leads back,
   * under the base directory, to an existing directory.
   */
  lemma IndexedPathExists(disk: Disk, segs: seq<string>)
    requires disk.Ok() && SegmentsOk(segs) && Lookup(disk.tree, segs).Some? && segs != []
    ensures var d := disk.cfg.delimiter;
      disk.Exists(ArrayToString(StringToArray(Join(segs, d), d), Some(disk.cfg.baseDir), d))
  {
    var d := disk.cfg.delimiter;
    assert forall k | 0 <= k < |segs| :: d !in segs[k] by {
      forall k | 0 <= k < |segs|
        ensures d !in segs[k]
      {
        assert NameOk(segs[k]);
      }
    }
    SplitJoin(segs, d);
    ResolvePathOf(disk.cfg, segs);
  }

  /** Every path the entries of placed albums below the root hold leads back to an existing directory. */
  lemma EntriesExist(disk: Disk, index: map<string, string>, keys: seq<string>, indexed: seq<Album>)
    requires disk.Ok() && Entries(index, keys, indexed, disk.cfg.delimiter)
    requires forall a | a in indexed :: a.Placed() && a.disk == disk && a.segs != []
    ensures var d := disk.cfg.delimiter;
      forall k | k in index :: disk.Exists(ArrayToString(StringToArray(index[k], d), Some(disk.cfg.baseDir), d))
  {
    var d := disk.cfg.delimiter;
    forall k | k in index
      ensures disk.Exists(ArrayToString(StringToArray(index[k], d), Some(disk.cfg.baseDir), d))
    {
      var j :| 0 <= j < |keys| && keys[j] == k;
      assert indexed[j] in indexed;
      IndexedPathExists(disk, indexed[j].segs);
    }
  }

  /** On a proper disk, a position of well-formed names exists exactly when its directory does. */
  lemma GetAlbumFindsPosition(disk: Disk, segs: seq<string>)
    requires disk.Ok() && SegmentsOk(segs)
    ensures disk.Exists(ArrayToString(segs, Some(disk.cfg.baseDir), disk.cfg.delimiter))
      <==> Lookup(disk.tree, segs).Some?
  {
    ResolvePathOf(disk.cfg, segs);
  }

  /**
   * The gallery folder's parent (`parentFolder`,
   * src/BrokunMusheen/FSGallery/Gallery.php:168-182): the base directory's
   * segments without the last, joined again.
   */
  function ParentOf(base: string, d: char): string
  {
    var steps := Split(base, d);
    Join(steps[..|steps| - 1], d)
  }

  /**
   * The parent and the last segment spell the base directory again; a base
   * directory without a delimiter has the empty parent.
   */
  lemma ParentOfSpellsBase(base: string, d: char)
    ensures d in base ==> ParentOf(base, d) + [d] + LastSegment(base, d) == base
    ensures d !in base ==> ParentOf(base, d) == ""
  {
    var steps := Split(base, d);
    var n := |steps|;
    var k := IndexOf(base, d);
    if d in base {
      assert base[..|base|] == base;
      assert k < |base|;
      assert n >= 2;
      assert steps == steps[..n - 1] + [steps[n - 1]];
      JoinAppend(steps[..n - 1], [steps[n - 1]], d);
      JoinSplit(base, d);
    } else {
      assert k == |base|;
    }
  }

  /** A clock reading beyond those of all ids in `seen`. */
  ghost function Beyond(seen: set<string>): (b: nat)
    ensures forall x | x in seen :: HexToNat(x) < b
    decreases |seen|
  {
    if seen == {} then 0
    else
      var x :| x in seen;
      var rest := Beyond(seen - {x});
      if HexToNat(x) < rest then rest else HexToNat(x) + 1
  }

  /** The clock readings the repair loop may still pass before reaching `b`. */
  function Remaining(b: nat, clock: nat): nat
  {
    if clock <= b then b - clock + 1 else 0
  }

  class Gallery {
    const disk: Disk
    /** `_base_album`: the album on the base directory. */
    const baseAlbum: Album
    /** `_album_index_location`: the index file in the data directory. */
    const indexLocation: string
    /** `_album_index`: id to path below the base directory. */
    var albumIndex: map<string, string>
    /** `_parent_directory`, null until `parentFolder` computes it. */
    var parentDirectory: Option<string>

    /** The base album sits on the root of a proper disk, and the parent, once computed, is right. */
    ghost predicate Valid()
      reads this, baseAlbum, baseAlbum.Repr
    {
      disk.Ok() && baseAlbum.Valid() && baseAlbum.disk == disk && baseAlbum.segs == [] &&
      (parentDirectory.Some? ==> parentDirectory.value == ParentOf(disk.cfg.baseDir, disk.cfg.delimiter))
    }

    /** The directory an index entry names: its segments read back below the base directory. */
    function EntryDir(entry: string): string
    {
      ArrayToString(StringToArray(entry, disk.cfg.delimiter), Some(disk.cfg.baseDir), disk.cfg.delimiter)
    }

    /** Every path in the index, read back below the base directory, is an existing directory. */
    ghost predicate IndexSound()
      reads this
    {
      forall k | k in albumIndex :: disk.Exists(EntryDir(albumIndex[k]))
    }

    /**
     * `new Gallery` (src/BrokunMusheen/FSGallery/Gallery.php:60-70): the
     * base album on the base directory, the index file's location in the
     * data directory, and the index loaded when the file exists.
     */
    constructor(disk: Disk)
      requires disk.Ok()
      ensures Valid() && fresh(baseAlbum.Repr)
      ensures this.disk == disk && baseAlbum.directory == disk.cfg.baseDir
      ensures indexLocation == ArrayToString([IndexFileName], Some(disk.cfg.dataDir), disk.cfg.delimiter)
      ensures albumIndex == (if disk.indexFile.Some? then disk.indexFile.value else map[])
      ensures parentDirectory == None
    {
      this.disk := disk;
      baseAlbum := new Album(disk, disk.cfg.baseDir);
      indexLocation := ArrayToString([IndexFileName], Some(disk.cfg.dataDir), disk.cfg.delimiter);
      albumIndex := map[];
      parentDirectory := None;
      new;
      var _ := LoadIndex();
    }

    /**
     * `loadIndex` (src/BrokunMusheen/FSGallery/Gallery.php:199-210): the
     * index file replaces the index when it exists; otherwise nothing
     * changes.
     */
    method LoadIndex() returns (r: bool)
      modifies this`albumIndex
      ensures r <==> disk.indexFile.Some?
      ensures r ==> albumIndex == disk.indexFile.value
      ensures !r ==> albumIndex == old(albumIndex)
    {
      if disk.indexFile.Some? {
        albumIndex := disk.indexFile.value;
        return true;
      }
      return false;
    }

    /** `parentFolder` (src/BrokunMusheen/FSGallery/Gallery.php:168-182), computed once. */
    method ParentFolder() returns (p: string)
      requires Valid()
      modifies this`parentDirectory
      ensures p == ParentOf(disk.cfg.baseDir, disk.cfg.delimiter) && parentDirectory == Some(p)
      ensures Valid()
    {
      if parentDirectory.Some? {
        return parentDirectory.value;
      }
      var d := disk.cfg.delimiter;
      var steps := StringToArray(disk.cfg.baseDir, d);
      p := Join(steps[..|steps| - 1], d);
      parentDirectory := Some(p);
    }

    /**
     * `getAlbum` (src/BrokunMusheen/FSGallery/Gallery.php:117-129): a new
     * album when the base directory joined with the segments exists,
     * false (none) otherwise.
     */
    method GetAlbum(segments: seq<string>) returns (r: Option<Album>)
      requires disk.Ok()
      ensures var path := ArrayToString(segments, Some(disk.cfg.baseDir), disk.cfg.delimiter);
        (r.Some? <==> disk.Exists(path)) &&
        (r.Some? ==>
          fresh(r.value) && r.value.Valid() && r.value.Repr == {r.value} &&
          r.value.disk == disk && r.value.directory == path &&
          r.value.segs == Resolve(disk.cfg, path).value)
    {
      var path := ArrayToString(segments, Some(disk.cfg.baseDir), disk.cfg.delimiter);
      if disk.Exists(path) {
        var a := new Album(disk, path);
        return Some(a);
      }
      return None;
    }

    /**
     * The id the album's `getId` gives before any repair: the cached one,
     * or the one loading the sidecar gives.
     */
    ghost function FirstId(a: Album): Option<string>
      reads a, disk
    {
      if a.albumId.Some? then a.albumId else a.MetaStep(disk.sidecars, disk.clock).id
    }

    /**
     * The duplicate check of `buildIndex`
     * (src/BrokunMusheen/FSGallery/Gallery.php:87-96): the album's id, and
     * while it is already taken, the id dropped and a new one made. An id
     * not yet taken is kept; a taken one is replaced by the first fresh id
     * the clock gives.
     */
    method UniqueKey(a: Album, seen: set<string>) returns (key: string)
      requires a.Placed() && a.disk == disk
      modifies a`albumId, a`createdAt, disk`clock, disk`sidecars
      ensures key !in seen && KeyOf(a.albumId) == key
      ensures disk.clock >= old(disk.clock)
      ensures KeyOf(old(FirstId(a))) !in seen ==> key == KeyOf(old(FirstId(a)))
      ensures KeyOf(old(FirstId(a))) in seen ==>
        disk.clock > old(disk.clock) && key == UniqId(disk.clock - 1)
      ensures KeptExcept(old(disk.sidecars), disk.sidecars, MetaPathOf(disk.cfg, a.segs))
    {
      var id := a.GetId();
      ghost var repaired := false;
      ghost var b := Beyond(seen);
      while KeyOf(id) in seen
        invariant a.Placed() && a.disk == disk && a.albumId == id
        invariant disk.clock >= old(disk.clock)
        invariant !repaired ==> id == old(FirstId(a))
        invariant repaired ==>
          KeyOf(old(FirstId(a))) in seen && disk.clock > old(disk.clock) && id == Some(UniqId(disk.clock - 1))
        invariant KeptExcept(old(disk.sidecars), disk.sidecars, MetaPathOf(disk.cfg, a.segs))
        decreases Remaining(b, disk.clock) + (if KeyOf(id) in seen then 1 else 0)
      {
        ghost var pre := disk.sidecars;
        id := RenewId(a);
        KeptExceptTrans(old(disk.sidecars), pre, disk.sidecars, MetaPathOf(disk.cfg, a.segs));
        repaired := true;
      }
      key := KeyOf(id);
    }

    /** One turn of the duplicate check: `unsetId`, then `getId`, which takes the next id from the clock. */
    method RenewId(a: Album) returns (id: Option<string>)
      requires a.Placed() && a.disk == disk
      modifies a`albumId, a`createdAt, disk`clock, disk`sidecars
      ensures a.albumId == id && id == Some(UniqId(old(disk.clock))) && disk.clock == old(disk.clock) + 1
      ensures HexToNat(UniqId(old(disk.clock))) == old(disk.clock)
      ensures KeptExcept(old(disk.sidecars), disk.sidecars, MetaPathOf(disk.cfg, a.segs))
    {
      ghost var c := disk.clock;
      MetaPathAbsent(a);
      a.UnsetId();
      id := a.GetId();
      HexRoundTrip(c);
    }

    /** After `unsetId` the sidecar is gone, so the next `getId` takes a fresh id from the clock. */
    lemma MetaPathAbsent(a: Album)
      requires a.disk == disk
      ensures var mp := MetaPathOf(disk.cfg, a.segs);
        a.MetaStep(disk.sidecars - {mp}, disk.clock).id == Some(UniqId(disk.clock))
    {
    }

    /**
     * `buildIndex` (src/BrokunMusheen/FSGallery/Gallery.php:76-108): a walk
     * over every album, archived ones included; each album but the root
     * gets a key no earlier album took and is indexed under it with its
     * path; the new index replaces the old one and is written to the index
     * file. `visited` are the albums the walk called back on, `indexed`
     * those indexed, in that order, under `keys`.
     */
    method BuildIndex()
      returns (ghost visited: seq<Album>, ghost indexed: seq<Album>, ghost keys: seq<string>, ghost firsts: seq<Option<string>>,
               ghost cached: map<Album, Option<string>>)
      requires Valid()
      modifies this`albumIndex, disk`indexFile, disk`clock, disk`sidecars, baseAlbum.Repr
      ensures Valid() && fresh(baseAlbum.Repr - old(baseAlbum.Repr))
      ensures Positions(visited) == Walk(baseAlbum.Node(), [], true) && NoRepeats(Positions(visited))
      ensures Positions(indexed) == Proper(Positions(visited))
      ensures |keys| == |indexed| && Distinct(keys)
      ensures albumIndex.Keys == set k | k in keys
      ensures forall j | 0 <= j < |keys| :: albumIndex[keys[j]] == Join(indexed[j].segs, disk.cfg.delimiter)
      ensures forall j | 0 <= j < |keys| :: keys[j] == KeyOf(indexed[j].albumId)
      ensures KeptOrFresh(keys, firsts, old(disk.clock), disk.clock)
      ensures forall a | a in indexed :: a in visited
      ensures forall a | a in visited && a in old(baseAlbum.Repr) :: a in cached && cached[a] == old(a.albumId)
      ensures forall a | a in visited && a !in old(baseAlbum.Repr) :: a in cached && cached[a] == None
      ensures AllRecorded(firsts, indexed, cached, old(disk.sidecars), disk.cfg)
      ensures disk.indexFile == Some(albumIndex)
      ensures IndexSound()
    {
      var d := disk.cfg.delimiter;
      var walked;
      walked, cached := IndexWalk();
      visited := walked;
      label Walked:
      var index;
      index, indexed, keys, firsts := IndexAlbums(walked, cached);
      disk.indexFile := Some(index);
      albumIndex := index;
      ValidIgnoresIds@Walked(baseAlbum);
      EntriesExist(disk, index, keys, indexed);
    }

    /**
     * The walk `buildIndex` makes (src/BrokunMusheen/FSGallery/Gallery.php:78-101),
     * and `cached`, the ids the walked albums hold when it ends: the ones
     * they held before, or none for an album the walk made.
     */
    method IndexWalk() returns (walked: seq<Album>, ghost cached: map<Album, Option<string>>)
      requires Valid()
      modifies baseAlbum.Repr`subAlbums, baseAlbum.Repr`Repr
      ensures Valid() && fresh(baseAlbum.Repr - old(baseAlbum.Repr))
      ensures Positions(walked) == Walk(baseAlbum.Node(), [], true) && NoRepeats(Positions(walked))
      ensures forall a | a in walked :: a in baseAlbum.Repr && a.Placed() && a.disk == disk
      ensures forall a | a in walked :: a in cached && cached[a] == a.albumId
      ensures forall x, y | 0 <= x < y < |walked| :: walked[x] != walked[y]
      ensures forall a | a in walked && a in old(baseAlbum.Repr) :: cached[a] == old(a.albumId)
      ensures forall a | a in walked && a !in old(baseAlbum.Repr) :: cached[a] == None
    {
      walked := baseAlbum.AlbumWalk(true);
      WalkDistinct(baseAlbum.Node(), [], true);
      forall x, y | 0 <= x < y < |walked| ensures walked[x] != walked[y] {
        assert Positions(walked)[x] == walked[x].segs && Positions(walked)[y] == walked[y].segs;
      }
      cached := map a | a in walked :: a.albumId;
      forall a | a in walked && a !in old(baseAlbum.Repr)
        ensures cached[a] == None
      {
        assert a in baseAlbum.Repr - old(baseAlbum.Repr);
      }
    }

    /**
     * The callback of `buildIndex` (src/BrokunMusheen/FSGallery/Gallery.php:82-100):
     * the root album is skipped; any other album gets a key no indexed
     * album has and is indexed under it with its path.
     */
    method IndexOne(a: Album, index: map<string, string>, ghost keys: seq<string>, ghost indexed: seq<Album>)
      returns (index': map<string, string>, ghost keys': seq<string>, ghost indexed': seq<Album>)
      requires a.Placed() && a.disk == disk && Entries(index, keys, indexed, disk.cfg.delimiter)
      modifies a`albumId, a`createdAt, disk`clock, disk`sidecars
      ensures Entries(index', keys', indexed', disk.cfg.delimiter)
      ensures disk.clock >= old(disk.clock)
      ensures a.segs == [] ==> index' == index && keys' == keys && indexed' == indexed
      ensures a.segs != [] ==> indexed' == indexed + [a] && keys' == keys + [KeyOf(a.albumId)]
      ensures a.segs != [] && KeyOf(old(FirstId(a))) !in index ==> KeyOf(a.albumId) == KeyOf(old(FirstId(a)))
      ensures a.segs != [] && KeyOf(old(FirstId(a))) in index ==>
        disk.clock > old(disk.clock) && KeyOf(a.albumId) == UniqId(disk.clock - 1)
      ensures KeptExcept(old(disk.sidecars), disk.sidecars, MetaPathOf(disk.cfg, a.segs))
    {
      var d := disk.cfg.delimiter;
      var p := a.GetPath();
      JoinEmpty(a.segs, d);
      index', keys', indexed' := index, keys, indexed;
      if p != "" {
        var key := UniqueKey(a, index.Keys);
        EntryAdded(index, keys, indexed, key, a, d);
        index' := index[key := p];
        indexed' := indexed + [a];
        keys' := keys + [key];
      }
    }

    /**
     * One turn of the walk in `buildIndex`: the callback on the next album,
     * with the duplicate check's rule carried over from the albums before.
     */
    method IndexNext(a: Album, index: map<string, string>,
                     ghost keys: seq<string>, ghost indexed: seq<Album>, ghost firsts: seq<Option<string>>, ghost c0: nat)
      returns (index': map<string, string>, ghost keys': seq<string>, ghost indexed': seq<Album>, ghost firsts': seq<Option<string>>)
      requires a.Placed() && a.disk == disk && a !in indexed
      requires Entries(index, keys, indexed, disk.cfg.delimiter)
      requires KeptOrFresh(keys, firsts, c0, disk.clock) && c0 <= disk.clock
      modifies a`albumId, a`createdAt, disk`clock, disk`sidecars
      ensures Entries(index', keys', indexed', disk.cfg.delimiter)
      ensures KeptOrFresh(keys', firsts', c0, disk.clock) && disk.clock >= old(disk.clock)
      ensures a.segs != [] ==>
        indexed' == indexed + [a] && keys' == keys + [KeyOf(a.albumId)] && firsts' == firsts + [old(FirstId(a))]
      ensures a.segs == [] ==> indexed' == indexed && keys' == keys && firsts' == firsts
      ensures KeptExcept(old(disk.sidecars), disk.sidecars, MetaPathOf(disk.cfg, a.segs))
    {
      ghost var first := FirstId(a);
      ghost var c := disk.clock;
      index', keys', indexed' := IndexOne(a, index, keys, indexed);
      firsts' := firsts;
      if a.segs != [] {
        KeptOrFreshStep(keys, firsts, c0, c, disk.clock, keys'[|keys|], first);
        firsts' := firsts + [first];
      }
    }

    /** The sidecar records at `mps[i..]`, the paths of the albums the walk has not reached yet, are those in `s0`. */
    static predicate SidecarsKept(mps: seq<string>, i: nat, s0: map<string, Record>, s: map<string, Record>)
    {
      forall k | i <= k < |mps| :: KeptAt(s0, s, mps[k])
    }

    /** A turn that changes only the sidecar at `mps[i]` keeps those of the albums after it. */
    static lemma SidecarsKeptStep(mps: seq<string>, i: nat, s0: map<string, Record>,
                                  s: map<string, Record>, s': map<string, Record>)
      requires i < |mps| && Distinct(mps)
      requires SidecarsKept(mps, i, s0, s) && KeptExcept(s, s', mps[i])
      ensures SidecarsKept(mps, i + 1, s0, s')
    {
    }

    /** Each indexed album's first id is the one `cached` and the sidecars `s0` determine. */
    static ghost predicate AllRecorded(firsts: seq<Option<string>>, indexed: seq<Album>, cached: map<Album, Option<string>>,
                                       s0: map<string, Record>, cfg: Config)
    {
      |firsts| == |indexed| &&
      forall j | 0 <= j < |indexed| ::
        indexed[j] in cached && Recorded(firsts[j], cached[indexed[j]], s0, MetaPathOf(cfg, indexed[j].segs))
    }

    /** A turn of the walk that indexes `a` with a first id `cached` and `s0` determine, or indexes nothing. */
    static lemma RecordedStep(firsts: seq<Option<string>>, indexed: seq<Album>,
                              firsts': seq<Option<string>>, indexed': seq<Album>, cached: map<Album, Option<string>>,
                              s0: map<string, Record>, cfg: Config, a: Album, first: Option<string>)
      requires AllRecorded(firsts, indexed, cached, s0, cfg)
      requires a in cached && Recorded(first, cached[a], s0, MetaPathOf(cfg, a.segs))
      requires a.segs != [] ==> indexed' == indexed + [a] && firsts' == firsts + [first]
      requires a.segs == [] ==> indexed' == indexed && firsts' == firsts
      ensures AllRecorded(firsts', indexed', cached, s0, cfg)
    {
      forall j | 0 <= j < |indexed'|
        ensures indexed'[j] in cached && Recorded(firsts'[j], cached[indexed'[j]], s0, MetaPathOf(cfg, indexed'[j].segs))
      {
        if j < |indexed| {
          assert indexed'[j] == indexed[j] && firsts'[j] == firsts[j];
        }
      }
    }

    /** An album whose sidecar exists takes the id that sidecar records. */
    static lemma MetaStepFound(a: Album, sidecars: map<string, Record>, clock: nat)
      requires MetaPathOf(a.disk.cfg, a.segs) in sidecars
      ensures a.MetaStep(sidecars, clock).id == sidecars[MetaPathOf(a.disk.cfg, a.segs)].id
    {
    }

    /** An album of a walk without repeats is not among those indexed before it. */
    static lemma NotYetIndexed(walked: seq<Album>, i: nat, indexed: seq<Album>)
      requires i < |walked| && forall x, y | 0 <= x < y < |walked| :: walked[x] != walked[y]
      requires forall a | a in indexed :: a in walked[..i]
      ensures walked[i] !in indexed
    {
      forall a | a in indexed ensures a != walked[i] {
        var x :| 0 <= x < i && walked[..i][x] == a;
      }
    }

    /** The albums indexed after one more turn of the walk are still walked albums with a path. */
    static lemma InWalkedStep(walked: seq<Album>, i: nat, indexed: seq<Album>, indexed': seq<Album>)
      requires i < |walked| && forall a | a in indexed :: a in walked[..i] && a.segs != []
      requires indexed' == indexed || (indexed' == indexed + [walked[i]] && walked[i].segs != [])
      ensures forall a | a in indexed' :: a in walked[..i + 1] && a.segs != []
    {
      assert walked[..i + 1] == walked[..i] + [walked[i]];
    }

    /**
     * The callback of `buildIndex` applied to each album of the walk in
     * turn. Only ids and creation times change. Each indexed album is keyed
     * by its id; `firsts` are the ids their `getId` gave when the walk
     * reached them, before any repair: an id no earlier album took is kept,
     * a taken one is replaced by a fresh one from the clock.
     */
    method IndexAlbums(walked: seq<Album>, ghost cached: map<Album, Option<string>>)
      returns (index: map<string, string>, ghost indexed: seq<Album>, ghost keys: seq<string>, ghost firsts: seq<Option<string>>)
      requires forall a | a in walked :: a.Placed() && a.disk == disk
      requires forall a | a in walked :: a in cached && cached[a] == a.albumId
      requires forall x, y | 0 <= x < y < |walked| :: walked[x] != walked[y]
      requires NoRepeats(Positions(walked))
      modifies (set a | a in walked)`albumId, (set a | a in walked)`createdAt, disk`clock, disk`sidecars
      ensures forall a | a in walked ::
        a.subAlbums == old(a.subAlbums) && a.files == old(a.files) && a.Repr == old(a.Repr)
      ensures Positions(indexed) == Proper(Positions(walked))
      ensures Entries(index, keys, indexed, disk.cfg.delimiter)
      ensures forall a | a in indexed :: a.Placed() && a.disk == disk && a.segs != []
      ensures forall j | 0 <= j < |keys| :: keys[j] == KeyOf(indexed[j].albumId)
      ensures KeptOrFresh(keys, firsts, old(disk.clock), disk.clock) && disk.clock >= old(disk.clock)
      ensures forall a | a in indexed :: a in walked
      ensures AllRecorded(firsts, indexed, cached, old(disk.sidecars), disk.cfg)
    {
      index := map[];
      indexed := [];
      keys := [];
      firsts := [];
      if walked != [] {
        assert walked[0] in walked;
        MetaPathsDistinct(disk.cfg, walked);
      }
      var i := 0;
      while i < |walked|
        invariant 0 <= i <= |walked|
        invariant Indexed(walked, i, index, keys, indexed, firsts, old(disk.clock))
        invariant Tracked(walked, i, indexed, firsts, cached, old(disk.sidecars))
      {
        index, keys, indexed, firsts, i :=
          IndexTurn(walked, i, walked[i], index, keys, indexed, firsts, old(disk.clock), cached, old(disk.sidecars));
      }
      assert walked[..i] == walked;
    }

    /**
     * What the walk of `buildIndex` has done after its first `i` albums:
     * the proper ones among them indexed in walk order under keys their
     * current ids give, each key the album's first id or a fresh one.
     */
    ghost predicate Indexed(walked: seq<Album>, i: nat, index: map<string, string>, keys: seq<string>,
                            indexed: seq<Album>, firsts: seq<Option<string>>, c0: nat)
      reads disk, walked
    {
      i <= |walked| && Reached(indexed, walked, i) &&
      Entries(index, keys, indexed, disk.cfg.delimiter) &&
      (forall a | a in indexed :: a in walked[..i] && a.segs != []) &&
      (forall j | 0 <= j < |keys| :: keys[j] == KeyOf(indexed[j].albumId)) &&
      KeptOrFresh(keys, firsts, c0, disk.clock) && c0 <= disk.clock
    }

    /**
     * What the walk of `buildIndex` has left as it was after its first `i`
     * albums: the albums not reached yet still have their ids in `cached`
     * and their sidecars as in `s0`; and each first id is the one `cached`
     * and `s0` determine.
     */
    ghost predicate Tracked(walked: seq<Album>, i: nat, indexed: seq<Album>, firsts: seq<Option<string>>,
                            cached: map<Album, Option<string>>, s0: map<string, Record>)
      reads disk, walked
    {
      i <= |walked| &&
      (forall k | i <= k < |walked| :: walked[k] in cached && walked[k].albumId == cached[walked[k]]) &&
      Distinct(MetaPaths(disk.cfg, walked)) && SidecarsKept(MetaPaths(disk.cfg, walked), i, s0, disk.sidecars) &&
      AllRecorded(firsts, indexed, cached, s0, disk.cfg)
    }

    /** One turn of the walk in `buildIndex`: the next album indexed, or skipped when it is the root. */
    method IndexStep(walked: seq<Album>, i: nat, a: Album, index: map<string, string>,
                     ghost keys: seq<string>, ghost indexed: seq<Album>, ghost firsts: seq<Option<string>>, ghost c0: nat)
      returns (index': map<string, string>, ghost keys': seq<string>, ghost indexed': seq<Album>, ghost firsts': seq<Option<string>>)
      requires i < |walked| && a == walked[i] && a.Placed() && a.disk == disk
      requires forall x, y | 0 <= x < y < |walked| :: walked[x] != walked[y]
      requires Indexed(walked, i, index, keys, indexed, firsts, c0)
      modifies a`albumId, a`createdAt, disk`clock, disk`sidecars
      ensures Indexed(walked, i + 1, index', keys', indexed', firsts', c0)
      ensures a.segs != [] ==> indexed' == indexed + [a] && firsts' == firsts + [old(FirstId(a))]
      ensures a.segs == [] ==> indexed' == indexed && firsts' == firsts
      ensures KeptExcept(old(disk.sidecars), disk.sidecars, MetaPathOf(disk.cfg, a.segs))
    {
      NotYetIndexed(walked, i, indexed);
      ProperStep(walked, i, indexed);
      index', keys', indexed', firsts' := IndexNext(a, index, keys, indexed, firsts, c0);
      forall j | 0 <= j < |keys| ensures keys[j] == KeyOf(indexed[j].albumId) {
        assert indexed[j] != a && keys[j] == KeyOf(old(indexed[j].albumId));
      }
      InWalkedStep(walked, i, indexed, indexed');
    }

    /** A turn of the walk, with what it leaves as it was. */
    method IndexTurn(walked: seq<Album>, i: nat, a: Album, index: map<string, string>,
                     ghost keys: seq<string>, ghost indexed: seq<Album>, ghost firsts: seq<Option<string>>, ghost c0: nat,
                     ghost cached: map<Album, Option<string>>, ghost s0: map<string, Record>)
      returns (index': map<string, string>, ghost keys': seq<string>, ghost indexed': seq<Album>, ghost firsts': seq<Option<string>>,
               i': nat)
      requires i < |walked| && a == walked[i] && a.Placed() && a.disk == disk
      requires forall x, y | 0 <= x < y < |walked| :: walked[x] != walked[y]
      requires Indexed(walked, i, index, keys, indexed, firsts, c0)
      requires Tracked(walked, i, indexed, firsts, cached, s0)
      modifies a`albumId, a`createdAt, disk`clock, disk`sidecars
      ensures i' == i + 1
      ensures Indexed(walked, i', index', keys', indexed', firsts', c0)
      ensures Tracked(walked, i', indexed', firsts', cached, s0)
    {
      ghost var mps := MetaPaths(disk.cfg, walked);
      ghost var pre := disk.sidecars;
      ghost var first := FirstId(a);
      if a.albumId.None? && mps[i] in s0 {
        MetaStepFound(a, disk.sidecars, disk.clock);
      }
      assert Recorded(first, cached[a], s0, mps[i]);
      index', keys', indexed', firsts' := IndexStep(walked, i, a, index, keys, indexed, firsts, c0);
      RecordedStep(firsts, indexed, firsts', indexed', cached, s0, disk.cfg, a, first);
      SidecarsKeptStep(mps, i, s0, pre, disk.sidecars);
      i' := i + 1;
    }

    /**
     * `getAlbumById` (src/BrokunMusheen/FSGallery/Gallery.php:137-160):
     * false (none) when the index is empty or lacks the id; the album at
     * the indexed path when it exists; otherwise the index is rebuilt and
     * the search repeated. A rebuilt index holds only existing paths, so
     * there is at most one rebuild.
     */
    method GetAlbumById(id: string) returns (r: Option<Album>)
      requires Valid()
      modifies this`albumIndex, disk`indexFile, disk`clock, disk`sidecars, baseAlbum.Repr
      ensures Valid() && fresh(baseAlbum.Repr - old(baseAlbum.Repr))
      ensures old(albumIndex) == map[] || id !in old(albumIndex) ==>
        r.None? && albumIndex == old(albumIndex) && unchanged(disk)
      ensures r.Some? ==>
        id in albumIndex && fresh(r.value) && r.value.Valid() && r.value.disk == disk &&
        r.value.directory == EntryDir(albumIndex[id])
      ensures r.None? && id in old(albumIndex) ==> IndexSound() && id !in albumIndex
      ensures id in old(albumIndex) && disk.Exists(EntryDir(old(albumIndex)[id])) ==>
        r.Some? && albumIndex == old(albumIndex) && unchanged(disk)
      decreases if IndexSound() then 0 else 1, 1
    {
      if albumIndex == map[] || id !in albumIndex {
        return None;
      }
      var d := disk.cfg.delimiter;
      var found := GetAlbum(StringToArray(albumIndex[id], d));
      if found.Some? {
        return found;
      }
      assert !disk.Exists(EntryDir(albumIndex[id]));
      r := Reindex(id);
    }

    /**
     * The fallback of `getAlbumById` (src/BrokunMusheen/FSGallery/Gallery.php:153-159):
     * the index is rebuilt and the search repeated on the new index.
     */
    method Reindex(id: string) returns (r: Option<Album>)
      requires Valid() && !IndexSound()
      modifies this`albumIndex, disk`indexFile, disk`clock, disk`sidecars, baseAlbum.Repr
      ensures Valid() && fresh(baseAlbum.Repr - old(baseAlbum.Repr)) && IndexSound()
      ensures r.Some? ==>
        id in albumIndex && fresh(r.value) && r.value.Valid() && r.value.disk == disk &&
        r.value.directory == EntryDir(albumIndex[id])
      ensures r.None? <==> id !in albumIndex
      decreases 1, 0
    {
      Rebuild();
      r := GetAlbumById(id);
    }

    /** `buildIndex` for its effect alone: a sound index over a still valid gallery. */
    method Rebuild()
      requires Valid()
      modifies this`albumIndex, disk`indexFile, disk`clock, disk`sidecars, baseAlbum.Repr
      ensures Valid() && fresh(baseAlbum.Repr - old(baseAlbum.Repr)) && IndexSound()
    {
      var _, _, _, _, _ := BuildIndex();
    }
  }
}

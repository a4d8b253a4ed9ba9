/**
 * The environment the gallery runs against, in place of the filesystem
 * libraries it calls: a static directory tree under the gallery's base
 * directory, directory modification times, the store of album sidecar
 * records, the persisted album index, and the clock behind `uniqid`.
 */
module Storage {
  import opened Wrappers
  import opened FilePaths

  /** The configuration values the library reads (`f-sgallery::config.*`). */
  datatype Config = Config(
    delimiter: char,        // file_tree_delimiter
    baseDir: string,        // gallery_file_path
    rootUrl: string,        // gallery_root_url
    headerImageName: string,
    dataDir: string)        // gallery_data_dir

  /** A directory: its name, its sub-directories and its file names, in listing order. */
  datatype Dir = Dir(name: string, subdirs: seq<Dir>, files: seq<string>)

  /** What a sidecar file holds once decoded: the album id and creation time, each possibly absent. */
  datatype Record = Record(id: Option<string>, createdAt: Option<int>)

  /** A name a directory or file can have: non-empty and free of path separators and line breaks. */
  predicate NameOk(name: string)
  {
    name != "" && '/' !in name && '\\' !in name && '\n' !in name
  }

  /** Names are proper and no two sub-directories of one directory share a name. */
  predicate TreeOk(dir: Dir)
    decreases dir
  {
    (forall i | 0 <= i < |dir.subdirs| :: NameOk(dir.subdirs[i].name) && TreeOk(dir.subdirs[i])) &&
    (forall i, j {:trigger NamedApart(dir.subdirs[i], dir.subdirs[j])} | 0 <= i < j < |dir.subdirs| ::
       NamedApart(dir.subdirs[i], dir.subdirs[j])) &&
    (forall i | 0 <= i < |dir.files| :: NameOk(dir.files[i]))
  }

  /** Two directories with different names. */
  predicate NamedApart(a: Dir, b: Dir)
  {
    a.name != b.name
  }

  predicate ConfigOk(cfg: Config)
  {
    IsDelimiter(cfg.delimiter)
  }

  /** The first sub-directory called `name`. */
  function Child(subdirs: seq<Dir>, name: string): (r: Option<Dir>)
    ensures r.Some? ==> r.value in subdirs && r.value.name == name
    ensures r.None? ==> forall i | 0 <= i < |subdirs| :: subdirs[i].name != name
  {
    if subdirs == [] then None
    else if subdirs[0].name == name then Some(subdirs[0])
    else Child(subdirs[1..], name)
  }

  /** The directory reached from `dir` through the named sub-directories. */
  function Lookup(dir: Dir, segs: seq<string>): Option<Dir>
    decreases |segs|
  {
    if segs == [] then Some(dir)
    else match Child(dir.subdirs, segs[0])
      case None => None
      case Some(c) => Lookup(c, segs[1..])
  }

  /** The segments below the base directory that a path string names, if it lies under it. */
  function Resolve(cfg: Config, path: string): Option<seq<string>>
  {
    var base := cfg.baseDir;
    if path == base then Some([])
    else if |base| < |path| && path[..|base| + 1] == base + [cfg.delimiter] then
      Some(Split(path[|base| + 1..], cfg.delimiter))
    else None
  }

  /** The path string of the directory `segs` below the base directory. */
  function PathOf(cfg: Config, segs: seq<string>): string
  {
    ArrayToString(segs, Some(cfg.baseDir), cfg.delimiter)
  }

  /** Segments that can be joined into a path and read back. */
  predicate SegmentsOk(segs: seq<string>)
  {
    forall k | 0 <= k < |segs| :: NameOk(segs[k])
  }

  /** Resolving the path of a position below the base directory gives the position back. */
  lemma ResolvePathOf(cfg: Config, segs: seq<string>)
    requires ConfigOk(cfg) && SegmentsOk(segs)
    ensures Resolve(cfg, PathOf(cfg, segs)) == Some(segs)
  {
    var d := cfg.delimiter;
    var base := cfg.baseDir;
    ArrayToStringUnderBase(segs, base, d);
    if segs != [] {
      var p := PathOf(cfg, segs);
      assert p == base + [d] + Join(segs, d);
      assert p[..|base| + 1] == base + [d];
      assert p[|base| + 1..] == Join(segs, d);
      SplitJoin(segs, d);
    }
  }

  /** A path that resolves is the path of the position it resolves to. */
  lemma PathOfResolve(cfg: Config, path: string)
    requires Resolve(cfg, path).Some?
    ensures PathOf(cfg, Resolve(cfg, path).value) == path
  {
    var d := cfg.delimiter;
    var base := cfg.baseDir;
    var segs := Resolve(cfg, path).value;
    ArrayToStringUnderBase(segs, base, d);
    if path != base {
      var rest := path[|base| + 1..];
      JoinSplit(rest, d);
      assert path == path[..|base| + 1] + rest;
    }
  }

  /** The path of a sub-directory is its name under the parent's path. */
  lemma PathOfChild(cfg: Config, segs: seq<string>, name: string)
    ensures PathOf(cfg, segs + [name]) == JoinPath(PathOf(cfg, segs), name, cfg.delimiter)
  {
    JoinAppend([cfg.baseDir] + segs, [name], cfg.delimiter);
    assert [cfg.baseDir] + (segs + [name]) == ([cfg.baseDir] + segs) + [name];
  }

  /** Only the root position has the base directory as its path. */
  lemma PathOfIsBase(cfg: Config, segs: seq<string>)
    ensures PathOf(cfg, segs) == cfg.baseDir <==> segs == []
  {
    ArrayToStringUnderBase(segs, cfg.baseDir, cfg.delimiter);
  }

  /**
   * Dropping the last segment of a directory's path (`Album::getParent`)
   * gives the path of the parent position.
   */
  lemma ParentPath(cfg: Config, segs: seq<string>)
    requires ConfigOk(cfg) && SegmentsOk(segs) && segs != []
    ensures var parts := Split(PathOf(cfg, segs), cfg.delimiter);
      Join(parts[..|parts| - 1], cfg.delimiter) == PathOf(cfg, segs[..|segs| - 1])
  {
    var d := cfg.delimiter;
    var base := cfg.baseDir;
    var prefix := segs[..|segs| - 1];
    SplitUnderBase(base, segs, d);
    var parts := Split(PathOf(cfg, segs), d);
    assert parts[..|parts| - 1] == Split(base, d) + prefix;
    JoinSplit(base, d);
    ArrayToStringUnderBase(prefix, base, d);
    if prefix != [] {
      JoinAppend(Split(base, d), prefix, d);
    } else {
      assert Split(base, d) + prefix == Split(base, d);
    }
  }

  /** The last segment of a directory's path is its own name, or the base's last segment for the root. */
  lemma LastSegmentOfPath(cfg: Config, segs: seq<string>)
    requires ConfigOk(cfg) && SegmentsOk(segs)
    ensures LastSegment(PathOf(cfg, segs), cfg.delimiter)
         == if segs == [] then LastSegment(cfg.baseDir, cfg.delimiter) else segs[|segs| - 1]
  {
    SplitUnderBase(cfg.baseDir, segs, cfg.delimiter);
  }

  /** Every position `Lookup` finds is made of proper names. */
  lemma {:induction false} LookupSegmentsOk(dir: Dir, segs: seq<string>)
    requires TreeOk(dir) && Lookup(dir, segs).Some?
    ensures SegmentsOk(segs) && TreeOk(Lookup(dir, segs).value)
    decreases |segs|
  {
    if segs != [] {
      var c := Child(dir.subdirs, segs[0]).value;
      LookupSegmentsOk(c, segs[1..]);
      assert segs == [segs[0]] + segs[1..];
    }
  }

  /** A prefix of an existing position exists too. */
  lemma {:induction false} LookupPrefix(dir: Dir, segs: seq<string>, n: nat)
    requires n <= |segs| && Lookup(dir, segs).Some?
    ensures Lookup(dir, segs[..n]).Some?
    decreases |segs|
  {
    if n > 0 {
      var c := Child(dir.subdirs, segs[0]).value;
      LookupPrefix(c, segs[1..], n - 1);
      assert segs[..n][1..] == segs[1..][..n - 1];
    }
  }

  /** The `i`-th sub-directory of an existing directory is found by its name. */
  lemma {:induction false} LookupChild(dir: Dir, segs: seq<string>, i: nat)
    requires TreeOk(dir) && Lookup(dir, segs).Some?
    requires i < |Lookup(dir, segs).value.subdirs|
    ensures Lookup(dir, segs + [Lookup(dir, segs).value.subdirs[i].name])
         == Some(Lookup(dir, segs).value.subdirs[i])
    decreases |segs|
  {
    var node := Lookup(dir, segs).value;
    if segs == [] {
      assert Lookup(dir, [node.subdirs[i].name]) == Child(dir.subdirs, node.subdirs[i].name);
      ChildUnique(dir.subdirs, i);
    } else {
      var c := Child(dir.subdirs, segs[0]).value;
      assert c in dir.subdirs;
      assert (segs + [node.subdirs[i].name])[1..] == segs[1..] + [node.subdirs[i].name];
      LookupChild(c, segs[1..], i);
    }
  }

  /** Among siblings with distinct names, a name finds its own directory. */
  lemma {:induction false} ChildUnique(subdirs: seq<Dir>, i: nat)
    requires i < |subdirs|
    requires forall x, y {:trigger NamedApart(subdirs[x], subdirs[y])} | 0 <= x < y < |subdirs| ::
      NamedApart(subdirs[x], subdirs[y])
    ensures Child(subdirs, subdirs[i].name) == Some(subdirs[i])
  {
    if i > 0 {
      var rest := subdirs[1..];
      forall x, y | 0 <= x < y < |rest| ensures NamedApart(rest[x], rest[y]) {
        assert NamedApart(subdirs[x + 1], subdirs[y + 1]);
      }
      assert NamedApart(subdirs[0], subdirs[i]);
      ChildUnique(rest, i - 1);
    }
  }

  // ---------------------------------------------------------------------
  // The clock behind `uniqid`

  function HexDigit(n: nat): char
    requires n < 16
  {
    "0123456789abcdef"[n]
  }

  function HexValue(c: char): nat
  {
    if '0' <= c <= '9' then c as nat - '0' as nat
    else if 'a' <= c <= 'f' then c as nat - 'a' as nat + 10
    else 0
  }

  /** The lower-case hexadecimal spelling of `n`. */
  function Hex(n: nat): (s: string)
    ensures |s| >= 1
  {
    if n < 16 then [HexDigit(n)] else Hex(n / 16) + [HexDigit(n % 16)]
  }

  function HexToNat(s: string): nat
  {
    if s == [] then 0 else HexToNat(s[..|s| - 1]) * 16 + HexValue(s[|s| - 1])
  }

  /** Reading a spelled number gives the number back. */
  lemma {:induction false} HexRoundTrip(n: nat)
    ensures HexToNat(Hex(n)) == n
  {
    if n >= 16 {
      var s := Hex(n);
      var q, r := n / 16, n % 16;
      assert s == Hex(q) + [HexDigit(r)];
      assert s[..|s| - 1] == Hex(q) && s[|s| - 1] == HexDigit(r);
      HexRoundTrip(q);
      DigitValue(r);
      assert HexToNat(s) == q * 16 + r;
    }
  }

  /** Reading a digit gives its value back. */
  lemma DigitValue(k: nat)
    requires k < 16
    ensures HexValue(HexDigit(k)) == k
  {
  }

  /**
   * `uniqid()`: the hexadecimal spelling of the clock reading. The source's
   * ids come from the current time, which never repeats.
   */
  function UniqId(tick: nat): string
  {
    Hex(tick)
  }

  /** Different clock readings give different ids. */
  lemma UniqIdInjective(m: nat, n: nat)
    requires UniqId(m) == UniqId(n)
    ensures m == n
  {
    HexRoundTrip(m);
    HexRoundTrip(n);
  }

  /**
   * The filesystem state the gallery touches: the directory tree is fixed,
   * while sidecars, the index file and the clock change.
   */
  class Disk {
    const cfg: Config
    /** The tree rooted at the gallery's base directory. */
    const tree: Dir
    /** `filemtime` of a directory path. */
    const mtime: string -> int
    /** The decoded sidecar files, by path. */
    var sidecars: map<string, Record>
    /** The decoded index file, when it exists. */
    var indexFile: Option<map<string, string>>
    /** The next reading of the clock `uniqid` uses. */
    var clock: nat

    predicate Ok()
    {
      ConfigOk(cfg) && TreeOk(tree)
    }

    constructor(cfg: Config, tree: Dir, mtime: string -> int,
                sidecars: map<string, Record>, indexFile: Option<map<string, string>>, clock: nat)
      ensures this.cfg == cfg && this.tree == tree && this.mtime == mtime
      ensures this.sidecars == sidecars && this.indexFile == indexFile && this.clock == clock
    {
      this.cfg := cfg;
      this.tree := tree;
      this.mtime := mtime;
      this.sidecars := sidecars;
      this.indexFile := indexFile;
      this.clock := clock;
    }

    /** The directory a path names, if it exists. */
    function DirAt(path: string): Option<Dir>
    {
      match Resolve(cfg, path)
      case None => None
      case Some(segs) => Lookup(tree, segs)
    }

    /** `Filesystem::exists` for a directory path. */
    predicate Exists(path: string)
    {
      DirAt(path).Some?
    }

    /** `uniqid()`: an id from the clock, which then moves on. */
    method NewId() returns (id: string)
      modifies this`clock
      ensures id == UniqId(old(clock)) && clock == old(clock) + 1
    {
      id := UniqId(clock);
      clock := clock + 1;
    }
  }
}

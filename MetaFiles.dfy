/**
 * An album's sidecar file, `.meta.info`, which keeps the album's stable id
 * and creation time (src/BrokunMusheen/FSGallery/MetaFile.php).
 *
 * The sidecar is an entry of the disk's sidecar store. The source keeps a
 * reference to its album only to ask for the album's real path; here the
 * object keeps that path itself.
 */
module MetaFiles {
  import opened Wrappers
  import opened FilePaths
  import opened FileNames
  import opened Storage

  /** The title every sidecar reports (`MetaFile::getTitle`). */
  const MetaTitle: string := "Album Meta Info"

  class MetaFile {
    const disk: Disk
    /** Where the sidecar lives. */
    const path: string
    /** The album directory whose modification time becomes the creation time. */
    const albumRealPath: string
    var albumId: Option<string>
    var createdAt: Option<int>

    constructor(disk: Disk, path: string, albumRealPath: string)
      ensures this.disk == disk && this.path == path && this.albumRealPath == albumRealPath
      ensures albumId == None && createdAt == None
    {
      this.disk := disk;
      this.path := path;
      this.albumRealPath := albumRealPath;
      albumId := None;
      createdAt := None;
    }

    /** `MetaFile::getName`: always the sidecar name, whatever the path. */
    function GetName(): (n: string)
      ensures n == ".meta.info" && TypeOfName(n) == Some(Meta)
      ensures '/' !in n && '\\' !in n
    {
      MetaFileName
    }

    /** `MetaFile::getTitle`: always the same title, whatever the path. */
    function GetTitle(): (t: string)
      ensures t == "Album Meta Info"
    {
      MetaTitle
    }

    /** The object holds exactly what its sidecar records, as after a load that found it or a save. */
    ghost predicate Synced()
      reads this, disk
    {
      path in disk.sidecars && disk.sidecars[path] == Record(albumId, createdAt)
    }

    /**
     * `MetaFile::getId` (src/BrokunMusheen/FSGallery/MetaFile.php:63-66):
     * the album id the object holds, read without touching the sidecar;
     * once the object is in step with its sidecar, the id the sidecar records.
     */
    function GetId(): (id: Option<string>)
      reads this, disk
      ensures id == albumId
      ensures Synced() ==> id == disk.sidecars[path].id
    {
      albumId
    }

    /**
     * `MetaFile::generate` (src/BrokunMusheen/FSGallery/MetaFile.php:89-94,
     * 141-144): a fresh id from the clock, and the album directory's
     * modification time as the creation time, replacing whatever was loaded.
     */
    method Generate()
      modifies this`albumId, this`createdAt, disk`clock
      ensures albumId == Some(UniqId(old(disk.clock))) && disk.clock == old(disk.clock) + 1
      ensures createdAt == Some(disk.mtime(albumRealPath))
    {
      var id := disk.NewId();
      albumId := Some(id);
      createdAt := Some(disk.mtime(albumRealPath));
    }

    /**
     * `MetaFile::loadFile` (src/BrokunMusheen/FSGallery/MetaFile.php:101-114):
     * false, changing nothing, when the sidecar is missing; otherwise both
     * fields are copied from it, an absent one as null.
     */
    method LoadFile() returns (found: bool)
      modifies this`albumId, this`createdAt
      ensures found <==> path in disk.sidecars
      ensures found ==> albumId == disk.sidecars[path].id && createdAt == disk.sidecars[path].createdAt
      ensures found ==> Synced()
      ensures !found ==> albumId == old(albumId) && createdAt == old(createdAt)
    {
      if path !in disk.sidecars {
        return false;
      }
      var rec := disk.sidecars[path];
      albumId := rec.id;
      createdAt := rec.createdAt;
      return true;
    }

    /**
     * `MetaFile::save` (src/BrokunMusheen/FSGallery/MetaFile.php:121-134):
     * generates only when no id is set, then writes exactly the object's
     * fields to the sidecar, so the stored id is never null.
     */
    method Save()
      modifies this`albumId, this`createdAt, disk`clock, disk`sidecars
      ensures old(albumId).Some? ==>
        albumId == old(albumId) && createdAt == old(createdAt) && disk.clock == old(disk.clock)
      ensures old(albumId).None? ==>
        albumId == Some(UniqId(old(disk.clock))) && disk.clock == old(disk.clock) + 1 &&
        createdAt == Some(disk.mtime(albumRealPath))
      ensures disk.sidecars == old(disk.sidecars)[path := Record(albumId, createdAt)]
      ensures albumId.Some? && Synced()
    {
      if albumId.None? {
        Generate();
      }
      disk.sidecars := disk.sidecars[path := Record(albumId, createdAt)];
    }

    /**
     * `MetaFile::getCreatedAt` (src/BrokunMusheen/FSGallery/MetaFile.php:73-82):
     * a set value is returned without writing; an unset one becomes the
     * directory's modification time and the sidecar is saved.
     */
    method GetCreatedAt() returns (c: Option<int>)
      modifies this`albumId, this`createdAt, disk`clock, disk`sidecars
      ensures old(createdAt).Some? ==>
        c == old(createdAt) && albumId == old(albumId) && createdAt == old(createdAt) &&
        disk.sidecars == old(disk.sidecars) && disk.clock == old(disk.clock)
      ensures old(createdAt).None? ==>
        c == Some(disk.mtime(albumRealPath)) && createdAt == c &&
        albumId == (if old(albumId).Some? then old(albumId) else Some(UniqId(old(disk.clock)))) &&
        disk.clock == (if old(albumId).Some? then old(disk.clock) else old(disk.clock) + 1) &&
        disk.sidecars == old(disk.sidecars)[path := Record(albumId, c)]
    {
      if createdAt.None? {
        createdAt := Some(disk.mtime(albumRealPath));
        Save();
      }
      c := createdAt;
    }
  }

  /** What `Album::_loadMetaInfo` ends with: the values the album caches, the stored record and the clock. */
  datatype MetaOutcome = MetaOutcome(id: Option<string>, createdAt: Option<int>, stored: Record, clock: nat)

  /**
   * The state machine behind `Album::getId` (src/BrokunMusheen/FSGallery/Album.php:293-318):
   * load the sidecar when there is one, otherwise save a new one; read the id;
   * then ask for the creation time, which fills in a missing one and saves.
   * The id is read before that save, so a sidecar holding neither field
   * gives the album a null id while a fresh id is written.
   */
  function MetaInfoStep(found: Option<Record>, clock: nat, mtime: int): MetaOutcome
  {
    match found
    case None =>
      var rec := Record(Some(UniqId(clock)), Some(mtime));
      MetaOutcome(rec.id, rec.createdAt, rec, clock + 1)
    case Some(r) =>
      if r.createdAt.Some? then MetaOutcome(r.id, r.createdAt, r, clock)
      else if r.id.Some? then MetaOutcome(r.id, Some(mtime), Record(r.id, Some(mtime)), clock)
      else MetaOutcome(None, Some(mtime), Record(Some(UniqId(clock)), Some(mtime)), clock + 1)
  }

  /**
   * After the step the stored record always has a creation time, which is
   * the one the album caches; the album's id is the stored one except when
   * the sidecar had neither field; and only a missing sidecar, or one with
   * neither field, uses the clock, leaving an id no earlier reading gave.
   */
  lemma MetaInfoStepStores(found: Option<Record>, clock: nat, mtime: int)
    ensures var o := MetaInfoStep(found, clock, mtime);
      o.stored.createdAt.Some? && o.createdAt == o.stored.createdAt &&
      (o.id == o.stored.id <==> !(found.Some? && found.value == Record(None, None))) &&
      (o.clock == clock + 1 <==> (found.None? || found.value == Record(None, None))) &&
      (o.clock != clock ==> o.stored.id == Some(UniqId(clock))) &&
      (o.clock == clock ==> found.Some? && o.stored.id == found.value.id)
  {
  }

  /**
   * The name `getName` reports is the last segment of the path the album
   * stores its sidecar under, as `File::getName` would compute it, and
   * `File::type` classifies that path as the sidecar.
   */
  lemma MetaNameMatchesPath(albumRealPath: string, d: char)
    requires IsDelimiter(d)
    ensures LastSegment(JoinPath(albumRealPath, MetaFileName, d), d) == MetaFileName
    ensures Type(JoinPath(albumRealPath, MetaFileName, d), d) == Some(Meta)
  {
    var p := JoinPath(albumRealPath, MetaFileName, d);
    assert p[|albumRealPath| + 1..] == MetaFileName;
    assert d !in MetaFileName;
    LastSegmentAfter(p, d, |albumRealPath|);
  }
}

/**
 The filesystem durability contract. The state of one path is the set of images
 a crash or a reopen may leave there: an unfinished write or an unsynced rename
 adds images, a completed sync removes them, and a reopen fixes one of them.
 */
module Storage {
  import opened ByteStrings

  datatype FileImage = Absent | Present(data: Bytes)

  type Disk = set<FileImage>

  function Patched(f: FileImage, at: nat, rec: Bytes): FileImage {
    if f.Present? && at + |rec| <= |f.data| then Present(Splice(f.data, at, rec)) else f
  }

  /** After `write_all`, finished or not: the old bytes, the new ones, or a torn image. */
  function AfterWrite(disk: Disk, at: nat, rec: Bytes, torn: Bytes): Disk {
    disk + AfterSync(disk, at, rec) + AfterSync(disk, at, torn)
  }

  /** After `sync_data` of a record written at `at`: only the new bytes there. */
  function AfterSync(disk: Disk, at: nat, rec: Bytes): Disk {
    set f | f in disk :: Patched(f, at, rec)
  }

  /** After a rename over the path whose directory is not yet synced. */
  function AfterRename(disk: Disk, data: Bytes): Disk {
    disk + {Present(data)}
  }

  /** How replacing a file meets the filesystem: write and sync aside, rename, sync the directory. */
  datatype ReplaceFate = ReplaceFate(tmpOk: bool, renameHappened: bool, renameOk: bool, dirSyncOk: bool) {
    predicate Succeeds() { tmpOk && renameOk && dirSyncOk }
    predicate Possible() { renameOk ==> renameHappened }
  }
}

/**
 * The drop zone: every accepted file becomes a batch record whose id is
 * `file-` and a fresh UUID, whose current new name is its own name and whose
 * preview is an object URL. The UUIDs and the URLs come from the browser and
 * are parameters here.
 */
module Intake {
  import opened Seqs
  import opened RuleModel

  const IdPrefix := "file-"

  /** The id of a dropped file. */
  function FileId(uuid: string): (id: string)
    ensures |id| == |IdPrefix| + |uuid| && id[..|IdPrefix|] == IdPrefix && id[|IdPrefix|..] == uuid
  {
    IdPrefix + uuid
  }

  /** Different UUIDs give different ids. */
  lemma FileIdInjective(u: string, v: string)
    requires FileId(u) == FileId(v)
    ensures u == v
  {
  }

  /** The record one accepted file becomes: not yet renamed, and pointing back to the file. */
  function WrapFile(file: Blob, uuid: string, preview: string): (r: FileRecord)
    ensures r.name == file.name && r.newName == r.name && r.originalFile == file
    ensures r.id == FileId(uuid) && r.preview == preview
  {
    FileRecord(FileId(uuid), file.name, preview, file.name, file)
  }

  /**
   * `onDrop`'s mapping: one record per accepted file, in drop order. Each
   * record keeps the file's name, starts with that name as its new name and
   * points back to the file it came from.
   */
  function WrapDropped(accepted: seq<Blob>, uuids: seq<string>, previews: seq<string>): (r: seq<FileRecord>)
    requires |uuids| == |accepted| && |previews| == |accepted|
    ensures |r| == |accepted|
    ensures forall i :: 0 <= i < |r| ==>
      && r[i].name == accepted[i].name
      && r[i].newName == r[i].name
      && r[i].originalFile == accepted[i]
      && r[i].id == FileId(uuids[i])
      && r[i].preview == previews[i]
  {
    seq(|accepted|, i requires 0 <= i < |accepted| => WrapFile(accepted[i], uuids[i], previews[i]))
  }

  predicate DistinctFileIds(files: seq<FileRecord>) {
    forall i, j :: 0 <= i < j < |files| ==> files[i].id != files[j].id
  }

  /** Records made from distinct UUIDs have distinct ids. */
  lemma {:induction false} DistinctUuidsGiveDistinctIds(accepted: seq<Blob>, uuids: seq<string>, previews: seq<string>)
    requires |uuids| == |accepted| && |previews| == |accepted|
    requires forall i, j :: 0 <= i < j < |uuids| ==> uuids[i] != uuids[j]
    ensures DistinctFileIds(WrapDropped(accepted, uuids, previews))
  {
    var r := WrapDropped(accepted, uuids, previews);
    forall i, j | 0 <= i < j < |r| ensures r[i].id != r[j].id {
      if r[i].id == r[j].id {
        FileIdInjective(uuids[i], uuids[j]);
      }
    }
  }

  /** A freshly dropped file's new name is its own name, so it keeps its extension. */
  lemma DroppedFileIsUnrenamed(accepted: seq<Blob>, uuids: seq<string>, previews: seq<string>, i: nat)
    requires |uuids| == |accepted| && |previews| == |accepted| && i < |accepted|
    ensures WrapDropped(accepted, uuids, previews)[i].newName == accepted[i].name
  {
  }

  predicate HasOtherFileId(id: string, file: FileRecord) {
    file.id != id
  }

  /** `handleFileDelete`: every record with the id is dropped, the others keep their order. */
  function RemoveFile(files: seq<FileRecord>, id: string): (r: seq<FileRecord>)
    ensures |r| <= |files|
    ensures forall i :: 0 <= i < |r| ==> r[i].id != id
  {
    Filter(files, file => HasOtherFileId(id, file))
  }

  /** Removing a record keeps every record with another id exactly as often as it occurred. */
  lemma RemoveFileContents(files: seq<FileRecord>, id: string, x: FileRecord)
    ensures multiset(RemoveFile(files, id))[x] == if x.id == id then 0 else multiset(files)[x]
  {
    FilterCounts(files, file => HasOtherFileId(id, file), x);
  }

  /** With distinct ids, deleting a record's id removes exactly that record and nothing else. */
  lemma RemoveUniqueFile(files: seq<FileRecord>, k: nat)
    requires DistinctFileIds(files) && k < |files|
    ensures RemoveFile(files, files[k].id) == files[..k] + files[k + 1..]
  {
    var id := files[k].id;
    forall i | 0 <= i < |files| && i != k ensures HasOtherFileId(id, files[i]) {
      if i < k {
        assert files[i].id != files[k].id;
      } else {
        assert files[k].id != files[i].id;
      }
    }
    FilterRemovesOne(files, k, file => HasOtherFileId(id, file));
  }
}

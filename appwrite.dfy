/**
 * The object-storage wrapper: deriving the stored file name, creating a
 * file and then updating it with a per-user argument, and deleting a file. The remote bucket
 * is a class whose state is a map from file id to stored file plus the log
 * of the calls made to it; each remote call is told by a parameter whether
 * the service rejects it (network, quota, authorisation).
 */
module Appwrite {
  import opened Wrappers

  // ---------------------------------------------------------------------
  // File names
  // ---------------------------------------------------------------------

  /** `s.split(sep)` for a one-character separator: the pieces between
      separators, in order, empty pieces included. */
  function Split(s: string, sep: char): (parts: seq<string>)
    ensures |parts| >= 1
    decreases |s|
  {
    if s == [] then [[]]
    else
      var init := Split(s[..|s| - 1], sep);
      var c := s[|s| - 1];
      if c == sep then init + [[]]
      else init[..|init| - 1] + [init[|init| - 1] + [c]]
  }

  /** No piece holds the separator. */
  lemma {:induction false} SplitPiecesHoldNoSep(s: string, sep: char)
    ensures forall i :: 0 <= i < |Split(s, sep)| ==> sep !in Split(s, sep)[i]
    decreases |s|
  {
    if s != [] {
      SplitPiecesHoldNoSep(s[..|s| - 1], sep);
    }
  }

  /** `parts.join(sep)`. */
  function Join(parts: seq<string>, sep: char): string
    requires |parts| >= 1
  {
    if |parts| == 1 then parts[0]
    else Join(parts[..|parts| - 1], sep) + [sep] + parts[|parts| - 1]
  }

  /** Adding an empty last piece adds one separator. */
  lemma JoinAppendEmpty(parts: seq<string>, sep: char)
    requires |parts| >= 1
    ensures Join(parts + [[]], sep) == Join(parts, sep) + [sep]
  {
    assert (parts + [[]])[..|parts|] == parts;
  }

  /** Extending the last piece extends the joined text. */
  lemma {:induction false} JoinExtendLast(parts: seq<string>, sep: char, c: char)
    requires |parts| >= 1
    ensures Join(parts[..|parts| - 1] + [parts[|parts| - 1] + [c]], sep) == Join(parts, sep) + [c]
  {
    var k := |parts| - 1;
    var ext := parts[..k] + [parts[k] + [c]];
    if k > 0 {
      assert ext[..k] == parts[..k];
      calc {
        Join(ext, sep);
        Join(parts[..k], sep) + [sep] + (parts[k] + [c]);
        Join(parts, sep) + [c];
      }
    }
  }

  /** Splitting loses nothing: joining the pieces gives the text back. */
  lemma {:induction false} JoinSplit(s: string, sep: char)
    ensures Join(Split(s, sep), sep) == s
    decreases |s|
  {
    if s != [] {
      var s' := s[..|s| - 1];
      var c := s[|s| - 1];
      var init := Split(s', sep);
      JoinSplit(s', sep);
      if c == sep {
        assert Split(s, sep) == init + [[]];
        JoinAppendEmpty(init, sep);
      } else {
        assert Split(s, sep) == init[..|init| - 1] + [init[|init| - 1] + [c]];
        JoinExtendLast(init, sep, c);
      }
      assert s == s' + [c];
    }
  }

  /** `last` is the text of `s` after its last `sep`, or all of `s` when
      it holds none. */
  predicate IsLastPiece(last: string, s: string, sep: char) {
    && |last| <= |s| && last == s[|s| - |last|..]
    && (sep in s ==> |last| < |s| && s[|s| - |last| - 1] == sep)
    && (sep !in s ==> last == s)
  }

  /** A separator ends the text: the last piece is empty. */
  lemma LastPieceAfterSep(t: string, sep: char)
    ensures IsLastPiece([], t + [sep], sep)
  {
    assert (t + [sep])[|t|] == sep;
  }

  /** Any other character extends the last piece. */
  lemma LastPieceSnoc(last: string, t: string, c: char, sep: char)
    requires IsLastPiece(last, t, sep) && c != sep
    ensures IsLastPiece(last + [c], t + [c], sep)
  {
    var u := t + [c];
    assert u[|u| - |last| - 1..] == u[|t| - |last|..];
    assert u[|t| - |last|..] == t[|t| - |last|..] + [c];
    assert |last| < |t| ==> u[|t| - |last| - 1] == t[|t| - |last| - 1];
    assert forall i :: 0 <= i < |t| ==> u[i] == t[i];
    assert sep in u <==> sep in t;
  }

  /** One more character either starts a new piece (a separator) or
      extends the last one. */
  lemma SplitSnoc(t: string, c: char, sep: char)
    ensures var init := Split(t, sep);
            Split(t + [c], sep)
              == if c == sep then init + [[]] else init[..|init| - 1] + [init[|init| - 1] + [c]]
  {
    assert (t + [c])[..|t + [c]| - 1] == t;
  }

  /** The last piece of `Split(s, sep)` is the text after the last
      separator, or all of `s` when there is none. */
  lemma {:induction false} LastPiece(s: string, sep: char)
    ensures IsLastPiece(Split(s, sep)[|Split(s, sep)| - 1], s, sep)
    decreases |s|
  {
    if s != [] {
      var t, c := s[..|s| - 1], s[|s| - 1];
      assert s == t + [c];
      var init := Split(t, sep);
      LastPiece(t, sep);
      SplitSnoc(t, c, sep);
      if c == sep {
        LastPieceAfterSep(t, sep);
      } else {
        LastPieceSnoc(init[|init| - 1], t, c, sep);
      }
    }
  }

  /** `file.name.split('.').pop()`. */
  function FileExtension(name: string): string {
    var parts := Split(name, '.');
    parts[|parts| - 1]
  }

  /** The extension is the text after the last dot, or the whole name when
      it has no dot; it never holds a dot. */
  lemma FileExtensionIsLastSegment(name: string)
    ensures var ext := FileExtension(name);
            && '.' !in ext
            && |ext| <= |name| && ext == name[|name| - |ext|..]
            && ('.' in name ==> |ext| < |name| && name[|name| - |ext| - 1] == '.')
            && ('.' !in name ==> ext == name)
  {
    LastPiece(name, '.');
    SplitPiecesHoldNoSep(name, '.');
  }

  /** The name under which a file is recorded: the fresh id, a dot, the
      original name's extension. */
  function StoredFileName(uniqueId: string, originalName: string): string {
    uniqueId + "." + FileExtension(originalName)
  }

  /** A name ending in a dot and a dot-free `ext` has extension `ext`. */
  lemma ExtensionAfterLastDot(base: string, ext: string)
    requires '.' !in ext
    ensures FileExtension(base + "." + ext) == ext
  {
    var name := base + "." + ext;
    var e := FileExtension(name);
    FileExtensionIsLastSegment(name);
    assert name[|name| - |ext| - 1] == '.';
    assert name[|name| - |ext|..] == ext;
    // no dot in either suffix, and a dot just before each of them
    assert forall k :: |name| - |e| <= k < |name| ==> name[k] == e[k - (|name| - |e|)];
    assert forall k :: |name| - |ext| <= k < |name| ==> name[k] == ext[k - (|name| - |ext|)];
    assert |e| == |ext|;
  }

  /** A name `base.ext` whose extension holds no dot is stored as `id.ext`,
      whatever dots the base holds. */
  lemma StoredNameKeepsExtension(uniqueId: string, base: string, ext: string)
    requires '.' !in ext
    ensures StoredFileName(uniqueId, base + "." + ext) == uniqueId + "." + ext
  {
    ExtensionAfterLastDot(base, ext);
  }

  /** The three edge cases of the derivation. */
  lemma FileExtensionExamples()
    ensures FileExtension("resume") == "resume"
    ensures FileExtension("resume.") == ""
    ensures FileExtension("a.b.pdf") == "pdf"
  {
    DotlessNameIsItsExtension("resume");
    TrailingDotGivesEmptyExtension("resume");
    var name, base := "a.b.pdf", "a.b";
    assert name == base + "." + "pdf";
    ExtensionAfterLastDot(base, "pdf");
  }

  /** A name with no dot is its own extension. */
  lemma DotlessNameIsItsExtension(name: string)
    requires '.' !in name
    ensures FileExtension(name) == name
  {
    FileExtensionIsLastSegment(name);
  }

  /** A name ending in a dot has the empty extension. */
  lemma TrailingDotGivesEmptyExtension(base: string)
    ensures FileExtension(base + ".") == ""
  {
    SplitSnoc(base, '.', '.');
  }


  // ---------------------------------------------------------------------
  // The remote bucket
  // ---------------------------------------------------------------------

  datatype File = File(name: string, size: nat, mimeType: string, content: seq<bv8>)

  /** A stored file and the argument of the last update made on it, if
      any. The argument is kept opaque: whether the service reads it as a
      permission or as the file's new name is not modelled. */
  datatype StoredFile = StoredFile(file: File, argument: Option<string>)

  datatype StorageCall =
    | CreateCall(fileId: string)
    | UpdateCall(fileId: string, argument: string)
    | DeleteCall(fileId: string)

  datatype StorageError = ServiceError | NotFound | Conflict

  /** The record `uploadFile` returns. */
  datatype UploadRecord = UploadRecord(
    id: string, name: string, originalName: string, size: nat, mimeType: string)

  class Bucket {
    var files: map<string, StoredFile>
    var log: seq<StorageCall>

    constructor (initial: map<string, StoredFile>)
      ensures files == initial && log == []
    {
      files := initial;
      log := [];
    }

    /** `storage.createFile`: stores the file under the given id and answers
        with that id; an id already in use is a conflict. */
    method CreateFile(fileId: string, file: File, rejected: bool)
      returns (r: Result<string, StorageError>)
      modifies this
      ensures log == old(log) + [CreateCall(fileId)]
      ensures r == if rejected then Err(ServiceError)
                   else if fileId in old(files) then Err(Conflict)
                   else Ok(fileId)
      ensures files == if r.Ok? then old(files)[fileId := StoredFile(file, None)] else old(files)
    {
      log := log + [CreateCall(fileId)];
      if rejected {
        r := Err(ServiceError);
      } else if fileId in files {
        r := Err(Conflict);
      } else {
        files := files[fileId := StoredFile(file, None)];
        r := Ok(fileId);
      }
    }

    /** `storage.updateFile` with one argument after the id. */
    method UpdateFile(fileId: string, argument: string, rejected: bool)
      returns (r: Result<(), StorageError>)
      modifies this
      ensures log == old(log) + [UpdateCall(fileId, argument)]
      ensures r == if rejected then Err(ServiceError)
                   else if fileId !in old(files) then Err(NotFound)
                   else Ok(())
      ensures files == if r.Ok? then old(files)[fileId := old(files)[fileId].(argument := Some(argument))]
                       else old(files)
    {
      log := log + [UpdateCall(fileId, argument)];
      if rejected {
        r := Err(ServiceError);
      } else if fileId !in files {
        r := Err(NotFound);
      } else {
        files := files[fileId := files[fileId].(argument := Some(argument))];
        r := Ok(());
      }
    }

    /** `storage.deleteFile`: a missing file is reported as not found. */
    method DeleteFile(fileId: string, rejected: bool)
      returns (r: Result<(), StorageError>)
      modifies this
      ensures log == old(log) + [DeleteCall(fileId)]
      ensures r == if rejected then Err(ServiceError)
                   else if fileId !in old(files) then Err(NotFound)
                   else Ok(())
      ensures files == if r.Ok? then old(files) - {fileId} else old(files)
    {
      log := log + [DeleteCall(fileId)];
      if rejected {
        r := Err(ServiceError);
      } else if fileId !in files {
        r := Err(NotFound);
      } else {
        files := files - {fileId};
        r := Ok(());
      }
    }
  }

  /** The `user:<id>` argument `uploadFile` passes to the update. */
  function UserArgument(userId: string): string {
    "user:" + userId
  }

  /** `uploadFile(file, userId)` with `uniqueId` as the fresh id: create, then
      update the file under the id the service answered with, then return the
      record. Any failure is rethrown (`Err`) and no record is returned; a
      file created before a failed update stays stored. */
  method UploadFile(
    bucket: Bucket, file: File, userId: string, uniqueId: string,
    createRejected: bool, updateRejected: bool)
    returns (r: Result<UploadRecord, StorageError>)
    modifies bucket
    // the update is attempted exactly when the file was created
    ensures createRejected || uniqueId in old(bucket.files) ==>
              bucket.log == old(bucket.log) + [CreateCall(uniqueId)]
              && bucket.files == old(bucket.files) && r.Err?
    ensures !createRejected && uniqueId !in old(bucket.files) ==>
              bucket.log == old(bucket.log) + [CreateCall(uniqueId), UpdateCall(uniqueId, UserArgument(userId))]
              && bucket.files == old(bucket.files)[uniqueId := StoredFile(file,
                                   if updateRejected then None else Some(UserArgument(userId)))]
              && (r.Ok? <==> !updateRejected)
    ensures r.Ok? ==> r.value == UploadRecord(
              uniqueId, StoredFileName(uniqueId, file.name), file.name, file.size, file.mimeType)
  {
    var response := bucket.CreateFile(uniqueId, file, createRejected);
    if response.Err? {
      return Err(response.error);
    }
    ghost var stored := bucket.files;
    assert stored == old(bucket.files)[uniqueId := StoredFile(file, None)];
    var updated := bucket.UpdateFile(response.value, UserArgument(userId), updateRejected);
    if updated.Err? {
      assert bucket.files == stored;
      return Err(updated.error);
    }
    assert bucket.files == old(bucket.files)[uniqueId := StoredFile(file, Some(UserArgument(userId)))];
    var fileName := StoredFileName(uniqueId, file.name);
    r := Ok(UploadRecord(response.value, fileName, file.name, file.size, file.mimeType));
  }

  /** `deleteFile(fileId)`: `true` after a successful delete; a failure is
      rethrown. */
  method DeleteFile(bucket: Bucket, fileId: string, rejected: bool)
    returns (r: Result<bool, StorageError>)
    modifies bucket
    ensures bucket.log == old(bucket.log) + [DeleteCall(fileId)]
    ensures r.Ok? <==> !rejected && fileId in old(bucket.files)
    ensures r.Ok? ==> r.value
    ensures bucket.files == if r.Ok? then old(bucket.files) - {fileId} else old(bucket.files)
  {
    var deleted := bucket.DeleteFile(fileId, rejected);
    if deleted.Err? {
      return Err(deleted.error);
    }
    r := Ok(true);
  }
}

/**
 * The two server actions that record or clear the uploaded-file metadata
 * of one resume. The document collection is a class holding a map from
 * resume id to document; an exception from the database (while connecting,
 * looking the resume up, or saving it) is a parameter, and each action turns
 * it into a failure result instead of rethrowing it.
 */
module UploadActions {
  import opened Wrappers

  /** The five fields the caller passes. */
  datatype UploadInfo = UploadInfo(
    fileId: string, fileName: string, originalName: string, size: nat, mimeType: string)

  /** The `uploadedResume` sub-record as stored. */
  datatype UploadedResume = UploadedResume(
    fileId: string, fileName: string, originalName: string, size: nat, mimeType: string,
    uploadDate: nat)

  /** A resume document: its upload sub-record and every other field. */
  datatype ResumeDoc = ResumeDoc(uploadedResume: Option<UploadedResume>, otherFields: map<string, string>)

  /** Where, if anywhere, the database throws during one action. */
  datatype DbFault =
    | NoFault
    | ConnectFails(message: string)
    | FindFails(message: string)
    | SaveFails(message: string)

  /** `{success: true, data?}` or `{success: false, error}`. */
  datatype ActionResult = Success(data: Option<ResumeDoc>) | Failure(error: string)

  const ResumeNotFound: string := "Resume not found"

  function StoredRecord(info: UploadInfo, now: nat): UploadedResume {
    UploadedResume(info.fileId, info.fileName, info.originalName, info.size, info.mimeType, now)
  }

  /** What `updateResumeUploadInfo` answers and what the collection holds
      afterwards; `now` is the time the server reads. */
  function UploadInfoOutcome(
    docs: map<string, ResumeDoc>, resumeId: string, info: UploadInfo, now: nat, fault: DbFault)
    : (ActionResult, map<string, ResumeDoc>)
  {
    if fault.ConnectFails? || fault.FindFails? then (Failure(fault.message), docs)
    else if resumeId !in docs then (Failure(ResumeNotFound), docs)
    else if fault.SaveFails? then (Failure(fault.message), docs)
    else
      var doc := docs[resumeId].(uploadedResume := Some(StoredRecord(info, now)));
      (Success(Some(doc)), docs[resumeId := doc])
  }

  /** What `removeUploadedResume` answers and what the collection holds
      afterwards. */
  function RemoveOutcome(docs: map<string, ResumeDoc>, resumeId: string, fault: DbFault)
    : (ActionResult, map<string, ResumeDoc>)
  {
    if fault.ConnectFails? || fault.FindFails? then (Failure(fault.message), docs)
    else if resumeId !in docs then (Failure(ResumeNotFound), docs)
    else if fault.SaveFails? then (Failure(fault.message), docs)
    else (Success(None), docs[resumeId := docs[resumeId].(uploadedResume := None)])
  }

  class ResumeTable {
    var docs: map<string, ResumeDoc>
    /** The paths whose cached rendering has been invalidated, in order. */
    var revalidated: seq<string>

    constructor (initial: map<string, ResumeDoc>)
      ensures docs == initial && revalidated == []
    {
      docs := initial;
      revalidated := [];
    }

    /** `updateResumeUploadInfo(resumeId, fileInfo)`. */
    method UpdateResumeUploadInfo(resumeId: string, info: UploadInfo, now: nat, fault: DbFault)
      returns (r: ActionResult)
      modifies this
      ensures (r, docs) == UploadInfoOutcome(old(docs), resumeId, info, now, fault)
      ensures revalidated == old(revalidated)
    {
      if fault.ConnectFails? || fault.FindFails? {
        return Failure(fault.message);
      }
      if resumeId !in docs {
        return Failure(ResumeNotFound);
      }
      var resume := docs[resumeId];
      resume := resume.(uploadedResume := Some(StoredRecord(info, now)));
      if fault.SaveFails? {
        return Failure(fault.message);
      }
      docs := docs[resumeId := resume];
      r := Success(Some(resume));
    }

    /** `removeUploadedResume(resumeId, path)`: the path is revalidated only
        after a successful save. */
    method RemoveUploadedResume(resumeId: string, path: string, fault: DbFault)
      returns (r: ActionResult)
      modifies this
      ensures (r, docs) == RemoveOutcome(old(docs), resumeId, fault)
      ensures revalidated == if r.Success? then old(revalidated) + [path] else old(revalidated)
    {
      if fault.ConnectFails? || fault.FindFails? {
        return Failure(fault.message);
      }
      if resumeId !in docs {
        return Failure(ResumeNotFound);
      }
      var resume := docs[resumeId];
      resume := resume.(uploadedResume := None);
      if fault.SaveFails? {
        return Failure(fault.message);
      }
      docs := docs[resumeId := resume];
      revalidated := revalidated + [path];
      r := Success(None);
    }
  }

  // ---------------------------------------------------------------------
  // Properties of the two actions
  // ---------------------------------------------------------------------

  /** An unknown resume is reported as not found and nothing changes (unless
      the database already threw before the lookup). */
  lemma UnknownResumeChangesNothing(
    docs: map<string, ResumeDoc>, resumeId: string, info: UploadInfo, now: nat, fault: DbFault)
    requires resumeId !in docs && !fault.ConnectFails? && !fault.FindFails?
    ensures UploadInfoOutcome(docs, resumeId, info, now, fault) == (Failure(ResumeNotFound), docs)
    ensures RemoveOutcome(docs, resumeId, fault) == (Failure(ResumeNotFound), docs)
  {
  }

  /** Success is reported only when the save completed without an exception, and a
      failure leaves the collection exactly as it was, its error being the
      exception's message or the not-found text. */
  lemma SuccessOnlyAfterSave(
    docs: map<string, ResumeDoc>, resumeId: string, info: UploadInfo, now: nat, fault: DbFault)
    ensures var (r, docs') := UploadInfoOutcome(docs, resumeId, info, now, fault);
            && (r.Success? <==> fault == NoFault && resumeId in docs)
            && (r.Failure? ==>
                  && docs' == docs
                  && r.error == (if fault != NoFault && (!fault.SaveFails? || resumeId in docs)
                                 then fault.message else ResumeNotFound))
    ensures var (r, docs') := RemoveOutcome(docs, resumeId, fault);
            && (r.Success? <==> fault == NoFault && resumeId in docs)
            && (r.Failure? ==>
                  && docs' == docs
                  && r.error == (if fault != NoFault && (!fault.SaveFails? || resumeId in docs)
                                 then fault.message else ResumeNotFound))
  {
  }

  /** On success the sub-record is replaced wholesale by the five given
      fields and the time of the save; only that sub-record of that
      document changes. */
  lemma UploadInfoReplacesOnlyTheSubRecord(
    docs: map<string, ResumeDoc>, resumeId: string, info: UploadInfo, now: nat)
    requires resumeId in docs
    ensures var (r, docs') := UploadInfoOutcome(docs, resumeId, info, now, NoFault);
            && docs'.Keys == docs.Keys
            && docs'[resumeId].uploadedResume == Some(UploadedResume(
                 info.fileId, info.fileName, info.originalName, info.size, info.mimeType, now))
            && docs'[resumeId].otherFields == docs[resumeId].otherFields
            && (forall k :: k in docs && k != resumeId ==> docs'[k] == docs[k])
            && r == Success(Some(docs'[resumeId]))
  {
  }

  /** Removal clears only that sub-record of that document. */
  lemma RemoveClearsOnlyTheSubRecord(docs: map<string, ResumeDoc>, resumeId: string)
    requires resumeId in docs
    ensures var (r, docs') := RemoveOutcome(docs, resumeId, NoFault);
            && docs'.Keys == docs.Keys
            && docs'[resumeId].uploadedResume.None?
            && docs'[resumeId].otherFields == docs[resumeId].otherFields
            && (forall k :: k in docs && k != resumeId ==> docs'[k] == docs[k])
  {
  }

  /** Removing twice is removing once: same collection, same answer. */
  lemma RemoveIsIdempotent(docs: map<string, ResumeDoc>, resumeId: string)
    ensures var (r1, docs1) := RemoveOutcome(docs, resumeId, NoFault);
            RemoveOutcome(docs1, resumeId, NoFault) == (r1, docs1)
  {
    var (r1, docs1) := RemoveOutcome(docs, resumeId, NoFault);
    if resumeId in docs {
      assert docs1[resumeId := docs1[resumeId].(uploadedResume := None)] == docs1;
    }
  }

  /** Removing after recording gives what removing alone gives: the recorded
      sub-record leaves no trace. */
  lemma RemoveUndoesUploadInfo(
    docs: map<string, ResumeDoc>, resumeId: string, info: UploadInfo, now: nat)
    ensures RemoveOutcome(UploadInfoOutcome(docs, resumeId, info, now, NoFault).1, resumeId, NoFault)
         == RemoveOutcome(docs, resumeId, NoFault)
  {
    if resumeId in docs {
      var docs1 := UploadInfoOutcome(docs, resumeId, info, now, NoFault).1;
      assert docs1[resumeId := docs1[resumeId].(uploadedResume := None)]
          == docs[resumeId := docs[resumeId].(uploadedResume := None)];
    }
  }
}

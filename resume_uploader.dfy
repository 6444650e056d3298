/**
 * The upload / parse / delete controller of the resume editor. Its state is
 * the recorded file, three busy flags, the job-description text, the edit
 * form and the trace of the storage, database and extraction calls it
 * issues; the blob bucket and the resume collection are the objects those
 * calls change. Each handler is one sequential run, and what every
 * collaborator does during it is fixed by an `Env` parameter.
 */
module ResumeUploader {
  import opened Wrappers
  import Appwrite
  import UploadActions
  import ParseActions

  // ---------------------------------------------------------------------
  // File validation and size display
  // ---------------------------------------------------------------------

  const PdfType: string := "application/pdf"
  const DocxType: string := "application/vnd.openxmlformats-officedocument.wordprocessingml.document"
  const MaxUploadSize: nat := 5 * 1024 * 1024

  datatype Validation = WrongType | TooLarge | Accepted

  /** The type check, then the size check (the limit itself is allowed). */
  function Validate(file: Appwrite.File): (v: Validation)
    ensures v == WrongType <==> file.mimeType != PdfType && file.mimeType != DocxType
    ensures v == TooLarge <==> (file.mimeType == PdfType || file.mimeType == DocxType)
                               && file.size > 5242880
    ensures v == Accepted <==> (file.mimeType == PdfType || file.mimeType == DocxType)
                               && file.size <= 5242880
  {
    if file.mimeType != PdfType && file.mimeType != DocxType then WrongType
    else if file.size > MaxUploadSize then TooLarge
    else Accepted
  }

  datatype SizeUnit = Bytes | Kilobytes | Megabytes

  /** The unit `formatFileSize` writes a size in. */
  function DisplayUnit(bytes: nat): (u: SizeUnit)
    ensures u == Bytes <==> bytes < 1024
    ensures u == Megabytes <==> bytes >= 1024 * 1024
  {
    if bytes < 1024 then Bytes
    else if bytes < 1048576 then Kilobytes
    else Megabytes
  }

  function UnitRank(u: SizeUnit): nat {
    match u
    case Bytes => 0
    case Kilobytes => 1
    case Megabytes => 2
  }

  /** A larger size is never shown in a smaller unit, and a size shown in
      kilobytes has a whole-kilobyte quotient between 1 and 1023 (the shown
      figure, rounded to one decimal, can read 1024.0). */
  lemma DisplayUnitMonotone(a: nat, b: nat)
    requires a <= b
    ensures UnitRank(DisplayUnit(a)) <= UnitRank(DisplayUnit(b))
    ensures DisplayUnit(a) == Kilobytes ==> 1 <= a / 1024 < 1024
  {
  }

  // ---------------------------------------------------------------------
  // Records, calls and outcomes
  // ---------------------------------------------------------------------

  /** The record of the uploaded file the component shows. */
  datatype UploadedFile = UploadedFile(
    fileId: string, fileName: string, originalName: string, size: nat, mimeType: string,
    uploadDate: Option<nat>)

  /** The seven scalar fields as `updateResume` receives them: raw, possibly missing. */
  datatype Profile = Profile(
    firstName: Option<string>, lastName: Option<string>, jobTitle: Option<string>,
    address: Option<string>, phone: Option<string>, email: Option<string>,
    summary: Option<string>)

  /** A call to a collaborator, recorded when it is issued. */
  datatype Call =
    | DeleteBlob(fileId: string)
    | UploadBlob(originalName: string)
    | SaveUploadInfo(resumeId: string, info: UploadActions.UploadInfo)
    | RemoveUploadInfo(resumeId: string)
    | Extract(fileId: string)
    | AddSkills(resumeId: string, skills: seq<ParseActions.Skill>)
    | AddExperience(resumeId: string, experience: seq<ParseActions.Experience>)
    | AddEducation(resumeId: string, education: seq<ParseActions.Education>)
    | UpdateProfile(resumeId: string, profile: Profile)

  /** The live edit form that `handleInputChange` writes. */
  datatype FormState = FormState(
    firstName: string, lastName: string, jobTitle: string, address: string,
    phone: string, email: string, summary: string,
    skills: seq<ParseActions.Skill>, experience: seq<ParseActions.Experience>,
    education: seq<ParseActions.Education>)

  datatype ParseOutcome =
    | Skipped        // no job description: returned before the extractor
    | NoResult       // the extractor returned null
    | PersistFailed  // a persistence call threw; the calls after it were not made
    | Parsed

  datatype UploadOutcome =
    | NoFileChosen
    | InvalidType
    | FileTooLarge
    | UploadFailed
    | Uploaded(autoParse: Option<ParseOutcome>)

  datatype DeleteOutcome = NothingToDelete | DeleteFailed | Deleted

  /** What the collaborators do during one handler run. */
  datatype Env = Env(
    deleteRejected: bool,                 // the storage delete throws
    createRejected: bool,                 // the storage create throws
    updateRejected: bool,                 // the storage update after the create throws
    freshId: string,                      // the id `ID.unique()` hands out
    dbFault: UploadActions.DbFault,       // where the database throws, if anywhere
    clientNow: nat,                       // `new Date()` in the browser
    serverNow: nat,                       // `new Date()` in the server action
    download: string -> Option<seq<bv8>>,
    generate: ParseActions.ModelRequest -> Option<string>,
    parseJson: string -> Option<ParseActions.ParsedResume>,
    persistThrows: Call -> bool)          // which persistence calls throw

  // ---------------------------------------------------------------------
  // Merging a parsed record
  // ---------------------------------------------------------------------

  /** `value || ""`. */
  function OrEmpty(value: Option<string>): string {
    if value.Some? then value.value else ""
  }

  /** `list && list.length > 0`. */
  predicate HasItems<T>(list: Option<seq<T>>) {
    list.Some? && |list.value| > 0
  }

  function RawProfile(p: ParseActions.ParsedResume): Profile {
    Profile(p.firstName, p.lastName, p.jobTitle, p.address, p.phone, p.email, p.summary)
  }

  function SkillsCall(resumeId: string, p: ParseActions.ParsedResume): seq<Call> {
    if HasItems(p.skills) then [AddSkills(resumeId, p.skills.value)] else []
  }

  function ExperienceCall(resumeId: string, p: ParseActions.ParsedResume): seq<Call> {
    if HasItems(p.experience) then [AddExperience(resumeId, p.experience.value)] else []
  }

  function EducationCall(resumeId: string, p: ParseActions.ParsedResume): seq<Call> {
    if HasItems(p.education) then [AddEducation(resumeId, p.education.value)] else []
  }

  function ProfileCall(resumeId: string, p: ParseActions.ParsedResume): Call {
    UpdateProfile(resumeId, RawProfile(p))
  }

  /** The persistence calls a parsed record asks for, in the order they are made. */
  function PersistPlan(resumeId: string, p: ParseActions.ParsedResume): seq<Call> {
    SkillsCall(resumeId, p) + ExperienceCall(resumeId, p) + EducationCall(resumeId, p)
    + [ProfileCall(resumeId, p)]
  }

  /** Whether a list's append call is made and throws. */
  predicate SkillsThrow(resumeId: string, p: ParseActions.ParsedResume, throws: Call -> bool) {
    HasItems(p.skills) && throws(AddSkills(resumeId, p.skills.value))
  }

  predicate ExperienceThrows(resumeId: string, p: ParseActions.ParsedResume, throws: Call -> bool) {
    HasItems(p.experience) && throws(AddExperience(resumeId, p.experience.value))
  }

  predicate EducationThrows(resumeId: string, p: ParseActions.ParsedResume, throws: Call -> bool) {
    HasItems(p.education) && throws(AddEducation(resumeId, p.education.value))
  }

  function CallRank(c: Call): nat {
    match c
    case AddSkills(_, _) => 0
    case AddExperience(_, _) => 1
    case AddEducation(_, _) => 2
    case _ => 3
  }

  /** Lists with items are appended (and only those), in the order skills,
      experience, education, and the raw profile update comes last, once. */
  lemma {:induction false} PersistPlanShape(resumeId: string, p: ParseActions.ParsedResume)
    ensures var plan := PersistPlan(resumeId, p);
            && |plan| >= 1
            && plan[|plan| - 1] == UpdateProfile(resumeId, RawProfile(p))
            && (forall i :: 0 <= i < |plan| - 1 ==> !plan[i].UpdateProfile?)
            && (forall i, j :: 0 <= i < j < |plan| ==> CallRank(plan[i]) < CallRank(plan[j]))
            && (HasItems(p.skills) ==> AddSkills(resumeId, p.skills.value) in plan)
            && (HasItems(p.experience) ==> AddExperience(resumeId, p.experience.value) in plan)
            && (HasItems(p.education) ==> AddEducation(resumeId, p.education.value) in plan)
            && (!HasItems(p.skills) ==> forall c :: c in plan ==> !c.AddSkills?)
            && (!HasItems(p.experience) ==> forall c :: c in plan ==> !c.AddExperience?)
            && (!HasItems(p.education) ==> forall c :: c in plan ==> !c.AddEducation?)
            && |plan| == 1 + (if HasItems(p.skills) then 1 else 0)
                           + (if HasItems(p.experience) then 1 else 0)
                           + (if HasItems(p.education) then 1 else 0)
  {
    var s, x, e := SkillsCall(resumeId, p), ExperienceCall(resumeId, p), EducationCall(resumeId, p);
    var u := [ProfileCall(resumeId, p)];
    var plan := PersistPlan(resumeId, p);
    assert plan == s + x + e + u;
    assert forall i :: 0 <= i < |plan| ==>
      plan[i] == (if i < |s| then s[0] else if i < |s| + |x| then x[0]
                  else if i < |s| + |x| + |e| then e[0] else u[0]);
  }

  /** The calls actually made from a plan: all of them, or those up to and
      including the first that throws. */
  function Issued(plan: seq<Call>, throws: Call -> bool): seq<Call> {
    if plan == [] then []
    else if throws(plan[0]) then [plan[0]]
    else [plan[0]] + Issued(plan[1..], throws)
  }

  /** The calls made are a prefix of the plan; none before the last threw;
      and if the run stopped early, the last call made is the one that threw. */
  lemma {:induction false} IssuedIsPrefix(plan: seq<Call>, throws: Call -> bool)
    ensures var r := Issued(plan, throws);
            && |r| <= |plan| && r == plan[..|r|]
            && (forall i :: 0 <= i < |r| - 1 ==> !throws(r[i]))
            && (|r| < |plan| ==> |r| > 0 && throws(r[|r| - 1]))
            && (plan != [] ==> r != [])
    decreases |plan|
  {
    if plan != [] && !throws(plan[0]) {
      var rest := Issued(plan[1..], throws);
      IssuedIsPrefix(plan[1..], throws);
      var r := [plan[0]] + rest;
      assert r == plan[..|r|];
      assert forall i :: 0 < i < |r| - 1 ==> r[i] == rest[i - 1];
    }
  }

  predicate Completes(plan: seq<Call>, throws: Call -> bool) {
    forall i :: 0 <= i < |plan| ==> !throws(plan[i])
  }

  /** A plan completes when its first call does not throw and the rest completes. */
  lemma CompletesCons(a: seq<Call>, throws: Call -> bool)
    requires a != []
    ensures Completes(a, throws) <==> !throws(a[0]) && Completes(a[1..], throws)
  {
    if !throws(a[0]) && Completes(a[1..], throws) {
      forall i | 0 <= i < |a| ensures !throws(a[i]) {
        if i > 0 { assert a[i] == a[1..][i - 1]; }
      }
    }
    if Completes(a, throws) {
      forall i | 0 <= i < |a[1..]| ensures !throws(a[1..][i]) {
        assert a[1..][i] == a[i + 1];
      }
    }
  }

  /** Issuing `a + b` issues `a` and then, if nothing in `a` threw, `b`. */
  lemma {:induction false} IssuedAppend(a: seq<Call>, b: seq<Call>, throws: Call -> bool)
    ensures Issued(a + b, throws)
         == if Completes(a, throws) then a + Issued(b, throws) else Issued(a, throws)
    decreases |a|
  {
    if a == [] {
      assert a + b == b;
    } else if throws(a[0]) {
      assert (a + b)[0] == a[0];
      assert !Completes(a, throws);
    } else {
      IssuedAppend(a[1..], b, throws);
      IssuedAppendStep(a, b, throws);
    }
  }

  /** The step of `IssuedAppend` past a first call that does not throw. */
  lemma IssuedAppendStep(a: seq<Call>, b: seq<Call>, throws: Call -> bool)
    requires a != [] && !throws(a[0])
    requires Issued(a[1..] + b, throws)
          == if Completes(a[1..], throws) then a[1..] + Issued(b, throws) else Issued(a[1..], throws)
    ensures Issued(a + b, throws)
         == if Completes(a, throws) then a + Issued(b, throws) else Issued(a, throws)
  {
    var x, t := a[0], a[1..];
    assert a == [x] + t;
    assert a + b == [x] + (t + b);
    IssuedPast(x, t + b, throws);
    IssuedPast(x, t, throws);
    CompletesCons(a, throws);
    if Completes(t, throws) {
      assert [x] + (t + Issued(b, throws)) == a + Issued(b, throws);
    }
  }

  /** A first call that does not throw is made, and the rest is issued after it. */
  lemma IssuedPast(x: Call, rest: seq<Call>, throws: Call -> bool)
    requires !throws(x)
    ensures Issued([x] + rest, throws) == [x] + Issued(rest, throws)
  {
    assert ([x] + rest)[0] == x && ([x] + rest)[1..] == rest;
  }

  /** A plan of at most one call is issued whole; it completes when that call does not throw. */
  lemma IssuedSingle(plan: seq<Call>, throws: Call -> bool)
    requires |plan| <= 1
    ensures Issued(plan, throws) == plan
    ensures Completes(plan, throws) <==> plan == [] || !throws(plan[0])
  {
    if plan != [] {
      assert plan[1..] == [];
    }
  }

  /** Extending a plan by at most one call: the call is made exactly when
      the plan before it completed. */
  lemma IssuedStep(a: seq<Call>, b: seq<Call>, throws: Call -> bool)
    requires |b| <= 1
    ensures Issued(a + b, throws) == if Completes(a, throws) then a + b else Issued(a, throws)
    ensures Completes(a + b, throws) <==> Completes(a, throws) && (b == [] || !throws(b[0]))
  {
    IssuedSingle(b, throws);
    IssuedAppend(a, b, throws);
    CompletesAppend(a, b, throws);
  }

  lemma CompletesAppend(a: seq<Call>, b: seq<Call>, throws: Call -> bool)
    ensures Completes(a + b, throws) <==> Completes(a, throws) && Completes(b, throws)
  {
    if Completes(a, throws) && Completes(b, throws) {
      forall i | 0 <= i < |a + b| ensures !throws((a + b)[i]) {
        if i >= |a| { assert (a + b)[i] == b[i - |a|]; }
      }
    }
    if Completes(a + b, throws) {
      forall i | 0 <= i < |b| ensures !throws(b[i]) {
        assert (a + b)[|a| + i] == b[i];
      }
      forall i | 0 <= i < |a| ensures !throws(a[i]) {
        assert (a + b)[i] == a[i];
      }
    }
  }

  /** The calls made from a parsed record's plan: the first that throws is
      the last made, and the run completes when none throws. */
  lemma IssuedPlan(resumeId: string, p: ParseActions.ParsedResume, throws: Call -> bool)
    ensures var s, x, e := SkillsCall(resumeId, p), ExperienceCall(resumeId, p), EducationCall(resumeId, p);
            var u := [ProfileCall(resumeId, p)];
            Issued(PersistPlan(resumeId, p), throws)
              == if SkillsThrow(resumeId, p, throws) then s
                 else if ExperienceThrows(resumeId, p, throws) then s + x
                 else if EducationThrows(resumeId, p, throws) then s + x + e
                 else s + x + e + u
    ensures Completes(PersistPlan(resumeId, p), throws)
        <==> && !SkillsThrow(resumeId, p, throws) && !ExperienceThrows(resumeId, p, throws)
             && !EducationThrows(resumeId, p, throws) && !throws(ProfileCall(resumeId, p))
  {
    var s, x, e := SkillsCall(resumeId, p), ExperienceCall(resumeId, p), EducationCall(resumeId, p);
    var u := [ProfileCall(resumeId, p)];
    var st, xt, et := SkillsThrow(resumeId, p, throws), ExperienceThrows(resumeId, p, throws),
                      EducationThrows(resumeId, p, throws);
    assert Issued(s, throws) == s && (Completes(s, throws) <==> !st) by {
      IssuedSingle(s, throws);
    }
    assert Issued(s + x, throws) == (if st then s else s + x)
        && (Completes(s + x, throws) <==> !st && !xt) by {
      IssuedSingle(x, throws);
      IssuedStep(s, x, throws);
    }
    assert Issued(s + x + e, throws) == (if st then s else if xt then s + x else s + x + e)
        && (Completes(s + x + e, throws) <==> !st && !xt && !et) by {
      IssuedSingle(e, throws);
      IssuedStep(s + x, e, throws);
    }
    IssuedStep(s + x + e, u, throws);
  }

  /** When no call throws, every planned call is made. */
  lemma {:induction false} IssuedAllWhenNothingThrows(plan: seq<Call>, throws: Call -> bool)
    requires Completes(plan, throws)
    ensures Issued(plan, throws) == plan
    decreases |plan|
  {
    if plan != [] {
      assert Completes(plan[1..], throws) by {
        forall i | 0 <= i < |plan[1..]| ensures !throws(plan[1..][i]) {
          assert plan[1..][i] == plan[i + 1];
        }
      }
      IssuedAllWhenNothingThrows(plan[1..], throws);
      assert plan == [plan[0]] + plan[1..];
    }
  }

  /** The form after a merge: the seven scalar fields are set to the parsed
      value or `""`; a list with items is set unless an earlier persistence
      call threw (its form update comes just before its own call). */
  function MergeParsed(
    form: FormState, resumeId: string, p: ParseActions.ParsedResume, throws: Call -> bool): FormState
  {
    var skillsThrew := SkillsThrow(resumeId, p, throws);
    var experienceThrew := ExperienceThrows(resumeId, p, throws);
    FormState(
      OrEmpty(p.firstName), OrEmpty(p.lastName), OrEmpty(p.jobTitle), OrEmpty(p.address),
      OrEmpty(p.phone), OrEmpty(p.email), OrEmpty(p.summary),
      if HasItems(p.skills) then p.skills.value else form.skills,
      if HasItems(p.experience) && !skillsThrew then p.experience.value else form.experience,
      if HasItems(p.education) && !skillsThrew && !experienceThrew
        then p.education.value else form.education)
  }

  /** A list reaches the form exactly when its append call is made. */
  lemma MergedListsAreIssued(
    form: FormState, resumeId: string, p: ParseActions.ParsedResume, throws: Call -> bool)
    ensures var merged := MergeParsed(form, resumeId, p, throws);
            var issued := Issued(PersistPlan(resumeId, p), throws);
            && merged.skills
               == (if HasItems(p.skills) && AddSkills(resumeId, p.skills.value) in issued
                   then p.skills.value else form.skills)
            && merged.experience
               == (if HasItems(p.experience) && AddExperience(resumeId, p.experience.value) in issued
                   then p.experience.value else form.experience)
            && merged.education
               == (if HasItems(p.education) && AddEducation(resumeId, p.education.value) in issued
                   then p.education.value else form.education)
  {
    IssuedPlan(resumeId, p, throws);
  }

  /** When every persistence call succeeds, every planned call is made, each
      list with items replaces the form's list and the others are left alone. */
  lemma MergeWhenNothingThrows(
    form: FormState, resumeId: string, p: ParseActions.ParsedResume, throws: Call -> bool)
    requires Completes(PersistPlan(resumeId, p), throws)
    ensures var merged := MergeParsed(form, resumeId, p, throws);
            && Issued(PersistPlan(resumeId, p), throws) == PersistPlan(resumeId, p)
            && merged.skills == (if HasItems(p.skills) then p.skills.value else form.skills)
            && merged.experience == (if HasItems(p.experience) then p.experience.value else form.experience)
            && merged.education == (if HasItems(p.education) then p.education.value else form.education)
  {
    IssuedAllWhenNothingThrows(PersistPlan(resumeId, p), throws);
    IssuedPlan(resumeId, p, throws);
  }

  /** No skills and one experience entry: one experience append and one
      profile update, nothing else. */
  lemma OnlyExperienceScenario(resumeId: string, p: ParseActions.ParsedResume, x: ParseActions.Experience)
    requires p.skills == Some([]) && p.experience == Some([x]) && !HasItems(p.education)
    ensures PersistPlan(resumeId, p) == [AddExperience(resumeId, [x]), UpdateProfile(resumeId, RawProfile(p))]
  {
  }

  // ---------------------------------------------------------------------
  // The upload run as a specification
  // ---------------------------------------------------------------------

  /** The blob to delete before uploading: only a record with a non-empty id
      (`uploadedFile?.fileId` is truthy). */
  function ReplacedId(current: Option<UploadedFile>): Option<string> {
    if current.Some? && current.value.fileId != "" then Some(current.value.fileId) else None
  }

  function InfoFor(file: Appwrite.File, fileId: string): UploadActions.UploadInfo {
    UploadActions.UploadInfo(
      fileId, Appwrite.StoredFileName(fileId, file.name), file.name, file.size, file.mimeType)
  }

  /** How far an accepted upload gets. */
  datatype Stage = BlobNotDeleted | BlobNotStored | InfoNotSaved | Saved

  function UploadStage(
    replaced: Option<string>, files: map<string, Appwrite.StoredFile>,
    docs: map<string, UploadActions.ResumeDoc>, resumeId: string, file: Appwrite.File, env: Env)
    : Stage
  {
    if replaced.Some? && (env.deleteRejected || replaced.value !in files) then BlobNotDeleted
    else if env.createRejected || env.updateRejected then BlobNotStored
    else if UploadActions.UploadInfoOutcome(
              docs, resumeId, InfoFor(file, env.freshId), env.serverNow, env.dbFault).0.Failure?
    then InfoNotSaved
    else Saved
  }

  /** The calls an accepted upload issues, given how far it gets; `info`
      is the record the database update is asked to save. */
  function UploadTrace(
    replaced: Option<string>, file: Appwrite.File, resumeId: string,
    info: UploadActions.UploadInfo, stage: Stage)
    : seq<Call>
  {
    (if replaced.Some? then [DeleteBlob(replaced.value)] else [])
    + (if stage == BlobNotDeleted then [] else [UploadBlob(file.name)])
    + (if stage == BlobNotDeleted || stage == BlobNotStored then []
       else [SaveUploadInfo(resumeId, info)])
  }

  /** The bucket after an upload that got past the delete. */
  function FilesAfterUpload(
    files: map<string, Appwrite.StoredFile>, replaced: Option<string>, file: Appwrite.File,
    userId: string, env: Env): map<string, Appwrite.StoredFile>
  {
    var kept := if replaced.Some? then files - {replaced.value} else files;
    if env.createRejected then kept
    else kept[env.freshId := Appwrite.StoredFile(
                file, if env.updateRejected then None else Some(Appwrite.UserArgument(userId)))]
  }

  /** The storage calls an accepted upload makes: the delete of the
      recorded blob; if that succeeded, the create and, after a successful
      create, the update. */
  function StorageCalls(
    replaced: Option<string>, files: map<string, Appwrite.StoredFile>, userId: string, env: Env)
    : seq<Appwrite.StorageCall>
  {
    var deleteFails := replaced.Some? && (env.deleteRejected || replaced.value !in files);
    (if replaced.Some? then [Appwrite.DeleteCall(replaced.value)] else [])
    + (if deleteFails then []
       else [Appwrite.CreateCall(env.freshId)]
            + (if env.createRejected then []
               else [Appwrite.UpdateCall(env.freshId, Appwrite.UserArgument(userId))]))
  }

  /** The old blob is deleted strictly before the upload, the upload comes
      before the database update, a failed delete issues nothing else, and
      the storage and database part of an upload issues no extraction. */
  lemma {:induction false} UploadTraceOrder(
    replaced: Option<string>, file: Appwrite.File, resumeId: string,
    info: UploadActions.UploadInfo, stage: Stage)
    ensures var t := UploadTrace(replaced, file, resumeId, info, stage);
            && (replaced.Some? ==> t[0] == DeleteBlob(replaced.value))
            && (forall i :: 0 <= i < |t| && t[i].UploadBlob? ==> i == (if replaced.Some? then 1 else 0))
            && (forall i :: 0 <= i < |t| && t[i].SaveUploadInfo? ==> 0 < i && t[i - 1].UploadBlob?)
            && (forall i :: 0 <= i < |t| ==> !t[i].Extract?)
            && (stage == BlobNotDeleted ==> t == (if replaced.Some? then [DeleteBlob(replaced.value)] else []))
  {
    var t := UploadTrace(replaced, file, resumeId, info, stage);
    var u := UploadBlob(file.name);
    var s := SaveUploadInfo(resumeId, info);
    var stored := stage != BlobNotDeleted;
    var saved := stored && stage != BlobNotStored;
    if replaced.Some? {
      var d := DeleteBlob(replaced.value);
      assert t == if saved then [d, u, s] else if stored then [d, u] else [d];
    } else {
      assert t == if saved then [u, s] else if stored then [u] else [];
    }
  }

  /** A record left pointing at a blob that is gone makes every later
      replacement fail at its first step. */
  lemma StaleRecordBlocksReplacement(
    current: UploadedFile, files: map<string, Appwrite.StoredFile>,
    docs: map<string, UploadActions.ResumeDoc>, resumeId: string, file: Appwrite.File, env: Env)
    requires current.fileId != "" && current.fileId !in files
    ensures UploadStage(ReplacedId(Some(current)), files, docs, resumeId, file, env) == BlobNotDeleted
    ensures UploadTrace(ReplacedId(Some(current)), file, resumeId, InfoFor(file, env.freshId), BlobNotDeleted)
         == [DeleteBlob(current.fileId)]
  {
  }

  /** A call appended after a trace comes right after it, whatever follows. */
  lemma CallAfter(before: seq<Call>, c: Call, rest: seq<Call>)
    ensures var t := before + [c] + rest;
            |t| > |before| && t[..|before|] == before && t[|before|] == c
  {
    var t := before + [c] + rest;
    assert t == before + ([c] + rest);
  }

  /** `!text || text.trim() === ""`: the text is missing or all whitespace. */
  function IsBlank(text: Option<string>): (b: bool)
    ensures b <==> text.None? || ParseActions.AllSpace(text.value)
  {
    match text
    case None => true
    case Some(t) => ParseActions.TrimEmptyIffAllSpace(t); ParseActions.Trim(t) == ""
  }

  // ---------------------------------------------------------------------
  // The component
  // ---------------------------------------------------------------------

  class Uploader {
    const resumeId: string
    const userId: string
    const pathname: string
    const enableParsing: bool
    const bucket: Appwrite.Bucket
    const table: UploadActions.ResumeTable

    var uploadedFile: Option<UploadedFile>
    var isUploading: bool
    var isDeleting: bool
    var isParsing: bool
    var jobDescription: string
    var form: FormState
    var trace: seq<Call>

    /** Between two handler runs no busy flag is set. */
    ghost predicate Idle()
      reads this
    {
      !isUploading && !isDeleting && !isParsing
    }

    /** `enableParsing` defaults to `true`, as the component's prop does. */
    constructor (
      resumeId: string, userId: string, pathname: string, existingFile: Option<UploadedFile>,
      bucket: Appwrite.Bucket, table: UploadActions.ResumeTable, form: FormState,
      enableParsing: bool := true)
      ensures Idle()
      ensures this.resumeId == resumeId && this.userId == userId && this.pathname == pathname
      ensures this.enableParsing == enableParsing && this.bucket == bucket && this.table == table
      ensures uploadedFile == existingFile && jobDescription == "" && this.form == form && trace == []
    {
      this.resumeId := resumeId;
      this.userId := userId;
      this.pathname := pathname;
      this.enableParsing := enableParsing;
      this.bucket := bucket;
      this.table := table;
      uploadedFile := existingFile;
      isUploading, isDeleting, isParsing := false, false, false;
      jobDescription := "";
      this.form := form;
      trace := [];
    }

    /** The job-description text area. */
    method SetJobDescription(text: string)
      modifies this`jobDescription
      ensures jobDescription == text
    {
      jobDescription := text;
    }

    /** What a successful parse does: the scalar form fields, then each list
        with items (form first, then its awaited append call), then the
        profile update; the first call that throws ends the run. Only the
        form at the end of the run is modelled; the renders between the
        awaited calls are not, and each form edit is taken to build on the
        latest form. */
    method MergeParsedResume(p: ParseActions.ParsedResume, throws: Call -> bool) returns (failed: bool)
      modifies this`form, this`trace
      ensures trace == old(trace) + Issued(PersistPlan(resumeId, p), throws)
      ensures form == MergeParsed(old(form), resumeId, p, throws)
      ensures failed == !Completes(PersistPlan(resumeId, p), throws)
    {
      ghost var s, x, e := SkillsCall(resumeId, p), ExperienceCall(resumeId, p), EducationCall(resumeId, p);
      var f := form.(firstName := OrEmpty(p.firstName), lastName := OrEmpty(p.lastName),
                     jobTitle := OrEmpty(p.jobTitle), address := OrEmpty(p.address),
                     phone := OrEmpty(p.phone), email := OrEmpty(p.email),
                     summary := OrEmpty(p.summary));
      var issued: seq<Call> := [];
      failed := false;
      if HasItems(p.skills) {
        f := f.(skills := p.skills.value);
        issued := issued + [AddSkills(resumeId, p.skills.value)];
        failed := throws(AddSkills(resumeId, p.skills.value));
      }
      assert issued == s && failed == SkillsThrow(resumeId, p, throws);
      if !failed && HasItems(p.experience) {
        f := f.(experience := p.experience.value);
        issued := issued + [AddExperience(resumeId, p.experience.value)];
        failed := throws(AddExperience(resumeId, p.experience.value));
      }
      assert issued == if SkillsThrow(resumeId, p, throws) then s else s + x;
      assert failed == (SkillsThrow(resumeId, p, throws) || ExperienceThrows(resumeId, p, throws));
      if !failed && HasItems(p.education) {
        f := f.(education := p.education.value);
        issued := issued + [AddEducation(resumeId, p.education.value)];
        failed := throws(AddEducation(resumeId, p.education.value));
      }
      assert issued == if SkillsThrow(resumeId, p, throws) then s
                       else if ExperienceThrows(resumeId, p, throws) then s + x
                       else s + x + e;
      assert failed == (|| SkillsThrow(resumeId, p, throws) || ExperienceThrows(resumeId, p, throws)
                        || EducationThrows(resumeId, p, throws));
      assert f == MergeParsed(old(form), resumeId, p, throws);
      if !failed {
        issued := issued + [ProfileCall(resumeId, p)];
        failed := throws(ProfileCall(resumeId, p));
      }
      IssuedPlan(resumeId, p, throws);
      form := f;
      trace := trace + issued;
    }

    /** What one extraction run leaves behind: one extraction call, and for
        a record the persistence calls made from its plan and the merged
        form; no record leaves the form alone. */
    ghost predicate ExtractEffect(
      fileId: string, env: Env, oldTrace: seq<Call>, oldForm: FormState,
      newTrace: seq<Call>, newForm: FormState, o: ParseOutcome)
    {
      var extraction := ParseActions.ParseResumeWithGemini(
                          fileId, env.download, env.generate, env.parseJson);
      match extraction.result
      case None => o == NoResult && newTrace == oldTrace + [Extract(fileId)] && newForm == oldForm
      case Some(p) =>
        var plan := PersistPlan(resumeId, p);
        && newTrace == oldTrace + [Extract(fileId)] + Issued(plan, env.persistThrows)
        && newForm == MergeParsed(oldForm, resumeId, p, env.persistThrows)
        && o == (if Completes(plan, env.persistThrows) then Parsed else PersistFailed)
    }

    /** An extraction run always makes the extraction call first and never
        reports `Skipped`. */
    lemma ExtractionIsAttempted(
      fileId: string, env: Env, oldTrace: seq<Call>, oldForm: FormState,
      newTrace: seq<Call>, newForm: FormState, o: ParseOutcome)
      requires ExtractEffect(fileId, env, oldTrace, oldForm, newTrace, newForm, o)
      ensures |newTrace| > |oldTrace| && newTrace[..|oldTrace|] == oldTrace
      ensures newTrace[|oldTrace|] == Extract(fileId)
      ensures o != Skipped
    {
      var extraction := ParseActions.ParseResumeWithGemini(
                          fileId, env.download, env.generate, env.parseJson);
      var rest := if extraction.result.None? then []
                  else Issued(PersistPlan(resumeId, extraction.result.value), env.persistThrows);
      assert newTrace == oldTrace + [Extract(fileId)] + rest;
      CallAfter(oldTrace, Extract(fileId), rest);
    }

    /** What `parseResume` as written leaves behind: nothing at all for a
        blank job description, otherwise an extraction run. */
    ghost predicate ParseEffect(
      fileId: string, jd: Option<string>, env: Env, oldTrace: seq<Call>, oldForm: FormState,
      newTrace: seq<Call>, newForm: FormState, o: ParseOutcome)
    {
      if IsBlank(jd) then o == Skipped && newTrace == oldTrace && newForm == oldForm
      else ExtractEffect(fileId, env, oldTrace, oldForm, newTrace, newForm, o)
    }

    /** What the automatic parse after a saved upload leaves behind: as
        written, `parseResume(id)` with no job description; as intended, an
        extraction run of the new file. */
    ghost predicate AutoParseEffect(
      intended: bool, fileId: string, env: Env, oldTrace: seq<Call>, oldForm: FormState,
      newTrace: seq<Call>, newForm: FormState, o: ParseOutcome)
    {
      if intended then ExtractEffect(fileId, env, oldTrace, oldForm, newTrace, newForm, o)
      else ParseEffect(fileId, None, env, oldTrace, oldForm, newTrace, newForm, o)
    }

    /** The automatic parse after an upload passes no job description, so
        the code as written returns before the extractor every time. */
    lemma AutomaticParseNeverExtracts(
      fileId: string, env: Env, oldTrace: seq<Call>, oldForm: FormState,
      newTrace: seq<Call>, newForm: FormState, o: ParseOutcome)
      requires ParseEffect(fileId, None, env, oldTrace, oldForm, newTrace, newForm, o)
      ensures o == Skipped && newTrace == oldTrace && newForm == oldForm
      ensures forall i :: 0 <= i < |newTrace| ==> newTrace[i] == oldTrace[i]
    {
    }

    /** `parseResume(fileId)` without the blank-description guard: the job
        description is optional and the extractor never receives it.
        `isParsing` is false again at the end in every case. */
    method ParseResume(fileId: string, env: Env) returns (o: ParseOutcome)
      requires !isParsing
      modifies this`isParsing, this`trace, this`form
      ensures !isParsing
      ensures ExtractEffect(fileId, env, old(trace), old(form), trace, form, o)
    {
      isParsing := true;
      trace := trace + [Extract(fileId)];
      var extraction := ParseActions.ParseResumeWithGemini(
                          fileId, env.download, env.generate, env.parseJson);
      if extraction.result.None? {
        isParsing := false;
        return NoResult;
      }
      var failed := MergeParsedResume(extraction.result.value, env.persistThrows);
      o := if failed then PersistFailed else Parsed;
      isParsing := false;
    }

    /** `parseResume(fileId, currentJobDescription?)` as written: a blank or
        missing job description returns before the extractor. */
    method ParseResumeAsWritten(fileId: string, jd: Option<string>, env: Env) returns (o: ParseOutcome)
      requires !isParsing
      modifies this`isParsing, this`trace, this`form
      ensures !isParsing
      ensures ParseEffect(fileId, jd, env, old(trace), old(form), trace, form, o)
    {
      if jd.None? || ParseActions.Trim(jd.value) == "" {
        return Skipped;
      }
      o := ParseResume(fileId, env);
    }

    /** The storage half of an accepted upload: delete the recorded blob (if
        its id is non-empty), then upload the new one under the fresh id. */
    method StoreBlob(file: Appwrite.File, env: Env) returns (r: Result<Appwrite.UploadRecord, Appwrite.StorageError>)
      requires env.freshId !in bucket.files
      requires uploadedFile.Some? ==> env.freshId != uploadedFile.value.fileId
      modifies this`trace, bucket
      ensures var replaced := ReplacedId(uploadedFile);
              var deleteFails := replaced.Some? && (env.deleteRejected || replaced.value !in old(bucket.files));
              && trace == old(trace) + (if replaced.Some? then [DeleteBlob(replaced.value)] else [])
                                     + (if deleteFails then [] else [UploadBlob(file.name)])
              && bucket.log == old(bucket.log) + StorageCalls(replaced, old(bucket.files), userId, env)
              && bucket.files == (if deleteFails then old(bucket.files)
                                  else FilesAfterUpload(old(bucket.files), replaced, file, userId, env))
              && (r.Ok? <==> !deleteFails && !env.createRejected && !env.updateRejected)
              && (r.Ok? ==> r.value == Appwrite.UploadRecord(
                                         env.freshId, Appwrite.StoredFileName(env.freshId, file.name),
                                         file.name, file.size, file.mimeType))
    {
      var replaced := ReplacedId(uploadedFile);
      if replaced.Some? {
        trace := trace + [DeleteBlob(replaced.value)];
        var deleted := Appwrite.DeleteFile(bucket, replaced.value, env.deleteRejected);
        if deleted.Err? {
          return Err(deleted.error);
        }
      }
      trace := trace + [UploadBlob(file.name)];
      r := Appwrite.UploadFile(bucket, file, userId, env.freshId, env.createRejected, env.updateRejected);
    }

    /** `handleFileChange`: nothing without a file; a file of another type or
        over the size limit is refused before any call; otherwise the upload
        runs, with the automatic parse as written. */
    method HandleFileChange(selected: Option<Appwrite.File>, env: Env) returns (o: UploadOutcome)
      requires Idle()
      requires env.freshId !in bucket.files
      requires uploadedFile.Some? ==> env.freshId != uploadedFile.value.fileId
      modifies this`isUploading, this`isParsing, this`uploadedFile, this`trace, this`form, bucket, table
      ensures Idle()
      ensures table.revalidated == old(table.revalidated)
      ensures selected.None? || Validate(selected.value) != Accepted ==>
                && o == (if selected.None? then NoFileChosen
                         else if Validate(selected.value) == WrongType then InvalidType
                         else FileTooLarge)
                && trace == old(trace) && form == old(form) && uploadedFile == old(uploadedFile)
                && bucket.files == old(bucket.files) && bucket.log == old(bucket.log)
                && table.docs == old(table.docs)
      ensures selected.Some? && Validate(selected.value) == Accepted ==>
                && bucket.log == old(bucket.log)
                                 + StorageCalls(ReplacedId(old(uploadedFile)), old(bucket.files), userId, env)
                && UploadEffect(false, old(uploadedFile), old(bucket.files), old(table.docs), old(trace),
                                old(form), selected.value, env, uploadedFile, bucket.files, table.docs,
                                trace, form, o)
    {
      if selected.None? {
        return NoFileChosen;
      }
      var file := selected.value;
      if file.mimeType != PdfType && file.mimeType != DocxType {
        return InvalidType;
      }
      if file.size > MaxUploadSize {
        return FileTooLarge;
      }
      o := UploadAccepted(file, env);
    }

    /** What an accepted upload leaves behind, in terms of how far it got:
        the calls issued, the bucket, the resume collection, the recorded
        file, the form and the outcome. A run that got past the delete has
        removed the old blob even when it then failed; only a saved upload
        replaces the record (so a failed save leaves it pointing at a
        deleted blob); only a saved PDF with parsing enabled runs an
        extraction, on the new file. */
    ghost predicate UploadEffect(
      intended: bool, oldFile: Option<UploadedFile>, oldFiles: map<string, Appwrite.StoredFile>,
      oldDocs: map<string, UploadActions.ResumeDoc>, oldTrace: seq<Call>, oldForm: FormState,
      file: Appwrite.File, env: Env,
      newFile: Option<UploadedFile>, newFiles: map<string, Appwrite.StoredFile>,
      newDocs: map<string, UploadActions.ResumeDoc>, newTrace: seq<Call>, newForm: FormState,
      o: UploadOutcome)
    {
      var replaced := ReplacedId(oldFile);
      var stage := UploadStage(replaced, oldFiles, oldDocs, resumeId, file, env);
      var saved := UploadActions.UploadInfoOutcome(
                     oldDocs, resumeId, InfoFor(file, env.freshId), env.serverNow, env.dbFault);
      var uploaded := oldTrace + UploadTrace(replaced, file, resumeId, InfoFor(file, env.freshId), stage);
      var autoParse := stage == Saved && file.mimeType == PdfType && enableParsing;
      && newFiles == (if stage == BlobNotDeleted then oldFiles
                      else FilesAfterUpload(oldFiles, replaced, file, userId, env))
      && newDocs == (if stage == InfoNotSaved || stage == Saved then saved.1 else oldDocs)
      && newFile == (if stage == Saved
                     then Some(UploadedFile(env.freshId, Appwrite.StoredFileName(env.freshId, file.name),
                                            file.name, file.size, file.mimeType, Some(env.clientNow)))
                     else oldFile)
      && (stage != Saved ==> o == UploadFailed)
      && (stage == Saved ==> o.Uploaded? && (o.autoParse.Some? <==> autoParse))
      && (autoParse ==> AutoParseEffect(intended, env.freshId, env, uploaded, oldForm,
                                        newTrace, newForm, o.autoParse.value))
      && (!autoParse ==> newTrace == uploaded && newForm == oldForm)
      && (stage != BlobNotDeleted && replaced.Some? ==> replaced.value !in newFiles)
    }

    /** A replacement whose database update fails has already deleted the
        old blob, yet keeps the record of it: the upload fails, and the
        next replacement then fails at its delete. */
    lemma FailedSaveStrandsRecord(
      intended: bool, oldFile: Option<UploadedFile>, oldFiles: map<string, Appwrite.StoredFile>,
      oldDocs: map<string, UploadActions.ResumeDoc>, oldTrace: seq<Call>, oldForm: FormState,
      file: Appwrite.File, env: Env,
      newFile: Option<UploadedFile>, newFiles: map<string, Appwrite.StoredFile>,
      newDocs: map<string, UploadActions.ResumeDoc>, newTrace: seq<Call>, newForm: FormState,
      o: UploadOutcome, next: Appwrite.File, laterEnv: Env)
      requires UploadEffect(intended, oldFile, oldFiles, oldDocs, oldTrace, oldForm, file, env,
                            newFile, newFiles, newDocs, newTrace, newForm, o)
      requires ReplacedId(oldFile).Some?
      requires UploadStage(ReplacedId(oldFile), oldFiles, oldDocs, resumeId, file, env) == InfoNotSaved
      ensures o == UploadFailed && newFile == oldFile
      ensures ReplacedId(oldFile).value !in newFiles
      ensures UploadStage(ReplacedId(newFile), newFiles, newDocs, resumeId, next, laterEnv) == BlobNotDeleted
    {
      StaleRecordBlocksReplacement(newFile.value, newFiles, newDocs, resumeId, next, laterEnv);
    }

    /** An upload that is not a PDF, or not saved, or with parsing disabled,
        never calls the extractor. */
    lemma NoExtractionUnlessSavedPdf(
      intended: bool, oldFile: Option<UploadedFile>, oldFiles: map<string, Appwrite.StoredFile>,
      oldDocs: map<string, UploadActions.ResumeDoc>, oldTrace: seq<Call>, oldForm: FormState,
      file: Appwrite.File, env: Env,
      newFile: Option<UploadedFile>, newFiles: map<string, Appwrite.StoredFile>,
      newDocs: map<string, UploadActions.ResumeDoc>, newTrace: seq<Call>, newForm: FormState,
      o: UploadOutcome)
      requires UploadEffect(intended, oldFile, oldFiles, oldDocs, oldTrace, oldForm, file, env,
                            newFile, newFiles, newDocs, newTrace, newForm, o)
      requires file.mimeType != PdfType || !enableParsing
               || UploadStage(ReplacedId(oldFile), oldFiles, oldDocs, resumeId, file, env) != Saved
      ensures |newTrace| >= |oldTrace| && newTrace[..|oldTrace|] == oldTrace
      ensures forall i :: |oldTrace| <= i < |newTrace| ==> !newTrace[i].Extract?
      ensures newForm == oldForm
    {
      var replaced := ReplacedId(oldFile);
      var stage := UploadStage(replaced, oldFiles, oldDocs, resumeId, file, env);
      var t := UploadTrace(replaced, file, resumeId, InfoFor(file, env.freshId), stage);
      UploadTraceOrder(replaced, file, resumeId, InfoFor(file, env.freshId), stage);
      assert newTrace == oldTrace + t;
      forall i | |oldTrace| <= i < |newTrace| ensures !newTrace[i].Extract? {
        assert newTrace[i] == t[i - |oldTrace|];
      }
    }

    /** As written, no upload ever calls the extractor or changes the form:
        the calls are the storage and database ones, and a saved PDF with
        parsing enabled reports the automatic parse as skipped. */
    lemma UploadAsWrittenNeverExtracts(
      oldFile: Option<UploadedFile>, oldFiles: map<string, Appwrite.StoredFile>,
      oldDocs: map<string, UploadActions.ResumeDoc>, oldTrace: seq<Call>, oldForm: FormState,
      file: Appwrite.File, env: Env,
      newFile: Option<UploadedFile>, newFiles: map<string, Appwrite.StoredFile>,
      newDocs: map<string, UploadActions.ResumeDoc>, newTrace: seq<Call>, newForm: FormState,
      o: UploadOutcome)
      requires UploadEffect(false, oldFile, oldFiles, oldDocs, oldTrace, oldForm, file, env,
                            newFile, newFiles, newDocs, newTrace, newForm, o)
      ensures var stage := UploadStage(ReplacedId(oldFile), oldFiles, oldDocs, resumeId, file, env);
              newTrace == oldTrace + UploadTrace(ReplacedId(oldFile), file, resumeId,
                                                 InfoFor(file, env.freshId), stage)
      ensures forall i :: |oldTrace| <= i < |newTrace| ==> !newTrace[i].Extract?
      ensures newForm == oldForm
      ensures file.mimeType == PdfType && enableParsing
              && UploadStage(ReplacedId(oldFile), oldFiles, oldDocs, resumeId, file, env) == Saved
              ==> o == Uploaded(Some(Skipped))
    {
      var replaced := ReplacedId(oldFile);
      var stage := UploadStage(replaced, oldFiles, oldDocs, resumeId, file, env);
      var t := UploadTrace(replaced, file, resumeId, InfoFor(file, env.freshId), stage);
      UploadTraceOrder(replaced, file, resumeId, InfoFor(file, env.freshId), stage);
      assert newTrace == oldTrace + t;
      forall i | |oldTrace| <= i < |newTrace| ensures !newTrace[i].Extract? {
        assert newTrace[i] == t[i - |oldTrace|];
      }
    }

    /** With the corrected parse, a saved PDF upload with parsing enabled
        calls the extractor on the new file right after its own calls, and
        reports the parse outcome. */
    lemma SavedPdfIsExtracted(
      oldFile: Option<UploadedFile>, oldFiles: map<string, Appwrite.StoredFile>,
      oldDocs: map<string, UploadActions.ResumeDoc>, oldTrace: seq<Call>, oldForm: FormState,
      file: Appwrite.File, env: Env,
      newFile: Option<UploadedFile>, newFiles: map<string, Appwrite.StoredFile>,
      newDocs: map<string, UploadActions.ResumeDoc>, newTrace: seq<Call>, newForm: FormState,
      o: UploadOutcome)
      requires UploadEffect(true, oldFile, oldFiles, oldDocs, oldTrace, oldForm, file, env,
                            newFile, newFiles, newDocs, newTrace, newForm, o)
      requires file.mimeType == PdfType && enableParsing
      requires UploadStage(ReplacedId(oldFile), oldFiles, oldDocs, resumeId, file, env) == Saved
      ensures var n := |oldTrace| + |UploadTrace(ReplacedId(oldFile), file, resumeId,
                                                 InfoFor(file, env.freshId), Saved)|;
              && |newTrace| > n && newTrace[n] == Extract(env.freshId)
      ensures o.Uploaded? && o.autoParse.Some? && o.autoParse.value != Skipped
    {
      var uploaded := oldTrace + UploadTrace(ReplacedId(oldFile), file, resumeId,
                                             InfoFor(file, env.freshId), Saved);
      ExtractionIsAttempted(env.freshId, env, uploaded, oldForm, newTrace, newForm, o.autoParse.value);
    }

    /** An accepted file: store the blob, then record it on the resume; a
        saved PDF with parsing enabled then runs `parseResume(id)` as
        written, which returns at its guard. */
    method UploadAccepted(file: Appwrite.File, env: Env) returns (o: UploadOutcome)
      requires Idle()
      requires env.freshId !in bucket.files
      requires uploadedFile.Some? ==> env.freshId != uploadedFile.value.fileId
      modifies this`isUploading, this`isParsing, this`uploadedFile, this`trace, this`form, bucket, table
      ensures Idle()
      ensures table.revalidated == old(table.revalidated)
      ensures bucket.log == old(bucket.log) + StorageCalls(ReplacedId(old(uploadedFile)), old(bucket.files), userId, env)
      ensures UploadEffect(false, old(uploadedFile), old(bucket.files), old(table.docs), old(trace), old(form),
                           file, env, uploadedFile, bucket.files, table.docs, trace, form, o)
    {
      isUploading := true;
      ghost var replaced := ReplacedId(uploadedFile);
      ghost var stage := UploadStage(replaced, bucket.files, table.docs, resumeId, file, env);
      ghost var before := trace;
      var response := StoreBlob(file, env);
      if response.Err? {
        assert trace == before + UploadTrace(replaced, file, resumeId, InfoFor(file, env.freshId), stage);
        isUploading := false;
        return UploadFailed;
      }
      ghost var stored := trace;
      o := RecordUpload(file, response.value, env);
      StoredThenRecorded(false, old(uploadedFile), old(bucket.files), old(table.docs), old(trace), old(form),
                         file, env, stored, uploadedFile, bucket.files, table.docs, trace, form, o);
      isUploading := false;
    }

    /** `UploadAccepted` with the corrected automatic parse: a saved PDF
        with parsing enabled runs an extraction of the new file. */
    method UploadAcceptedIntended(file: Appwrite.File, env: Env) returns (o: UploadOutcome)
      requires Idle()
      requires env.freshId !in bucket.files
      requires uploadedFile.Some? ==> env.freshId != uploadedFile.value.fileId
      modifies this`isUploading, this`isParsing, this`uploadedFile, this`trace, this`form, bucket, table
      ensures Idle()
      ensures table.revalidated == old(table.revalidated)
      ensures bucket.log == old(bucket.log) + StorageCalls(ReplacedId(old(uploadedFile)), old(bucket.files), userId, env)
      ensures UploadEffect(true, old(uploadedFile), old(bucket.files), old(table.docs), old(trace), old(form),
                           file, env, uploadedFile, bucket.files, table.docs, trace, form, o)
    {
      isUploading := true;
      ghost var replaced := ReplacedId(uploadedFile);
      ghost var stage := UploadStage(replaced, bucket.files, table.docs, resumeId, file, env);
      ghost var before := trace;
      var response := StoreBlob(file, env);
      if response.Err? {
        assert trace == before + UploadTrace(replaced, file, resumeId, InfoFor(file, env.freshId), stage);
        isUploading := false;
        return UploadFailed;
      }
      ghost var stored := trace;
      o := RecordUploadIntended(file, response.value, env);
      StoredThenRecorded(true, old(uploadedFile), old(bucket.files), old(table.docs), old(trace), old(form),
                         file, env, stored, uploadedFile, bucket.files, table.docs, trace, form, o);
      isUploading := false;
    }

    /** What the database half of an accepted upload leaves behind: the
        save is requested; only a successful save records the file; only a
        saved PDF with parsing enabled runs the automatic parse. */
    ghost predicate RecordEffect(
      intended: bool, oldFile: Option<UploadedFile>, oldDocs: map<string, UploadActions.ResumeDoc>,
      oldTrace: seq<Call>, oldForm: FormState, file: Appwrite.File, env: Env,
      newFile: Option<UploadedFile>, newDocs: map<string, UploadActions.ResumeDoc>,
      newTrace: seq<Call>, newForm: FormState, o: UploadOutcome)
    {
      var saved := UploadActions.UploadInfoOutcome(
                     oldDocs, resumeId, InfoFor(file, env.freshId), env.serverNow, env.dbFault);
      var requested := oldTrace + [SaveUploadInfo(resumeId, InfoFor(file, env.freshId))];
      var autoParse := saved.0.Success? && file.mimeType == PdfType && enableParsing;
      && newDocs == saved.1
      && newFile == (if saved.0.Success?
                     then Some(UploadedFile(env.freshId, Appwrite.StoredFileName(env.freshId, file.name),
                                            file.name, file.size, file.mimeType, Some(env.clientNow)))
                     else oldFile)
      && (saved.0.Failure? ==> o == UploadFailed)
      && (saved.0.Success? ==> o.Uploaded? && (o.autoParse.Some? <==> autoParse))
      && (autoParse ==> AutoParseEffect(intended, env.freshId, env, requested, oldForm,
                                        newTrace, newForm, o.autoParse.value))
      && (!autoParse ==> newTrace == requested && newForm == oldForm)
    }

    /** A stored blob followed by the database half is the whole effect of
        an upload that got past the storage calls. */
    lemma StoredThenRecorded(
      intended: bool, oldFile: Option<UploadedFile>, oldFiles: map<string, Appwrite.StoredFile>,
      oldDocs: map<string, UploadActions.ResumeDoc>, oldTrace: seq<Call>, oldForm: FormState,
      file: Appwrite.File, env: Env, storedTrace: seq<Call>,
      newFile: Option<UploadedFile>, newFiles: map<string, Appwrite.StoredFile>,
      newDocs: map<string, UploadActions.ResumeDoc>, newTrace: seq<Call>, newForm: FormState,
      o: UploadOutcome)
      requires ReplacedId(oldFile).Some? ==> !env.deleteRejected && ReplacedId(oldFile).value in oldFiles
      requires !env.createRejected && !env.updateRejected
      requires oldFile.Some? ==> env.freshId != oldFile.value.fileId
      requires storedTrace == oldTrace + (if ReplacedId(oldFile).Some? then [DeleteBlob(ReplacedId(oldFile).value)] else [])
                                       + [UploadBlob(file.name)]
      requires newFiles == FilesAfterUpload(oldFiles, ReplacedId(oldFile), file, userId, env)
      requires RecordEffect(intended, oldFile, oldDocs, storedTrace, oldForm, file, env,
                            newFile, newDocs, newTrace, newForm, o)
      ensures UploadEffect(intended, oldFile, oldFiles, oldDocs, oldTrace, oldForm, file, env,
                           newFile, newFiles, newDocs, newTrace, newForm, o)
    {
      var replaced := ReplacedId(oldFile);
      var stage := UploadStage(replaced, oldFiles, oldDocs, resumeId, file, env);
      assert storedTrace + [SaveUploadInfo(resumeId, InfoFor(file, env.freshId))]
          == oldTrace + UploadTrace(replaced, file, resumeId, InfoFor(file, env.freshId), stage);
    }

    /** The database half of an accepted upload: save the stored file's
        record on the resume; on success show it and, for a PDF with parsing
        enabled, call `parseResume(id)` as written, with no job description. */
    method RecordUpload(file: Appwrite.File, stored: Appwrite.UploadRecord, env: Env)
      returns (o: UploadOutcome)
      requires !isParsing
      requires stored == Appwrite.UploadRecord(env.freshId, Appwrite.StoredFileName(env.freshId, file.name),
                                               file.name, file.size, file.mimeType)
      modifies this`isParsing, this`uploadedFile, this`trace, this`form, table
      ensures !isParsing
      ensures table.revalidated == old(table.revalidated)
      ensures RecordEffect(false, old(uploadedFile), old(table.docs), old(trace), old(form), file, env,
                           uploadedFile, table.docs, trace, form, o)
    {
      var info := UploadedFile(
        stored.id, stored.name, stored.originalName, stored.size, stored.mimeType, Some(env.clientNow));
      var record := UploadActions.UploadInfo(
        info.fileId, info.fileName, info.originalName, info.size, info.mimeType);
      trace := trace + [SaveUploadInfo(resumeId, record)];
      var result := table.UpdateResumeUploadInfo(resumeId, record, env.serverNow, env.dbFault);
      if result.Success? {
        uploadedFile := Some(info);
        var autoParse := None;
        if file.mimeType == PdfType && enableParsing {
          var parsed := ParseResumeAsWritten(stored.id, None, env);
          autoParse := Some(parsed);
        }
        o := Uploaded(autoParse);
      } else {
        o := UploadFailed;
      }
    }

    /** `RecordUpload` with the corrected automatic parse: an extraction run
        of the new file. */
    method RecordUploadIntended(file: Appwrite.File, stored: Appwrite.UploadRecord, env: Env)
      returns (o: UploadOutcome)
      requires !isParsing
      requires stored == Appwrite.UploadRecord(env.freshId, Appwrite.StoredFileName(env.freshId, file.name),
                                               file.name, file.size, file.mimeType)
      modifies this`isParsing, this`uploadedFile, this`trace, this`form, table
      ensures !isParsing
      ensures table.revalidated == old(table.revalidated)
      ensures RecordEffect(true, old(uploadedFile), old(table.docs), old(trace), old(form), file, env,
                           uploadedFile, table.docs, trace, form, o)
    {
      var info := UploadedFile(
        stored.id, stored.name, stored.originalName, stored.size, stored.mimeType, Some(env.clientNow));
      var record := UploadActions.UploadInfo(
        info.fileId, info.fileName, info.originalName, info.size, info.mimeType);
      trace := trace + [SaveUploadInfo(resumeId, record)];
      var result := table.UpdateResumeUploadInfo(resumeId, record, env.serverNow, env.dbFault);
      if result.Success? {
        uploadedFile := Some(info);
        var autoParse := None;
        if file.mimeType == PdfType && enableParsing {
          var parsed := ParseResume(stored.id, env);
          autoParse := Some(parsed);
        }
        o := Uploaded(autoParse);
      } else {
        o := UploadFailed;
      }
    }

    /** `handleDeleteFile`: nothing without a recorded file; otherwise the
        storage delete, then the database update, and the record is cleared
        only when that update succeeds. */
    method HandleDeleteFile(env: Env) returns (o: DeleteOutcome)
      requires Idle()
      modifies this, bucket, table
      ensures Idle()
      ensures form == old(form) && jobDescription == old(jobDescription)
      ensures old(uploadedFile).None? ==>
                && o == NothingToDelete && trace == old(trace) && uploadedFile == old(uploadedFile)
                && bucket.files == old(bucket.files) && bucket.log == old(bucket.log)
                && table.docs == old(table.docs) && table.revalidated == old(table.revalidated)
      ensures old(uploadedFile).Some? ==>
                var id := old(uploadedFile).value.fileId;
                var blobDeleted := !env.deleteRejected && id in old(bucket.files);
                var removal := UploadActions.RemoveOutcome(old(table.docs), resumeId, env.dbFault);
                var cleared := blobDeleted && removal.0.Success?;
                && trace == old(trace) + [DeleteBlob(id)] + (if blobDeleted then [RemoveUploadInfo(resumeId)] else [])
                && bucket.log == old(bucket.log) + [Appwrite.DeleteCall(id)]
                && bucket.files == (if blobDeleted then old(bucket.files) - {id} else old(bucket.files))
                && table.docs == (if blobDeleted then removal.1 else old(table.docs))
                && table.revalidated == (if cleared then old(table.revalidated) + [pathname]
                                         else old(table.revalidated))
                && uploadedFile == (if cleared then None else old(uploadedFile))
                && o == (if cleared then Deleted else DeleteFailed)
    {
      if uploadedFile.None? {
        return NothingToDelete;
      }
      isDeleting := true;
      var id := uploadedFile.value.fileId;
      trace := trace + [DeleteBlob(id)];
      var deleted := Appwrite.DeleteFile(bucket, id, env.deleteRejected);
      if deleted.Err? {
        isDeleting := false;
        return DeleteFailed;
      }
      trace := trace + [RemoveUploadInfo(resumeId)];
      var result := table.RemoveUploadedResume(resumeId, pathname, env.dbFault);
      if result.Success? {
        uploadedFile := None;
        o := Deleted;
      } else {
        o := DeleteFailed;
      }
      isDeleting := false;
    }

    /** The "Parse CV" button, shown only for a recorded PDF with parsing
        enabled: `parseResume(fileId, jobDescription)` as written, so a
        blank text area (as it starts) does nothing. */
    method ParseCv(env: Env) returns (o: ParseOutcome)
      requires Idle()
      requires uploadedFile.Some? && uploadedFile.value.mimeType == PdfType && enableParsing
      modifies this`isParsing, this`trace, this`form
      ensures Idle()
      ensures ParseEffect(uploadedFile.value.fileId, Some(jobDescription), env, old(trace), old(form), trace, form, o)
      ensures IsBlank(Some(jobDescription)) ==> o == Skipped && trace == old(trace) && form == old(form)
    {
      o := ParseResumeAsWritten(uploadedFile.value.fileId, Some(jobDescription), env);
    }

    /** `ParseCv` with the corrected parse: an extraction run of the
        recorded file, whatever the text area holds. */
    method ParseCvIntended(env: Env) returns (o: ParseOutcome)
      requires Idle()
      requires uploadedFile.Some? && uploadedFile.value.mimeType == PdfType && enableParsing
      modifies this`isParsing, this`trace, this`form
      ensures Idle()
      ensures ExtractEffect(uploadedFile.value.fileId, env, old(trace), old(form), trace, form, o)
    {
      o := ParseResume(uploadedFile.value.fileId, env);
    }
  }
}

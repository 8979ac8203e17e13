/**
 * The business rules of the job handlers: the not-found checks, the ownership
 * rule of update and delete, the best-effort resume cleanup of delete, and the
 * guard chain, file naming and applicant append of apply.
 *
 * The job collection is a `JobStore` whose map plays the database: a lookup by
 * id is `findById`, removing a key is `findByIdAndDelete`. The clock, the
 * outcome of `file.mv` and the outcome of each `fs.unlink` are inputs.
 */
module JobsController {
  import opened Common
  import opened Strings

  /** One entry of `applicantsApplied`. */
  datatype Applicant = Applicant(id: string, resume: string)

  /** The authenticated caller, `req.user`. */
  datatype Caller = Caller(id: string, name: string, role: string)

  /** An uploaded file as the upload middleware exposes it. */
  datatype UploadedFile = UploadedFile(name: string, size: int)

  /** One `fs.unlink` call: the path it was given and whether it succeeded
      (a failure is only logged). */
  datatype Removal = Removal(path: string, ok: bool)

  /** The fields of an update body that this model tracks; `None` leaves the
      field as it is. */
  datatype JobPatch = JobPatch(
    user: Option<string>,
    slug: Option<string>,
    lastDate: Option<int>,
    applicants: Option<seq<Applicant>>)

  const JobNotFound := AppError("Job not found", Some(404))
  const ApplyJobNotFound := AppError("job not found.", Some(404))
  const DateOver := AppError("You can not apply to this job, date is over.", Some(400))
  const AlreadyApplied := AppError("You have already applied to this job.", Some(400))
  const NoFile := AppError("Please upload file.", Some(400))
  /** Reading `.name` of an absent `req.files.file` throws a TypeError, which
      reaches the error middleware without a status. */
  const MissingFileField := AppError("Cannot read properties of undefined (reading 'name')", None)
  const BadFileType := AppError("PLease upload proper document file.", Some(400))
  const FileTooLarge := AppError("Please upload file less than 2mb.", Some(400))
  const UploadFailed := AppError("Resume upload failed", Some(500))

  /** The error update and delete give a caller who is neither owner nor admin. */
  function NotAllowed(callerId: string, action: string): (e: AppError)
    ensures e.status == Some(400)
  {
    AppError("User(" + callerId + ") is not allowed to " + action + " this job.", Some(400))
  }

  /** The ownership rule: the job's owner or an admin may change it. */
  predicate MayMutate(owner: string, caller: Caller)
  {
    owner == caller.id || caller.role == "admin"
  }

  /** Some entry of the applicant list carries this user id. */
  predicate Applied(applicants: seq<Applicant>, id: string)
  {
    exists j :: 0 <= j < |applicants| && applicants[j].id == id
  }

  /** No user id appears twice in the applicant list. */
  predicate UniqueIds(applicants: seq<Applicant>)
  {
    forall i, j :: 0 <= i < j < |applicants| ==> applicants[i].id != applicants[j].id
  }

  /** `file.size > process.env.MAX_FILE_SIZE`. The limit is an environment
      string compared as a number. `None` stands for an unset limit, or one that
      `Number` reads as NaN (such as `2mb`), against which the comparison is
      always false; an empty or blank value reads as `Some(0)`. */
  predicate TooLarge(size: int, maxSize: Option<int>)
  {
    maxSize.Some? && size > maxSize.value
  }

  /** The stored resume name: the caller's name with its first space turned
      into `_`, then `_`, the job id and the original extension. */
  function StoredName(userName: string, jobId: string, fileName: string): (r: string)
  {
    ReplaceFirst(userName, " ", "_") + ("_" + jobId + ExtName(fileName))
  }

  /** The parts of a stored name: the caller's name, character for character
      except that its first space reads `_`, then `_`, the job id and the
      extension of the uploaded file. */
  lemma StoredNameShape(userName: string, jobId: string, fileName: string)
    ensures var r := StoredName(userName, jobId, fileName);
      |r| == |userName| + 1 + |jobId| + |ExtName(fileName)| &&
      (forall k :: 0 <= k < |userName| ==> r[k] == if FirstSpaceAt(userName, k) then '_' else userName[k]) &&
      r[|userName|..] == "_" + jobId + ExtName(fileName)
  {
    FirstSpaceToUnderscore(userName);
    var u := ReplaceFirst(userName, " ", "_");
    var tail := "_" + jobId + ExtName(fileName);
    var r := StoredName(userName, jobId, fileName);
    assert r == u + tail;
    assert r[|u|..] == tail;
    forall k | 0 <= k < |userName|
      ensures r[k] == u[k]
    {
    }
  }

  /** The path delete hands to `fs.unlink`: the uploads directory under the
      handler's own directory, with the first `\controllers` removed. */
  function ResumePath(dirname: string, resume: string): (r: string)
    ensures |r| == |dirname| + 16 + |resume| || |r| == |dirname| + 4 + |resume|
  {
    ReplaceFirst(dirname + "/public/uploads/" + resume, "\\controllers", "")
  }

  /** The file under key `file` of `req.files`, when there is one. */
  function Upload(files: Option<map<string, UploadedFile>>): (f: Option<UploadedFile>)
    ensures f.Some? <==> files.Some? && "file" in files.value
    ensures f.Some? ==> f.value == files.value["file"]
  {
    if files.Some? && "file" in files.value then Some(files.value["file"]) else None
  }

  /** What an application to a job with deadline `lastDate` and applicant
      list `applicants` leads to: the first failing guard's error, or the
      stored resume name. */
  function Admission(lastDate: int, applicants: seq<Applicant>, jobId: string, now: int, caller: Caller,
                     files: Option<map<string, UploadedFile>>, maxSize: Option<int>, moveOk: bool): (r: Result<string>)
    ensures r.Err? ==> r.error in {DateOver, AlreadyApplied, NoFile, MissingFileField, BadFileType, FileTooLarge, UploadFailed}
    ensures r.Ok? ==> Upload(files).Some? && r.value == StoredName(caller.name, jobId, Upload(files).value.name)
  {
    if lastDate < now then Err(DateOver)
    else if Applied(applicants, caller.id) then Err(AlreadyApplied)
    else if files.None? then Err(NoFile)
    else if Upload(files).None? then Err(MissingFileField)
    else if !SupportedFileTest(ExtName(Upload(files).value.name)) then Err(BadFileType)
    else if TooLarge(Upload(files).value.size, maxSize) then Err(FileTooLarge)
    else if !moveOk then Err(UploadFailed)
    else Ok(StoredName(caller.name, jobId, Upload(files).value.name))
  }

  /** A job document, with the fields the handlers' rules read or write. */
  class Job {
    const id: string
    var user: string
    var slug: string
    var lastDate: int
    var applicants: seq<Applicant>

    constructor (id: string, user: string, slug: string, lastDate: int, applicants: seq<Applicant>)
      ensures this.id == id && this.user == user && this.slug == slug && this.lastDate == lastDate
      ensures this.applicants == applicants
    {
      this.id := id;
      this.user := user;
      this.slug := slug;
      this.lastDate := lastDate;
      this.applicants := applicants;
    }
  }

  /** The job collection, keyed by id. */
  class JobStore {
    var jobs: map<string, Job>

    /** Every job sits under its own id. */
    ghost predicate Valid()
      reads this
    {
      forall k :: k in jobs ==> jobs[k].id == k
    }

    constructor ()
      ensures Valid() && jobs == map[]
    {
      jobs := map[];
    }

    /** `newJob`: the caller becomes the owner, whatever the body says; the
        other fields are stored as the body gives them, and a body without an
        applicant list starts with none. The database supplies a fresh id. */
    method NewJob(id: string, caller: Caller, slug: string, lastDate: int, applicants: Option<seq<Applicant>>)
      returns (job: Job)
      requires Valid() && id !in jobs
      modifies this
      ensures Valid() && fresh(job)
      ensures jobs == old(jobs)[id := job]
      ensures job.id == id && job.user == caller.id && job.slug == slug && job.lastDate == lastDate
      ensures job.applicants == if applicants.Some? then applicants.value else []
    {
      job := new Job(id, caller.id, slug, lastDate, if applicants.Some? then applicants.value else []);
      jobs := jobs[id := job];
    }

    /** `getJob`: the job whose id AND slug both match, or 404. */
    method GetJob(id: string, slug: string) returns (r: Result<Job>)
      requires Valid()
      ensures r.Ok? <==> id in jobs && jobs[id].slug == slug
      ensures r.Ok? ==> r.value == jobs[id] && r.value.id == id && r.value.slug == slug
      ensures r.Err? ==> r.error == JobNotFound
    {
      if id in jobs && jobs[id].slug == slug {
        r := Ok(jobs[id]);
      } else {
        r := Err(JobNotFound);
      }
    }

    /** `updateJob`: 404 for a missing job, then the ownership rule, then the
        fields of the body replace the stored ones. */
    method UpdateJob(id: string, caller: Caller, patch: JobPatch) returns (r: Result<string>)
      requires Valid()
      modifies if id in jobs then {jobs[id]} else {}
      ensures Valid()
      ensures id !in jobs ==> r == Err(JobNotFound)
      ensures id in jobs && !MayMutate(old(jobs[id].user), caller) ==>
                r == Err(NotAllowed(caller.id, "update")) && unchanged(jobs[id])
      ensures id in jobs && MayMutate(old(jobs[id].user), caller) ==>
                r == Ok("Job is updated.") &&
                jobs[id].user == (if patch.user.Some? then patch.user.value else old(jobs[id].user)) &&
                jobs[id].slug == (if patch.slug.Some? then patch.slug.value else old(jobs[id].slug)) &&
                jobs[id].lastDate == (if patch.lastDate.Some? then patch.lastDate.value else old(jobs[id].lastDate)) &&
                jobs[id].applicants == (if patch.applicants.Some? then patch.applicants.value else old(jobs[id].applicants))
    {
      if id !in jobs {
        return Err(JobNotFound);
      }
      var job := jobs[id];
      if job.user != caller.id && caller.role != "admin" {
        return Err(NotAllowed(caller.id, "update"));
      }
      if patch.user.Some? { job.user := patch.user.value; }
      if patch.slug.Some? { job.slug := patch.slug.value; }
      if patch.lastDate.Some? { job.lastDate := patch.lastDate.value; }
      if patch.applicants.Some? { job.applicants := patch.applicants.value; }
      r := Ok("Job is updated.");
    }

    /** `deleteJob`: 404 for a missing job, then the ownership rule; an
        authorised delete issues one `fs.unlink` per applicant, in list order,
        for that applicant's resume, and removes the job whatever those calls
        return. */
    method DeleteJob(id: string, caller: Caller, dirname: string, unlinkOk: string -> bool)
      returns (r: Result<string>, removals: seq<Removal>)
      requires Valid()
      modifies this
      ensures Valid()
      ensures id !in old(jobs) ==> r == Err(JobNotFound) && removals == [] && jobs == old(jobs)
      ensures id in old(jobs) && !MayMutate(old(jobs)[id].user, caller) ==>
                r == Err(NotAllowed(caller.id, "delete")) && removals == [] && jobs == old(jobs)
      ensures id in old(jobs) && MayMutate(old(jobs)[id].user, caller) ==>
                r == Ok("Job is deleted.") && jobs == old(jobs) - {id} &&
                |removals| == |old(jobs)[id].applicants| &&
                forall k :: 0 <= k < |removals| ==>
                  removals[k].path == ResumePath(dirname, old(jobs)[id].applicants[k].resume) &&
                  removals[k].ok == unlinkOk(removals[k].path)
    {
      removals := [];
      if id !in jobs {
        return Err(JobNotFound), removals;
      }
      var job := jobs[id];
      if job.user != caller.id && caller.role != "admin" {
        return Err(NotAllowed(caller.id, "delete")), removals;
      }
      var i := 0;
      while i < |job.applicants|
        invariant 0 <= i <= |job.applicants|
        invariant |removals| == i
        invariant forall k :: 0 <= k < i ==>
                    removals[k].path == ResumePath(dirname, job.applicants[k].resume) &&
                    removals[k].ok == unlinkOk(removals[k].path)
      {
        var path := ResumePath(dirname, job.applicants[i].resume);
        removals := removals + [Removal(path, unlinkOk(path))];
        i := i + 1;
      }
      jobs := jobs - {id};
      r := Ok("Job is deleted.");
    }

    /** `applyJob`: 404 for a missing job, then the guard chain of
        `Admission`; on success exactly one entry, the caller with the stored
        resume name, is appended at the end, and on any error the list is
        unchanged. */
    method ApplyJob(id: string, now: int, caller: Caller, files: Option<map<string, UploadedFile>>,
                    maxSize: Option<int>, moveOk: bool) returns (r: Result<string>)
      requires Valid()
      modifies if id in jobs then {jobs[id]} else {}
      ensures Valid()
      ensures id !in jobs ==> r == Err(ApplyJobNotFound)
      ensures id in jobs ==>
                r == Admission(old(jobs[id].lastDate), old(jobs[id].applicants), id, now, caller, files, maxSize, moveOk)
      ensures id in jobs && r.Ok? ==> jobs[id].applicants == old(jobs[id].applicants) + [Applicant(caller.id, r.value)]
      ensures id in jobs && r.Err? ==> jobs[id].applicants == old(jobs[id].applicants)
      ensures id in jobs ==>
                jobs[id].user == old(jobs[id].user) && jobs[id].slug == old(jobs[id].slug) &&
                jobs[id].lastDate == old(jobs[id].lastDate)
    {
      if id !in jobs {
        return Err(ApplyJobNotFound);
      }
      var job := jobs[id];
      r := CheckApplication(job.lastDate, job.applicants, job.id, now, caller, files, maxSize, moveOk);
      if r.Ok? {
        job.applicants := job.applicants + [Applicant(caller.id, r.value)];
      }
    }
  }

  /** The checks of `applyJob` in their order, with its linear scan of the
      applicant list, up to the outcome of moving the file. */
  method CheckApplication(lastDate: int, applicants: seq<Applicant>, jobId: string, now: int, caller: Caller,
                          files: Option<map<string, UploadedFile>>, maxSize: Option<int>, moveOk: bool)
    returns (r: Result<string>)
    ensures r == Admission(lastDate, applicants, jobId, now, caller, files, maxSize, moveOk)
  {
    if lastDate < now {
      return Err(DateOver);
    }
    var i := 0;
    while i < |applicants|
      invariant 0 <= i <= |applicants|
      invariant forall j :: 0 <= j < i ==> applicants[j].id != caller.id
    {
      if applicants[i].id == caller.id {
        return Err(AlreadyApplied);
      }
      i := i + 1;
    }
    if files.None? {
      return Err(NoFile);
    }
    if "file" !in files.value {
      return Err(MissingFileField);
    }
    var file := files.value["file"];
    if !SupportedFileTest(ExtName(file.name)) {
      return Err(BadFileType);
    }
    if TooLarge(file.size, maxSize) {
      return Err(FileTooLarge);
    }
    var newName := StoredName(caller.name, jobId, file.name);
    if !moveOk {
      return Err(UploadFailed);
    }
    r := Ok(newName);
  }

  /** The deadline decides first, and strictly: an application on the last
      date itself is not late. */
  lemma DeadlineIsStrict(lastDate: int, applicants: seq<Applicant>, jobId: string, now: int, caller: Caller,
                         files: Option<map<string, UploadedFile>>, maxSize: Option<int>, moveOk: bool)
    ensures (Admission(lastDate, applicants, jobId, now, caller, files, maxSize, moveOk) == Err(DateOver))
              == (lastDate < now)
  {
    var r := Admission(lastDate, applicants, jobId, now, caller, files, maxSize, moveOk);
    if now <= lastDate {
      assert r.Err? ==> r.error in {AlreadyApplied, NoFile, MissingFileField, BadFileType, FileTooLarge, UploadFailed};
    }
  }

  /** Each error is reached exactly when every earlier guard has passed and
      its own guard failed: the first failing guard decides, and an
      application that passes every guard is accepted. */
  lemma GuardsInOrder(lastDate: int, applicants: seq<Applicant>, jobId: string, now: int, caller: Caller,
                      files: Option<map<string, UploadedFile>>, maxSize: Option<int>, moveOk: bool)
    ensures var r := Admission(lastDate, applicants, jobId, now, caller, files, maxSize, moveOk);
      (r == Err(AlreadyApplied) ==> now <= lastDate && Applied(applicants, caller.id)) &&
      (r == Err(NoFile) ==> now <= lastDate && !Applied(applicants, caller.id) && files.None?) &&
      (r == Err(MissingFileField) ==>
         now <= lastDate && !Applied(applicants, caller.id) && files.Some? && Upload(files).None?) &&
      (r == Err(BadFileType) ==>
         now <= lastDate && !Applied(applicants, caller.id) && Upload(files).Some? &&
         !SupportedFileTest(ExtName(Upload(files).value.name))) &&
      (r == Err(FileTooLarge) ==>
         now <= lastDate && !Applied(applicants, caller.id) && Upload(files).Some? &&
         SupportedFileTest(ExtName(Upload(files).value.name)) && TooLarge(Upload(files).value.size, maxSize)) &&
      (r == Err(UploadFailed) ==>
         now <= lastDate && !Applied(applicants, caller.id) && Upload(files).Some? &&
         SupportedFileTest(ExtName(Upload(files).value.name)) && !TooLarge(Upload(files).value.size, maxSize) &&
         !moveOk)
    ensures var r := Admission(lastDate, applicants, jobId, now, caller, files, maxSize, moveOk);
      var passed := now <= lastDate && !Applied(applicants, caller.id);
      (now <= lastDate && Applied(applicants, caller.id) ==> r == Err(AlreadyApplied)) &&
      (passed && files.None? ==> r == Err(NoFile)) &&
      (passed && files.Some? && Upload(files).None? ==> r == Err(MissingFileField)) &&
      (passed && Upload(files).Some? && !SupportedFileTest(ExtName(Upload(files).value.name)) ==>
         r == Err(BadFileType)) &&
      var typed := passed && Upload(files).Some? && SupportedFileTest(ExtName(Upload(files).value.name));
      (typed && TooLarge(Upload(files).value.size, maxSize) ==> r == Err(FileTooLarge)) &&
      (typed && !TooLarge(Upload(files).value.size, maxSize) ==>
         r == if moveOk then Ok(StoredName(caller.name, jobId, Upload(files).value.name)) else Err(UploadFailed))
  {
  }

  /** The owner of a job and any admin may change it; any other caller may
      not, whatever their name. */
  lemma OwnerOrAdminOnly(owner: string, caller: Caller, name: string)
    ensures MayMutate(owner, Caller(owner, name, caller.role))
    ensures MayMutate(owner, Caller(caller.id, name, "admin"))
    ensures caller.id != owner && caller.role != "admin" ==> !MayMutate(owner, Caller(caller.id, name, caller.role))
  {
  }

  /** The size limit is inclusive, and an unset limit lets every size
      through: such an application is never refused as too large. */
  lemma SizeLimitInclusive(lastDate: int, applicants: seq<Applicant>, jobId: string, now: int, caller: Caller,
                           files: Option<map<string, UploadedFile>>, maxSize: Option<int>, moveOk: bool)
    ensures maxSize.None? ==> Admission(lastDate, applicants, jobId, now, caller, files, maxSize, moveOk) != Err(FileTooLarge)
    ensures Upload(files).Some? && maxSize == Some(Upload(files).value.size) ==>
              Admission(lastDate, applicants, jobId, now, caller, files, maxSize, moveOk) != Err(FileTooLarge)
    ensures Upload(files).Some? && maxSize == Some(Upload(files).value.size - 1) &&
            now <= lastDate && !Applied(applicants, caller.id) && SupportedFileTest(ExtName(Upload(files).value.name)) ==>
              Admission(lastDate, applicants, jobId, now, caller, files, maxSize, moveOk) == Err(FileTooLarge)
  {
    GuardsInOrder(lastDate, applicants, jobId, now, caller, files, maxSize, moveOk);
  }

  /** An accepted application: the caller had not applied, the file passed
      every check, the size limit is inclusive, and the stored name follows the
      naming rule. */
  lemma AcceptedApplication(lastDate: int, applicants: seq<Applicant>, jobId: string, now: int, caller: Caller,
                            files: Option<map<string, UploadedFile>>, maxSize: Option<int>, moveOk: bool)
    requires Admission(lastDate, applicants, jobId, now, caller, files, maxSize, moveOk).Ok?
    ensures var name := Admission(lastDate, applicants, jobId, now, caller, files, maxSize, moveOk).value;
      now <= lastDate && !Applied(applicants, caller.id) && moveOk && Upload(files).Some? &&
      SupportedFileTest(ExtName(Upload(files).value.name)) &&
      (maxSize.Some? ==> Upload(files).value.size <= maxSize.value) &&
      name == StoredName(caller.name, jobId, Upload(files).value.name)
  {
  }

  /** Appending an accepted caller keeps applicant ids unique. */
  lemma AcceptedKeepsIdsUnique(lastDate: int, applicants: seq<Applicant>, jobId: string, now: int, caller: Caller,
                               files: Option<map<string, UploadedFile>>, maxSize: Option<int>, moveOk: bool)
    requires UniqueIds(applicants)
    requires Admission(lastDate, applicants, jobId, now, caller, files, maxSize, moveOk).Ok?
    ensures UniqueIds(applicants + [Applicant(caller.id, Admission(lastDate, applicants, jobId, now, caller, files, maxSize, moveOk).value)])
  {
    var s := applicants + [Applicant(caller.id, Admission(lastDate, applicants, jobId, now, caller, files, maxSize, moveOk).value)];
    forall i, j | 0 <= i < j < |s|
      ensures s[i].id != s[j].id
    {
      if j == |applicants| {
        assert s[i] == applicants[i];
      } else {
        assert s[i] == applicants[i] && s[j] == applicants[j];
      }
    }
  }

  /** After a successful application, the same caller's next application to
      the job is refused: as late if the deadline has passed by then, as a
      duplicate otherwise. */
  lemma SecondApplicationRefused(lastDate: int, applicants: seq<Applicant>, jobId: string, now: int, caller: Caller,
                                 files: Option<map<string, UploadedFile>>, maxSize: Option<int>, moveOk: bool,
                                 later: int, files': Option<map<string, UploadedFile>>, maxSize': Option<int>, moveOk': bool)
    requires Admission(lastDate, applicants, jobId, now, caller, files, maxSize, moveOk).Ok?
    ensures var after := applicants + [Applicant(caller.id, Admission(lastDate, applicants, jobId, now, caller, files, maxSize, moveOk).value)];
      Admission(lastDate, after, jobId, later, caller, files', maxSize', moveOk') ==
        if lastDate < later then Err(DateOver) else Err(AlreadyApplied)
  {
    var after := applicants + [Applicant(caller.id, Admission(lastDate, applicants, jobId, now, caller, files, maxSize, moveOk).value)];
    assert after[|applicants|].id == caller.id;
  }

  /** An on-time first application with an `.exe` file is refused for its
      type, whatever its size. */
  lemma ExecutableRefused(lastDate: int, applicants: seq<Applicant>, jobId: string, now: int, caller: Caller,
                          stem: string, size: int, maxSize: Option<int>, moveOk: bool)
    requires now <= lastDate && !Applied(applicants, caller.id)
    requires stem != "" && forall i :: 0 <= i < |stem| ==> stem[i] != '/'
    ensures Admission(lastDate, applicants, jobId, now, caller,
                      Some(map["file" := UploadedFile(stem + ".exe", size)]), maxSize, moveOk) == Err(BadFileType)
  {
    ExtNameOfStem(stem, ".exe");
    OtherExtensionsFail();
  }

  /** The stored name of `stem.ext` uploaded by a user ends in the job id and
      the extension. */
  lemma StoredNameKeepsExtension(userName: string, jobId: string, stem: string, ext: string)
    requires stem != "" && forall i :: 0 <= i < |stem| ==> stem[i] != '/'
    requires |ext| > 0 && ext[0] == '.' && forall i :: 1 <= i < |ext| ==> ext[i] != '.' && ext[i] != '/'
    requires stem == "." ==> |ext| > 1
    ensures StoredName(userName, jobId, stem + ext) == ReplaceFirst(userName, " ", "_") + "_" + jobId + ext
  {
    ExtNameOfStem(stem, ext);
  }

  /** Where the handler's directory contains `\controllers` (a Windows
      layout), that segment is dropped and the resume name is kept whole. */
  lemma ResumePathOnWindows(dirname: string, resume: string)
    requires IndexOf(dirname, "\\controllers") >= 0
    ensures ResumePath(dirname, resume) == ReplaceFirst(dirname, "\\controllers", "") + "/public/uploads/" + resume
  {
    ReplaceFirstInPrefix(dirname, "/public/uploads/" + resume, "\\controllers", "");
    assert dirname + "/public/uploads/" + resume == dirname + ("/public/uploads/" + resume);
  }

  /** Where nothing contains `\controllers` (a POSIX layout), the path keeps
      the handler's own directory: `<dirname>/public/uploads/<resume>`. */
  lemma ResumePathOnPosix(dirname: string, resume: string)
    requires IndexOf(dirname + "/public/uploads/" + resume, "\\controllers") < 0
    ensures ResumePath(dirname, resume) == dirname + "/public/uploads/" + resume
  {
  }
}

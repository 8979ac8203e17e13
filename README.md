# jobee-api: a verified model of the job and authentication rules

jobee-api is an Express/Mongoose REST backend for a job board. Under its
handlers sit a few small decision rules. This project models them in Dafny
and proves properties about them:

- **Jobs** (`controllers/jobsController.js`):
  - *getJob* matches on id and slug together.
  - *updateJob* and *deleteJob* check that the job exists, then check ownership
    (only the owner or an admin may change a job).
  - *deleteJob* tries to remove each applicant's resume, one removal per
    applicant, and deletes the job record whatever those removals return.
  - *applyJob* runs a fixed chain of guards: job exists, deadline, already
    applied, file present, extension, size. It then builds the stored resume
    name, moves the file and appends the applicant.
- **Authentication** (`controllers/authController.js`):
  - *loginUser* checks its inputs in order. An unknown email and a wrong
    password give the same error.
  - *forgotPassword* issues a reset token and clears it again if the mail
    cannot be sent.
  - *resetPassword* accepts only a stored token hash that matches and has not
    expired, then clears the token.
  - *logout* overwrites the session cookie.

The database becomes a store object:
- `JobStore` holds a map from id to `Job` objects.
- `UserStore` holds a sequence of `User` objects. `findOne` returns the first
  match in that order.

Handlers that update a document in place are methods with `modifies` clauses,
and their postconditions give the whole new state. Everything outside these
rules is a parameter:
- the clock, `now`, in milliseconds;
- whether `file.mv` succeeds, `moveOk`;
- the result of each `fs.unlink`, `unlinkOk`;
- whether the mail is sent, `emailOk`;
- the sha256 hash, `hash`;
- bcrypt's comparison, `comparePassword`;
- the handler's own directory, `dirname`.

The string built-ins are modelled exactly, in module `Strings`:
- `name.replace(' ', '_')` replaces only the first space.
- `path.extname` follows Node's POSIX algorithm. A dot file such as `.pdf` has
  no extension.
- The extension test `/.docx|.pdf/` is unanchored, and `.` matches any
  character except a line terminator. So `.xpdf` and `.pdfx` pass, while
  `.PDF` fails.

In these places the code does something its messages or names do not
suggest; the model follows the code:
- An application on the deadline itself (`lastDate == now`) is accepted.
- When the mail fails, forgotPassword ends with an error that has no status.
  The code passes `500` to `next` as a second argument, not to the error.
- `req.files` can be present without a `file` entry. The handler then throws
  a TypeError, which also reaches the error middleware without a status.
- An unset `MAX_FILE_SIZE`, or a value that `Number` reads as NaN (such as
  `2mb`), turns the size check off, because a comparison with NaN is false. An
  empty or blank value reads as 0, so every non-empty file is refused as too
  large.
- The job owner is not immutable: an update body may overwrite it.
- The path given to `fs.unlink` drops the first `\controllers` anywhere in the
  path, even one inside a resume name built from a user name such as
  `a\controllers b`. In practice that is the directory segment of a Windows
  layout. In a POSIX layout the path keeps the handler's own directory
  (`ResumePathOnPosix`).
- Logout sets the cookie to `none`, not to an empty value.

## Model

| member | source | states |
|---|---|---|
| `Strings.ReplaceFirst` | controllers/jobsController.js:104 | `replace` with a string pattern either returns the string as it is or swaps one occurrence of the pattern for the replacement, so the length changes by at most one such swap |
| `Strings.ReplaceFirstLeftmost` | controllers/jobsController.js:211 | a string without the pattern comes back unchanged; otherwise exactly the leftmost occurrence is replaced and everything before and after it is kept |
| `Strings.IndexOf` | controllers/jobsController.js:211 | the index `replace` works on is the first occurrence of the pattern, or -1 exactly when it occurs nowhere |
| `Strings.FirstSpaceToUnderscore` | controllers/jobsController.js:211 | `name.replace(' ','_')` keeps the length, turns exactly the first space into `_` and leaves every other character, later spaces included, unchanged |
| `Strings.ReplaceFirstInPrefix` | controllers/jobsController.js:104 | if the pattern already occurs in `a`, replacing in `a + b` leaves `b` untouched |
| `Strings.ExtName` | controllers/jobsController.js:201 | `path.extname` is empty or starts with its only dot and holds no `/` |
| `Strings.ExtNameOfPlainName` | controllers/jobsController.js:201 | for a bare file name, the extension is empty iff the name is `..` or has no dot after its first character; otherwise it is a proper suffix of the name |
| `Strings.ExtNameOfStem` | controllers/jobsController.js:211 | the extension of `stem + ".ext"` is `.ext` |
| `Strings.SupportedFileTest` | controllers/jobsController.js:200-201 | the extension regex test is true iff at some position a non-line-terminator is followed by `docx` or by `pdf` |
| `Strings.PdfAnywherePasses` | controllers/jobsController.js:200 | any extension containing `pdf` after its first character, preceded by a character other than a line terminator, passes, because the pattern is unanchored |
| `Strings.WhitelistedExtensionsPass` | controllers/jobsController.js:200-203 | `.pdf` and `.docx` pass |
| `Strings.OtherExtensionsFail` | controllers/jobsController.js:200-203 | `.exe` fails, and so does `.PDF`, because the test is case-sensitive |
| `Strings.DotFileFails` | controllers/jobsController.js:201 | a file named `.pdf` has an empty extension and fails |
| `Strings.LooseExtensionsPass` | controllers/jobsController.js:200 | `.xpdf` and `.pdfx` pass |
| `JobsController.JobStore.NewJob` | controllers/jobsController.js:31-42 | the new job is stored under its id with the caller as owner, whatever the body says, and the body's slug, deadline and applicant list; a body without applicants gives an empty list |
| `JobsController.JobStore.GetJob` | controllers/jobsController.js:45-59 | returns the job iff one exists with that id and that slug; otherwise 404 `Job not found` |
| `JobsController.JobStore.UpdateJob` | controllers/jobsController.js:62-85 | a missing job gives 404 before the ownership check; a caller who is neither owner nor admin gets 400 and the job is unchanged; otherwise each field in the body replaces the stored one |
| `JobsController.JobStore.DeleteJob` | controllers/jobsController.js:88-118 | 404 and 400 as for update, with nothing removed; once authorised there is exactly one unlink per applicant, in list order, on that applicant's resume path, and the job leaves the store whatever the unlinks return |
| `JobsController.JobStore.ApplyJob` | controllers/jobsController.js:173-239 | a missing job gives 404 before any other check; otherwise the result is `Admission` of the job's state; on success the list grows by exactly `{caller id, stored name}` at the end; on any error it is unchanged, and the other fields never change |
| `JobsController.NotAllowed` | controllers/jobsController.js:96-97 | the ownership refusal of update and delete carries status 400 |
| `JobsController.OwnerOrAdminOnly` | controllers/jobsController.js:70-71 | the owner of a job and any admin may change it; every other caller is refused, whatever their name |
| `JobsController.Upload` | controllers/jobsController.js:193-197 | the uploaded file is present exactly when the request has files and one of them is under the key `file`, and it is that file |
| `JobsController.SizeLimitInclusive` | controllers/jobsController.js:206-208 | with no numeric limit no file is refused as too large; a file of exactly the limit is not refused; one byte over the limit is refused once the earlier guards pass |
| `JobsController.StoredNameShape` | controllers/jobsController.js:211 | the stored name has the caller's name character for character, except that its first space reads `_`, then `_`, the job id and the file's extension, and nothing else |
| `JobsController.ResumePath` | controllers/jobsController.js:104 | the unlink path is `<dirname>/public/uploads/<resume>`, shortened by one removed `\controllers` segment or not at all |
| `JobsController.Admission` | controllers/jobsController.js:180-217 | on a request with at most one file under `file`, every failure is one of the seven guard errors of applyJob, and a success names the stored resume of the file under `file` |
| `JobsController.CheckApplication` | controllers/jobsController.js:180-217 | the guard chain with its linear scan of applicants computes `Admission` |
| `JobsController.DeadlineIsStrict` | controllers/jobsController.js:181-183 | the deadline error occurs iff `lastDate < now`, whatever the other inputs; `lastDate == now` is accepted |
| `JobsController.GuardsInOrder` | controllers/jobsController.js:181-217 | each error (already applied, no file, missing `file` field, bad type, too large, upload failed) occurs exactly when every earlier guard passed and its own failed; an application that passes every guard and whose move succeeds is accepted with its stored name |
| `JobsController.AcceptedApplication` | controllers/jobsController.js:186-211 | success means on time, caller absent, file present with a passing extension, size at most the limit (inclusive), move succeeded, and the name is `StoredName` |
| `JobsController.AcceptedKeepsIdsUnique` | controllers/jobsController.js:186-224 | appending an accepted caller keeps applicant ids unique |
| `JobsController.SecondApplicationRefused` | controllers/jobsController.js:181-190 | after a successful application, the same caller's next one is refused: as late if the deadline has passed, else as a duplicate |
| `JobsController.ExecutableRefused` | controllers/jobsController.js:199-203 | a timely first application with a `stem.exe` file is refused for its type |
| `JobsController.StoredNameKeepsExtension` | controllers/jobsController.js:211 | the stored name of `stem.ext` is `firstSpaceToUnderscore(name) + "_" + jobId + ".ext"` |
| `JobsController.ResumePathOnWindows` | controllers/jobsController.js:104 | when the directory contains `\controllers`, that segment is removed and `/public/uploads/<resume>` is kept whole |
| `JobsController.ResumePathOnPosix` | controllers/jobsController.js:104 | when nothing contains `\controllers`, the path is `<dirname>/public/uploads/<resume>` unchanged |
| `AuthController.UserStore.Register` | controllers/authController.js:9-29 | the created user is appended with the given fields and no reset token |
| `AuthController.FindByEmail` | controllers/authController.js:41 | the index of the first user with that email, or -1 exactly when nobody has it |
| `AuthController.UserStore.Login` | controllers/authController.js:32-60 | a missing or empty email or password gives 400 whatever the store holds; an unknown email gives 401 `Invalid Email or Password.`; every other failure is that same error; success returns the first user with that email, whose stored password matches; and a password that matches that first user's always logs in |
| `AuthController.ResetUrl` | controllers/authController.js:77 | the reset link starts with the request's protocol and ends with the raw token |
| `AuthController.ResetMessage` | controllers/authController.js:78 | the mail body contains the link, right after its fixed opening sentence |
| `AuthController.MailCarriesToken` | controllers/authController.js:77-85 | the mailed message carries the raw token, at the end of the link |
| `AuthController.TokenValidUntilExpiry` | controllers/authController.js:110-113 | a token valid at some time was valid at every earlier time; a cleared token, or one whose expiry is now, is not valid |
| `AuthController.UserStore.ForgotPassword` | controllers/authController.js:63-100 | an unknown email gives 404, sends no mail and changes no user's token fields; otherwise the reset-link mail goes to that user; if it is sent, the token hash and expiry are stored and the emailed token is accepted until the expiry; if not, both fields are cleared and the error has no status |
| `AuthController.FindByToken` | controllers/authController.js:110-113 | the first user whose stored token equals the hash and whose expiry is strictly after `now`, or -1 exactly when there is none |
| `AuthController.UserStore.ResetPassword` | controllers/authController.js:103-128 | no valid match gives 400; otherwise that user gets the new password and both token fields cleared; if no other user held the hash, no reset with this token succeeds again, at any time |
| `AuthController.ExpiredTokenRefused` | controllers/authController.js:110-117 | a token whose holders have all expired at or before `now` is refused, even when the hash matches |
| `AuthController.Logout` | controllers/authController.js:131-142 | the cookie `token` is set to `none`, http-only, and expires exactly at `now` |

## Left out

- app.js: middleware wiring, the HTTP listener and the process exit hooks. These are library configuration, with no rules of their own.
- getJobs: it delegates to `utils/apiFilters`, which is not part of this model.
- getJobsInRadius: a geocoder call, floating-point division by 3963 and a geospatial query run by the database.
- jobStats: an aggregation pipeline run by the database. Only one thing is visible in the handler: "no stats" is reported as an error with status 200.
- Schema behaviour lives in models that are not part of this model: required fields, defaults, `runValidators`, the slug hook, unique emails, password hashing on save, and `getResetPasswordToken`. The token that function returns and the expiry it stores are inputs. Its stored hash is taken to be `hash(token)`.
- The `populate` of the owner's name in getJob, and the document that updateJob returns.
- Body fields other than owner, slug, deadline and applicants.
- Persistence calls (`save`, `findByIdAndUpdate`, `findByIdAndDelete`) are in-place updates of the store. The real file moves, file deletions, mails and JWT cookies (`sendToken`) are not modelled.
- A malformed id, which makes the database throw a cast error.
- forgotPassword with no email in the body: what the driver does with an undefined filter is not visible here.
- The race between applyJob's duplicate check and its `$push`: concurrency is out of scope for a sequential model.
- `path` on Windows (the win32 variant, where `\` also separates segments). Only POSIX `path.extname` is modelled.
- JavaScript strings are UTF-16 code units. Dafny `char`s here are Unicode scalar values.
- JobsController.JobStore.ApplyJob: several files sent under the key `file` are not modelled. The upload middleware then stores a list, `file.name` is undefined, and `path.extname` at controllers/jobsController.js:201 throws a TypeError. That error reaches the error middleware without a status, and no applicant is appended. The input type holds at most one file per key.
- JobsController.JobStore.ApplyJob: the new name is returned, not written back into the upload object's `name` field.
- AuthController.UserStore.ResetPassword: "the token is consumed" is stated only for the user who was reset. The wider claim, that the hash matches nobody afterwards, needs the extra premise that no other user held the same hash, because the store does not force token hashes to be unique.

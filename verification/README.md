# AcademiaHub portal logic in Dafny

AcademiaHub is a React front end for a university file library, backed by a
hosted Supabase database and storage bucket. Students browse assignments,
notes and lab resources by subject and unit, and upload PDFs. An
administrator signs in with a fixed credential pair to reach an admin board.
This project models the decision logic under those views as pure functions
over immutable state:

- `App` (`app.dfy`): the top-level state machine. It tracks the signed-in
  user, the current view, the admin login modal and the stored
  `academia_user` profile. It covers the credential check, logout, the
  restore-on-mount effect, the role-guarded `renderContent` switch and the
  logo's click branch.
- `Login` (`login.dfy`): the admin login form's required-field check.
- `StudentLogin` (`student_login.dfy`): the student profile form. It covers
  the trimmed completeness check, the e-mail pattern
  `^[^\s@]+@[^\s@]+\.[^\s@]+$` and the profile it builds.
- `Uploader` (`uploader.dfy`): the upload form. It covers PDF-only file
  selection, the completeness check shared with the submit button, the
  storage path built from the file extension, the inserted `files` row, the
  reset after success and the classification of backend errors.
- `FileViewer` (`file_viewer.dfy`): the library browser. It covers the
  de-duplicated, sorted unit list, the files query as a filter and an order
  over a sequence of `AcademicFile`, and the checkout record written on view
  and download.
- `Connection` (`connection.dfy`): `checkSupabaseConnection`. This is the
  start-up classification into connected, connected but needing the schema,
  or failed, including the sticky `supabase_setup_confirmed` flag.
- `Types`, `Strings` and `Wrappers`:
  - `Types` holds the records of `types.ts`.
  - `Strings` holds the JavaScript string primitives the forms rely on:
    `trim`, the `\s` class, `includes`, ASCII `toLowerCase`, `indexOf`,
    `lastIndexOf`, `split` and a code-point string order standing for
    `Array.prototype.sort`.
  - `Wrappers` holds `Option` and `Result`.

Every backend call is an input to the model, never an action it performs.
A query result is an `Option` whose `None` stands for a returned error. The
storage upload and the row insert are given as optional errors. Three other
values are parameters:

- `Math.random()` is the `randomName` string.
- `Date.now()` and `new Date()` are the `stamp`, `now` and `timestamp` strings.
- Browser storage is a state field (`saved`, or `confirmed`).

A few things the model shows about the code as written:

- The lab view hands the viewer the category string `'Lab Manual'`, while
  uploads are filed under `'Lab Resources'`. So the lab view lists no files
  for any subject (`App.LabViewListsNothing`). The viewer's `category` prop
  is declared as a `Category`, but the model follows the value `App.tsx`
  actually passes, and types it as a string.
- The restore effect trusts the stored profile's role. A stored profile
  claiming `Admin` opens the admin board without the credential check
  (`App.StoredAdminRoleIsTrusted`). Profiles the app itself stores are
  always the genuine admin (`App.RunKeepsAdminGenuine`).
- The login form does not trim. A padded id passes the form and then fails
  the credential check (`App.PaddedIdIsRejected`). Whitespace-only fields
  pass the form (`Login.BlankFieldsPass`).
- The student e-mail pattern is applied to the untrimmed input. A valid
  address typed with a leading space is rejected
  (`StudentLogin.PaddedEmailIsRejected`).
- The connection check lower-cases the message for the missing-table test
  but not for the `JWT` test (`Connection.AuthTestIsCaseSensitive`).

## Model

| member | source | states |
|---|---|---|
| App.Init | App.tsx:13-18 | The first render shows the guest `User` profile on the home view with the modal closed, whatever is stored |
| App.HandleLogin | App.tsx:20-34 | Login succeeds exactly for id `78945612130` and password `Kasi@2006`. Success signs in and stores the Administrator profile, closes the modal and selects the admin view. Failure raises the fixed alert and changes nothing |
| App.HandleLogout | App.tsx:36-40 | Logout restores the guest `User` profile and the home view and clears the stored profile |
| App.Restore | App.tsx:42-50 | On mount a stored profile becomes the current user; without one the user is unchanged; the view is untouched |
| App.LogoClick | App.tsx:96-102 | The logo opens the login modal for a non-admin and returns an admin to the home view, changing nothing else |
| App.CloseLogin | App.tsx:82-84 | The close button hides the modal and changes nothing else |
| App.SelectView | App.tsx:56-70 | Navigation sets the view and changes nothing else |
| App.ViewerCategory | App.tsx:63-68 | Assignments and notes views pass their category names; the lab view passes `Lab Manual`, which names no category; other views show no viewer |
| App.Render | App.tsx:52-74 | The admin board is shown exactly when the admin view is selected by an admin; a non-admin asking for it gets the dashboard; the library views show the viewer with their category string |
| App.StepKeepsAdminGenuine | App.tsx:20-50 | Each transition keeps every admin profile in the state, signed in or stored, equal to the credential-checked one |
| App.RunKeepsAdminGenuine | App.tsx:20-74 | Over any sequence of logins, logouts, restores, clicks and navigation, the admin board is only ever shown to the credential-checked admin |
| App.StoredAdminRoleIsTrusted | App.tsx:42-58 | A stored profile with the `Admin` role, whatever its id, opens the admin board after a restore |
| App.LoginThenLogout | App.tsx:20-40 | A successful login followed by logout leaves the guest on the home view with nothing stored and the modal closed |
| App.PaddedIdIsRejected | App.tsx:22 | The admin id with a leading space passes the login form untouched and then fails the credential check |
| App.LabViewListsNothing | App.tsx:67-68 | The lab view lists no files and offers no units, for any subject and any table contents |
| Login.HandleSubmit | components/Login.tsx:14-21 | `onLogin` is called exactly when both fields are non-empty, with the fields as typed and the error line untouched; otherwise the required-fields error is set |
| Login.BlankFieldsPass | components/Login.tsx:16-20 | Non-empty whitespace-only fields trim to nothing yet still reach `onLogin` |
| StudentLogin.ValidEmailMatches | components/StudentLogin.tsx:17 | Every address the executable validator accepts matches the e-mail pattern |
| StudentLogin.PatternIsValid | components/StudentLogin.tsx:17 | Every address matching the e-mail pattern is accepted by the validator |
| StudentLogin.ValidEmailIffPattern | components/StudentLogin.tsx:17 | The validator (one `@`, not first, no whitespace, a dot with text on both sides after the `@`) accepts exactly the pattern's strings |
| StudentLogin.ValidEmailIsTrimmed | components/StudentLogin.tsx:17 | A valid address is non-blank and unchanged by trimming |
| StudentLogin.HandleSubmit | components/StudentLogin.tsx:19-39 | The incomplete error appears exactly when a field is blank after trimming. The e-mail error appears exactly when all fields are filled and the untrimmed e-mail fails the pattern. A profile appears exactly when name and roll are non-blank and the e-mail matches. The profile holds the trimmed fields, role `User` and id `student-` plus the timestamp |
| StudentLogin.ProfileEmailIsTyped | components/StudentLogin.tsx:30-36 | A produced profile's e-mail is exactly the typed e-mail, and it matches the pattern |
| StudentLogin.PaddedEmailIsRejected | components/StudentLogin.tsx:21-28 | A valid address accepted on its own is rejected with the e-mail error when typed with a leading space |
| Uploader.SubmitEnabledIffComplete | components/Uploader.tsx:264-266 | The button is enabled exactly when no upload runs and the handler's completeness check of line 60 passes; a unit is needed only for unit categories |
| Uploader.HandleFileChange | components/Uploader.tsx:42-54 | No selection changes nothing; a non-PDF clears the file and shows the PDF-only error; a PDF is kept and clears the message |
| Uploader.HandlersKeepOnlyPdf | components/Uploader.tsx:42-54 | File selection, category change and submit all keep the form free of non-PDF files, so every inserted row comes from a PDF |
| Uploader.ChangeCategory | components/Uploader.tsx:186-189 | A category change sets the category parsed from the option value and always clears the subject, leaving everything else |
| Uploader.Extension | components/Uploader.tsx:69 | The extension has no dot, is a suffix of the name preceded by a dot, and is the whole name when the name has no dot |
| Uploader.ExtensionIsLastPiece | components/Uploader.tsx:69 | The extension is the last piece of `split('.')`, which `pop` returns |
| Uploader.StoragePathShape | components/Uploader.tsx:69-71 | A path `folder/random.ext` with a slash-free folder and dot-free extension starts with the folder, has its first slash after it, and has extension `ext` |
| Uploader.StoragePath | components/Uploader.tsx:69-71 | The stored object lies in the category's folder (its first `/` follows the category name) and keeps the original file's extension |
| Uploader.BuildRow | components/Uploader.tsx:85-94 | The inserted row copies subject, category, original file name, name and roll, the public URL and upload time; it has a unit exactly for Assignments and Notes, namely the chosen non-empty unit |
| Uploader.ClassifyError | components/Uploader.tsx:104-111 | A message mentioning `column` or `cache` gives the schema text and a set schema flag. Any other error shows its own non-empty message, or the default text when the message is missing or empty. The shown text is never empty. The schema flag is undefined exactly when the error has no message |
| Uploader.HandleSubmit | components/Uploader.tsx:56-115 | An incomplete form only shows the completeness error. The object is stored exactly when the form is complete and the upload succeeds. The row is inserted exactly when the insert also succeeds. Success clears file, subject and unit and keeps category, name and roll. Either failure shows the classified error. Uploading is off afterwards |
| Uploader.SuccessResetsForNextUpload | components/Uploader.tsx:98-103 | After a successful upload the form is incomplete until a new PDF and subject are chosen, and then complete again with the previous unit, category, name and roll |
| FileViewer.Initial | components/FileViewer.tsx:17-20 | The viewer starts with no subject, no units, the `all` unit and no files |
| FileViewer.SortUnique | components/FileViewer.tsx:68 | The unit list is strictly ascending and holds exactly the distinct input units |
| FileViewer.StrictlySortedUnique | components/FileViewer.tsx:68 | Two strictly ascending lists with the same elements are equal, so the unit list does not depend on row order |
| FileViewer.UnitsOf | components/FileViewer.tsx:58-63 | The units query yields exactly the non-null units of rows with the chosen subject and category |
| FileViewer.FetchUnits | components/FileViewer.tsx:50-75 | Without a subject or in a category without units the list is cleared; otherwise a successful query makes it the sorted distinct units of the subject's rows. Either way the selected unit resets to `all`. A failed query changes nothing |
| FileViewer.Select | components/FileViewer.tsx:85-93 | The filter keeps every row of the subject and category, and of the selected unit when a unit filter is active, as often as it occurs, and no other row |
| FileViewer.BeforeTotal | components/FileViewer.tsx:95-97 | Any two files can be ordered by unit ascending with nulls last, then upload time descending |
| FileViewer.BeforeTransitive | components/FileViewer.tsx:95-97 | That listing order is transitive |
| FileViewer.SortFiles | components/FileViewer.tsx:95-97 | Ordering permutes the rows into unit-ascending, newest-first order |
| FileViewer.FetchFiles | components/FileViewer.tsx:77-108 | Without a subject the listing is empty. A failed query changes nothing. Otherwise the listing is a permutation of the rows passing the filters, in the query's order, and every listed file passes the filters |
| FileViewer.ChooseSubject | components/FileViewer.tsx:50-108 | Choosing a subject resets the unit filter to `all` and lists only that subject's files in the category; no subject empties both lists |
| FileViewer.ChooseUnit | components/FileViewer.tsx:91-93 | Choosing a unit other than `all` in a unit category lists only files of that unit |
| FileViewer.UnitIgnoredOutsideUnitCategories | components/FileViewer.tsx:27 | Outside Assignments and Notes every file of the subject and category is listed, whatever unit is selected |
| FileViewer.LogActivity | components/FileViewer.tsx:110-122 | The checkout record copies the file's id, name and category and the time, with role `Student (View)` or `Student (Download)` |
| FileViewer.ActionOfRole | components/FileViewer.tsx:117 | A recognised role text is the one built for its action |
| FileViewer.CheckoutRoundTrip | components/FileViewer.tsx:117 | A record's role text gives back the logged action, and its category parses back to the file's category |
| Connection.CheckConnection | services/supabaseClient.ts:10-60 | A successful probe, or any failure after confirmation, reports connected with no setup needed. Otherwise a missing table reports connected needing setup, an auth failure reports the fixed auth text, and anything else reports its own message. Only a successful probe sets the flag |
| Connection.ConfirmationSticks | services/supabaseClient.ts:52-58 | After one successful probe, every later probe reports connected with no setup needed, whatever its outcome |
| Connection.MissingTableBeforeAuth | services/supabaseClient.ts:32-47 | An error that is both a missing table and an auth failure is reported as needing setup |
| Connection.MissingTableIgnoresCase | services/supabaseClient.ts:32-36 | The missing-table verdict does not change when the message is lower-cased |
| Connection.LoweredHasNoJwt | services/supabaseClient.ts:44 | A lower-cased message never contains `JWT` |
| Connection.AuthTestIsCaseSensitive | services/supabaseClient.ts:43-49 | Without a 401/403 status, a lower-cased message is never an auth failure; if the table is not missing, the message is reported as it stands |
| Types.CategoryName | types.ts:57 | Every category has a non-empty name |
| Types.ParseCategory | components/Uploader.tsx:187 | An option value selects the category of that name, or none when no category has that name |
| Types.CategoryNameRoundTrip | types.ts:57 | Category names are distinct and parse back to their category |
| Strings.Trim | components/StudentLogin.tsx:21 | `trim` returns the infix between two all-whitespace margins, neither starting nor ending with whitespace |
| Strings.TrimEmptyIffBlank | components/StudentLogin.tsx:21 | A string trims to nothing exactly when it is all whitespace |
| Strings.Includes | services/supabaseClient.ts:35-36 | `includes` is true exactly when the needle occurs at some index |
| Strings.LessTotal | components/FileViewer.tsx:68 | Distinct strings are ordered one way or the other by code-point order |
| Strings.LessTransitive | components/FileViewer.tsx:68 | Code-point order is transitive |

## Left out

- Supabase I/O. Select, insert, storage upload and `getPublicUrl` are not performed; their results and errors are inputs to the model.
- The subject lists fetched by `Uploader.tsx` (lines 24-40) and `FileViewer.tsx` (lines 29-47). They are plain queries whose rows only fill a `<select>`.
- Loading flags (`loading`, `fetchingFiles`) and the viewer's `actionStatus`, `viewingFile` and `error` fields. They only drive rendering.
- The `Math.random()` number and the `Date.now()`/`new Date().toISOString()` texts. They are opaque string parameters, so their formats are not modelled.
- `localStorage` and `JSON.parse`. They are an optional stored profile and a boolean flag. A stored value that fails to parse or lacks fields is not modelled.
- The download itself. The fetch, blob, anchor click, `window.open` fallback and the 2-second `setTimeout` reset are DOM and timer effects.
- A failed checkout insert. It is swallowed with a console warning and changes no state.
- Effect ordering and races. `FileViewer.ChooseSubject` runs the units effect and then the files effect to completion. Interleavings where a stale files query finishes after the unit reset are not modelled.
- JSX rendering, styling and the float MB size display.
- The LLM components, the admin board, the report modal and the dashboard. They lie outside this model.
- Strings.ToLower: lower-cases ASCII letters only. JavaScript's full Unicode mapping is not modelled. For the needles the code searches for (`does not exist`, `could not find`) the verdict is the same. The only non-ASCII characters whose JavaScript lower case contains an ASCII letter are U+0130 (an `i` followed by a combining dot) and U+212A (a `k`), and neither can complete those needles.
- Strings.Less: compares by code point. JavaScript's default sort compares UTF-16 code units, so the two differ for strings holding characters outside the Basic Multilingual Plane (U+10000 sorts before U+FFFF in JavaScript, after it here). The units the uploader writes come from its fixed `Unit 1`..`Unit 5` list, where the orders agree. PostgreSQL orders by code point under the C collation; a database with another collation may order units and upload times differently.
- FileViewer.Before: compares upload times as strings. This matches the time order for the fixed-width ISO-8601 texts the uploader writes; the database's `timestamptz` comparison is not modelled.
- App.RunKeepsAdminGenuine: assumes the stored profile starts out genuine, as it does when only the app writes it. `App.StoredAdminRoleIsTrusted` shows what a foreign stored profile does.

# Pet feeder app: schedule editor, validators and login/registration forms in Dafny

This project models the logic of a React Native front end for a pet feeder.
The app has a schedule editor for the paired device's feeding configuration.
It also has the string and value validators of `src/utils/validators.ts`, and
the validation and field handling of its login and registration forms. The
screens, navigation, network client and storage are outside the model; they
appear only as parameters that say how an awaited call ended.

Modules (one file each):

- `Wrappers`: `Option`.
- `JsStrings`: the JavaScript built-ins the validators use. It covers the
  whitespace class shared by `trim()` and `\s`, `trim`, ASCII `toLowerCase`,
  and the decimal text of an integer in a template literal.
- `Validators`: every validator in `validators.ts` except `validateDate` and
  `validateUrl`. Each regular expression is written out as a predicate over
  characters. The password, username and length validators return the message
  of the first check that fails. Each is proved equal to a generic
  first-failing-rule definition (`FirstFailure`).
- `TimeOfDay`: a picked time as an hour 0-23 and a minute 0-59. It defines
  what `moment(t).format("HH:mm")` makes of it, and how that text relates to
  `validateTime`.
- `Alerts`: the message/title pair passed to `showAlert`.
- `SchedulePage`: the editor as a class `Page`. Its fields are the cache
  entry, the device ID, the working copy (`deviceControl`), the snapshot
  (`originalDeviceControl`), `isModified`, `editingIndex`, `newTime` and the
  two dialog flags. There is one method per handler.
  - Schedule entries are objects (class `Entry`). Toggling and editing change
    an entry in place; the array is copied, its entries are not. So the
    snapshot, which holds the same entry objects after load and after a save,
    sees those changes. The contracts state this.
  - Adding and deleting build new arrays.
  - `isModified` is a flag that every editing handler sets. It is not a
    comparison with the snapshot.
- `FormState`, `LoginPage`, `RegisterPage`: the form data, the errors record
  `{username?, password?}`, the pure error computation of each
  `validateForm`, and the page classes with their change and submit handlers.

Behaviour of the editor that the model keeps as the code has it:

- The handlers check neither indices, nor times, nor the mode.
  - An index outside the schedule makes toggle, edit and time-confirm throw a
    `TypeError`. The model returns `threw` and assumes the state updates queued
    before the throw still take effect: `editingIndex` in edit, `newTime` in
    confirm. (Whether React applies them, or a release build ends the app on
    the error, is outside the model.)
  - Delete with such an index removes nothing, but still marks the page
    modified.
  - Auto mode (`autoStatus` 1) only hides the schedule controls; every
    handler still works.
- The page is "modified" because of the `isModified` flag, which every
  editing handler sets. Nothing compares the working copy with the snapshot,
  so toggling an entry twice still leaves the page modified.
- No handler restores the snapshot into the working copy.
- After a successful save, the working copy is kept, the snapshot becomes that
  same working copy, and only the cache receives the server's response.
- The snapshot is not an independent copy of the working copy: after load and
  after a save they hold the same entry objects.
- `editingIndex` is never cleared. After an edit, picking a time in the add
  dialog also overwrites the entry that was edited
  (`SchedulePage.AddAfterEdit`).

## Model

| member | source | states |
|---|---|---|
| `JsStrings.Trim` | src/utils/validators.ts:10 | trim gives a slice of the input with only whitespace cut from each end, and the slice neither starts nor ends with whitespace |
| `JsStrings.TrimEmptyIffAllWhiteSpace` | src/utils/validators.ts:195 | a string trims to nothing exactly when all its characters are whitespace |
| `JsStrings.TrimIdempotent` | src/utils/validators.ts:10 | trimming a trimmed string changes nothing |
| `JsStrings.ToLowerCase` | src/utils/validators.ts:241 | lower-casing keeps the length and maps A-Z to a-z, leaving every other character |
| `JsStrings.NatToDecimal` | src/utils/validators.ts:174 | the decimal text of a number is non-empty, all digits, and has no leading zero |
| `JsStrings.DecimalRoundTrip` | src/utils/validators.ts:174 | reading the decimal text of n gives back n |
| `JsStrings.IntToDecimal` | src/utils/validators.ts:174 | `${n}` for an integer: non-empty, starting with '-' exactly when n is negative |
| `JsStrings.IntToDecimalInjective` | src/utils/validators.ts:174 | two integers with the same `${n}` text are equal |
| `Validators.FirstFailureSpec` | src/utils/validators.ts:22-62 | a chain of early-return checks accepts iff every rule holds, has a message iff it rejects, and the message is that of a failing rule whose predecessors all hold |
| `Validators.ValidateTime` | src/utils/validators.ts:126-129 | the regex as a character predicate: a one-digit hour, or a two-digit hour 00-23, then ':' and minutes 00-59; an accepted text has 4 or 5 characters, ':' third from the end and a digit last (see `TimeOfDay.ValidTimeIffFormatted`) |
| `Validators.TimeExamples` | src/utils/validators.ts:126-129 | "9:05", "09:05", "23:59", "00:00" are accepted; "24:00", "9:5", "noon", "12:60" are rejected |
| `Validators.ValidatePassword` | src/utils/validators.ts:18-63 | valid iff length >= 8 and an uppercase letter, a lowercase letter, a digit and a special character occur; no message iff valid; each message is given exactly when its check is the first to fail (length, upper, lower, digit, special) |
| `Validators.PasswordIsFirstFailure` | src/utils/validators.ts:22-62 | validatePassword is the first-failure reading of its five rules in source order |
| `Validators.PasswordExamples` | src/utils/validators.ts:22-62 | "Abcdef1!" passes, "Ab1!" is reported as too short |
| `Validators.ValidateUsername` | src/utils/validators.ts:70-98 | valid iff 3 <= length <= 30 and every character is in [A-Za-z0-9_-]; too short, then too long, then charset, each message exactly when its check fails first |
| `Validators.UsernameIsFirstFailure` | src/utils/validators.ts:74-95 | validateUsername is the first-failure reading of its three rules |
| `Validators.UsernameLengthIsLength` | src/utils/validators.ts:74-86 | the username length checks agree with validateLength(username, 3, 30) |
| `Validators.ValidateEmail` | src/utils/validators.ts:8-11 | the regex applied to the trimmed text; an accepted address is at least five characters long once trimmed (see `Validators.EmailCharacterization`) |
| `Validators.EmailCharacterization` | src/utils/validators.ts:8-11 | the trimmed address matches iff it has no whitespace, exactly one '@' not at the start, and after it a '.' that is neither the first nor the last character of the domain |
| `Validators.EmailExamples` | src/utils/validators.ts:9 | "a@b.co" matches; "a@b", "a@b.", "@b.co" do not |
| `Validators.ValidatePhone` | src/utils/validators.ts:105-108 | the regex applied to the trimmed text; an accepted number has at least ten characters once trimmed (see `Validators.PhoneCharacterization`) |
| `Validators.PhoneCharacterization` | src/utils/validators.ts:105-108 | the trimmed number matches iff it is an optional '+' and then at least 10 characters, each a digit, whitespace or '-'; no '+' other than the first is accepted |
| `Validators.PhoneExamples` | src/utils/validators.ts:106 | "+84 912-345-678" and "0912345678" match; "12345", "091234567a", "++8491234567" do not |
| `Validators.ValidateRange` | src/utils/validators.ts:152-154 | min <= value <= max, inclusive at both ends; nothing passes when min > max, and a range with min = max admits exactly that value |
| `Validators.ValidateLength` | src/utils/validators.ts:163-186 | valid iff validateRange(length, min, max); too short reported with the minimum, otherwise too long with the maximum; no message iff valid |
| `Validators.LengthIsFirstFailure` | src/utils/validators.ts:171-183 | validateLength is the first-failure reading of its two rules, minimum before maximum |
| `Validators.LengthMessagesInjective` | src/utils/validators.ts:174-181 | the bound can be read back from either message: different bounds give different too-short texts and different too-long texts |
| `Validators.LengthShortBeforeLong` | src/utils/validators.ts:171-183 | a length below the minimum and above the maximum is reported as too short, which is a different message from too long |
| `Validators.ValidateFileSize` | src/utils/validators.ts:227-229 | size <= max: a size equal to the limit passes, a larger one fails (see `Validators.FileSizeIsUpperBound`) |
| `Validators.FileSizeIsUpperBound` | src/utils/validators.ts:227-229 | validateFileSize is validateRange from the size itself to the maximum, so there is no lower bound and any smaller size passes too |
| `Validators.IsEmpty` | src/utils/validators.ts:193-199 | the case split on the value's kind; "", [] and {} are empty, and no number, boolean or function is (see `Validators.IsEmptyCharacterization`) |
| `Validators.IsEmptyCharacterization` | src/utils/validators.ts:193-199 | empty iff null/undefined, an all-whitespace string, an array with no items or an object with no keys; 0, false and functions are not empty |
| `Validators.MissingFields` | src/utils/validators.ts:214 | the filter of the required names whose looked-up value is empty; never longer than the required list (see `Validators.MissingFieldsSpec`) |
| `Validators.ValidateRequiredFields` | src/utils/validators.ts:207-219 | isValid iff the missing list is empty |
| `Validators.MissingFieldsSpec` | src/utils/validators.ts:214 | a field is missing iff it is required and its value is empty; absent keys are missing; the missing list keeps the required order, and lists an empty field as many times as it is required and a non-empty field never |
| `Validators.RequiredFieldsValidIff` | src/utils/validators.ts:214-216 | the record passes iff no required field's value is empty |
| `Validators.LastSegment` | src/utils/validators.ts:241 | the last piece of split('.') is a dot-free suffix, preceded by '.' when it is not the whole name |
| `Validators.Extension` | src/utils/validators.ts:241 | the last '.'-separated piece, lower-cased: no longer than the name, holding no '.' and no upper-case letter (see `Validators.ExtensionSpec`) |
| `Validators.ExtensionSpec` | src/utils/validators.ts:241 | the extension is the lower-cased text after the last '.'; a name without '.' is its own extension; a trailing '.' gives "" |
| `Validators.ValidateFileType` | src/utils/validators.ts:237-243 | `allowedExtensions.includes(extension)`; an empty list accepts nothing |
| `Validators.UpperCaseEntriesNeverMatch` | src/utils/validators.ts:241-242 | the name is lower-cased but the list is not, so a list whose every entry holds an upper-case letter accepts no name |
| `Validators.FileTypeExamples` | src/utils/validators.ts:237-243 | "a.B" is accepted by ["b", "c"] and rejected by ["B"]: lower-cased name, case-sensitive list |
| `TimeOfDay.TwoDigits` | src/pages/SchedulePage.tsx:96 | a number below 100 prints as exactly two digits, zero-padded, whose decimal value is the number |
| `TimeOfDay.FormatHHmm` | src/pages/SchedulePage.tsx:96 | `moment(t).format("HH:mm")`: five characters, digits around a ':' in the middle, the first two giving the hour and the last two the minute |
| `TimeOfDay.FormattedTimeIsValid` | src/pages/SchedulePage.tsx:96 | every HH:mm text the editor writes is accepted by validateTime |
| `TimeOfDay.ClockOfFormat` | src/pages/SchedulePage.tsx:106 | reading back (as moment parses "HH:mm") a time formatted at lines 96 and 121 gives the hour and minute it came from |
| `TimeOfDay.FormatInjective` | src/pages/SchedulePage.tsx:121 | two different times never format alike |
| `TimeOfDay.ValidTimeIsFormatted` | src/utils/validators.ts:127 | an accepted time text is the HH:mm or the H:mm spelling of the time it names |
| `TimeOfDay.ShortFormIsValid` | src/utils/validators.ts:127 | the one-digit-hour spelling H:mm is accepted |
| `TimeOfDay.ValidTimeIffFormatted` | src/utils/validators.ts:126-129 | validateTime accepts exactly the HH:mm spellings of times of day and the H:mm spellings of those before 10:00 |
| `SchedulePage.Strip` | src/pages/SchedulePage.tsx:34 | the cached entries without `_id`, one value per entry (see `SchedulePage.StripSpec`) |
| `SchedulePage.StripSpec` | src/pages/SchedulePage.tsx:34 | stripping `_id` keeps length, order, time and enabled of every entry; schedules that differ only in identifiers strip alike |
| `SchedulePage.NextAutoStatus` | src/pages/SchedulePage.tsx:60 | `autoStatus === 1 ? 0 : 1`: always 0 or 1, and never the value it started from |
| `SchedulePage.AutoStatusToggleSpec` | src/pages/SchedulePage.tsx:60 | the toggled mode is 0 or 1 and differs from the old one; toggling twice restores 0 or 1; any other stored value becomes 1 |
| `SchedulePage.DropIndex` | src/pages/SchedulePage.tsx:111 | `filter((_, i) => i !== index)`: one element shorter when the index is in range, the same length otherwise (see `SchedulePage.DropIndexSpec`) |
| `SchedulePage.DropIndexSpec` | src/pages/SchedulePage.tsx:111 | the filter removes exactly the element at the index, keeping the rest in order; an index outside the schedule removes nothing |
| `SchedulePage.NewEntries` | src/pages/SchedulePage.tsx:34 | loading builds one new, distinct entry object per cached entry, holding its stripped value |
| `SchedulePage.Page.constructor` | src/pages/SchedulePage.tsx:13-22 | a new page has no working copy and no snapshot, so it shows "no device"; it is not modified, has no picked time and no edited index, and both dialogs are closed |
| `SchedulePage.Page.Load` | src/pages/SchedulePage.tsx:24-44 | with a cached config: deviceID kept apart; working copy and snapshot are one payload of fresh entries equal to the cached schedule without identifiers; without one: nothing changes |
| `SchedulePage.Page.HandleAutoStatusToggle` | src/pages/SchedulePage.tsx:57-63 | mode 1 becomes 0 and anything else 1; the schedule is unchanged; the page is modified; afterwards exactly one of the schedule controls and the auto notice shows |
| `SchedulePage.Page.HandleScheduleToggle` | src/pages/SchedulePage.tsx:65-73 | a valid index flips only that entry's enabled, in place (a snapshot sharing the entry sees it), and sets modified; an invalid index throws and changes nothing |
| `SchedulePage.Page.HandleSave` | src/pages/SchedulePage.tsx:75-88 | sends deviceID and the whole working copy; on success the cache becomes the response, the snapshot the working copy, and modified clears; on a remote or storage failure cache, snapshot and flag are unchanged |
| `SchedulePage.Page.HandleAddSchedule` | src/pages/SchedulePage.tsx:90-102 | no picked time: only an alert; otherwise one fresh entry {HH:mm, true} is appended after the unchanged prefix, the time passes validateTime, modified is set, the dialog closes and the picked time is cleared |
| `SchedulePage.Page.HandleEditSchedule` | src/pages/SchedulePage.tsx:104-108 | the index is remembered; for a valid index the picker opens on the entry's time, otherwise the handler throws |
| `SchedulePage.Page.WriteTime` | src/pages/SchedulePage.tsx:119-123 | the entry's time is overwritten in place (also as seen through the snapshot), the page is modified, and nothing else changes |
| `SchedulePage.Page.HandleTimePickerConfirm` | src/pages/SchedulePage.tsx:117-126 | the time is remembered; with an edited index only that entry's time becomes HH:mm (enabled, order and others kept) and modified is set; with none the schedule is unchanged; the edited index is kept; a stale index throws |
| `SchedulePage.Page.HandleDeleteSchedule` | src/pages/SchedulePage.tsx:110-115 | exactly the entry at the index is removed, the rest keep their order; an index outside the schedule removes nothing; modified is set either way |
| `SchedulePage.Page.OpenAddScheduleModal` | src/pages/SchedulePage.tsx:156 | opens the add dialog and changes nothing else |
| `SchedulePage.Page.CloseAddScheduleModal` | src/pages/SchedulePage.tsx:169-175 | closes the add dialog and changes nothing else |
| `SchedulePage.Page.OpenTimePicker` | src/pages/SchedulePage.tsx:173 | opens the picker and changes nothing else |
| `SchedulePage.Page.HandleTimePickerCancel` | src/pages/SchedulePage.tsx:128-130 | closes the picker and changes nothing else |
| `SchedulePage.RenderGuards` | src/pages/SchedulePage.tsx:137-188 | "no device" excludes the rest; schedule controls (mode 0) and auto notice (mode 1) are exclusive, and another mode shows neither; the switch is on iff the notice shows; save is enabled iff modified |
| `SchedulePage.ToggleTwice` | src/pages/SchedulePage.tsx:65-73 | toggling an entry twice restores the schedule's value |
| `SchedulePage.AddAfterEdit` | src/pages/SchedulePage.tsx:117-126 | after an edit, picking a time for a new entry also overwrites the edited entry's time |
| `FormState.Credentials.With` | src/pages/RegisterPage.tsx:73 | sets the named field to the value and keeps the other |
| `FormState.FieldErrors.Clear` | src/pages/RegisterPage.tsx:75 | clears the named field's error and keeps the other |
| `FormState.EditField` | src/pages/RegisterPage.tsx:72-77 | the edited field takes the text and its shown error is cleared; the other field's value and error are kept; no shown error means the errors stay as they were |
| `LoginPage.LoginErrors` | src/pages/LoginPage.tsx:31-39 | an error for a field iff it is empty, with the required message; no errors iff both fields are filled in |
| `LoginPage.Page.constructor` | src/pages/LoginPage.tsx:22-27 | empty form, no errors, not loading |
| `LoginPage.Page.ValidateForm` | src/pages/LoginPage.tsx:30-43 | errors are replaced wholesale; the result is true iff both fields are non-empty, iff there are no errors |
| `LoginPage.Page.HandleLogin` | src/pages/LoginPage.tsx:45-62 | loginUser is called iff the form is valid; if not, no alert and loading untouched; after a call, loading is false and the alert matches the outcome |
| `LoginPage.Page.OnChangeUsername` | src/pages/LoginPage.tsx:75-78 | the same field edit as the registration form's updateField: only the username changes, its error is cleared when shown so none shows afterwards, and the password's error is kept |
| `LoginPage.Page.OnChangePassword` | src/pages/LoginPage.tsx:89-92 | the same field edit as the registration form's updateField: only the password changes, its error is cleared when shown so none shows afterwards, and the username's error is kept |
| `RegisterPage.RegisterErrors` | src/pages/RegisterPage.tsx:31-41 | username error iff empty; the password error is exactly validatePassword's message (none iff valid); no errors iff username non-empty and password valid |
| `RegisterPage.ShortPasswordReported` | src/pages/RegisterPage.tsx:38-41 | a filled-in username with a short password gives only the too-short message |
| `RegisterPage.Page.constructor` | src/pages/RegisterPage.tsx:23-28 | empty form, no errors, not loading |
| `RegisterPage.Page.ValidateForm` | src/pages/RegisterPage.tsx:31-45 | previous errors are discarded; true iff the username is non-empty and the password passes validatePassword |
| `RegisterPage.Page.HandleRegister` | src/pages/RegisterPage.tsx:47-70 | registerUser is called iff the form is valid; if not, no alert and loading untouched; after a call, loading is false and the alert matches the outcome |
| `RegisterPage.Page.UpdateField` | src/pages/RegisterPage.tsx:72-77 | sets only the field, clears its error when one is shown, leaves the other field's value and error |

## Left out

- Network and storage. `updateDeviceConfig`, `loginUser` and `registerUser`
  are replaced by a parameter saying how the call ended. The AsyncStorage
  entry "deviceControl" is a field of the schedule page. Token storage and the
  config caching done inside `loginUser` (src/services/api.ts) are not part of
  this model.
- JSON parsing and printing. The cached config is taken as already parsed.
  Entries whose time is not text, are missing `schedule`, or carry fields
  other than `_id`, `time` and `enabled` are not modelled.
- SchedulePage.Page.HandleEditSchedule: moment's parse of the entry's text is
  the parameter `parsed`. It is tied to the text only when the text is a valid
  time. An unparseable text, which would give an Invalid Date, is not modelled.
- SchedulePage.Page.HandleAddSchedule: the picked time is always a valid
  hour and minute, so the appended text always passes validateTime. In the
  source, editing an entry whose stored time moment cannot parse sets
  `newTime` to an Invalid Date. Cancelling the picker and then adding appends
  the text "Invalid date"; the model does not have that case.
- Timing and concurrency. Each handler is one atomic step: `async` ordering,
  React's batching of state updates and re-render timing are not modelled. So
  the `loading` state during an awaited call, and the inputs being disabled
  then, are not modelled either. The schedule page's `loading` state is never
  changed by the code and is not modelled.
- Validators.ValidatePassword: lengths count Unicode characters, not UTF-16
  code units, so a character outside the Basic Multilingual Plane counts once
  rather than twice.
- Validators.ValidateUsername: the 3 and 30 character bounds count Unicode
  characters, not UTF-16 code units. A name with characters outside the Basic
  Multilingual Plane is rejected by both, since the charset rule refuses such
  characters. The message can differ, though: two such characters are too short
  in the model but pass the source's length rules and fail the charset rule.
- JsStrings.ToLowerCase: only A-Z are lower-cased; the full Unicode case
  mapping of `toLowerCase` is not modelled.
- Validators.ValidateLength: the length counts Unicode characters, not UTF-16
  code units. Numbers are integers: NaN, infinities and fractions are not
  modelled in validateRange, validateLength or validateFileSize, nor is how
  `${n}` prints them.
- JsStrings.IntToDecimal: every digit is printed. JavaScript prints integers
  of magnitude 10^21 or more in exponent form (`${1e21}` is "1e+21"), so the
  messages for such bounds differ from the source's.
- Validators.MissingFields: the record is a plain dictionary. Names looked up
  through `Object.prototype` (`toString`, `constructor`, ...) are treated as
  absent, whereas JavaScript would find the inherited member.
- Validators.IsEmptyCharacterization: objects are plain records; other object
  kinds (dates, maps) are not modelled.
- validateDate and validateUrl. They delegate to the `Date` and `URL` parsers.
- Screens other than these three. SettingPage, HistoryFeedPage, App, Header
  and the alert display are UI or fetch-and-store only.
- Navigation after a login, and the OK button of the registration alert.
- The console logging, and the password visibility toggle.

# Registration form schema (yup), modelled in Dafny

This project models the yup validation schema of the registration form in
`src/components/Yup.tsx`. The schema checks a twenty-field record:

- names and dates;
- an e-mail address;
- a list of projects;
- a CV type that decides whether a website link or an uploaded file is
  checked;
- phone numbers, pin code, photos, experience, skills, a description and
  the terms check-box.

The model is a pure validator with these parts:

- **Values** (`values.dfy`). A `Value` is one of: absent, string, integer,
  boolean, list, nested record, or a file descriptor carrying a MIME type.
  A record maps field names to values.
- **Rules** (`rules.dfy`). A `Rule` is required, a type check, a digit-run
  pattern, `min`/`max`, maximum length, minimum item count, `oneOf([true])`,
  a MIME whitelist, or URL/e-mail. `RunChain` runs a field's chain in order.
  The first failing rule gives the field's one message.
- **Paths** (`paths.dfy`). Error keys are dotted paths. Element `i` of
  `projects` reports under `projects.i`, and its fields under
  `projects.i.projectName`.
- **Engine** (`engine.dfy`). A field is plain, conditional (`When`) or an
  array of values or of objects.
  - `Resolve` picks the chain of a conditional field. It compares the
    sibling discriminator against a string with `===`.
  - `ValidateFields` builds the whole error map. The lemmas there show
    three things: each key is owned by exactly one field, array elements
    report independently, and validation reads nothing but the fields'
    own paths and their discriminators.
- **Form** (`form.dfy`). The twenty-field schema in declared order, with:
  - `Validate(record) : map<string, string>`;
  - `IsValid`, which holds exactly when the map is empty;
  - `MessageAt`, what the form shows under one key.
- **FormProperties** (`form_properties.dfy`). Field-by-field statements of
  what the form accepts and which message it shows. They hold for any URL
  and e-mail recogniser.
- **TransformFinding** (`findings.dfy`). The conditional rules as the
  source writes them (see "## Findings").

Decisions in the model:

- **Missing values.** `required` fails on an absent value, the empty string
  and the empty list.
- **Absent values.** Only `required` and the file-format test fail on an
  absent value. Every other rule lets it through, `oneOf([true])` included.
- **Empty strings.** The URL and e-mail checks accept `""`, as yup's
  recognisers do. The digit patterns reject it, because `matches` does not
  exclude the empty string.
- **Array elements.** An absent element of `projects` is validated as an
  empty object. Any other element that is not an object fails the object
  type check at `projects.i`.
- **Type-check message.** A value of the wrong kind gets the message
  `<path> must be a \`<kind>\` type`. This is an abbreviation of yup's
  text (see "## Left out").
- **String length.** `max(250)` compares JavaScript's `.length`, which
  counts UTF-16 code units. A character outside the Basic Multilingual Plane
  counts twice (`Values.Utf16Length`).

## Model

| member | source | states |
|---|---|---|
| Values.NatToString | src/components/Yup.tsx:236 | the index written into an element key is a non-empty run of decimal digits (two or more from 10 on), so it holds no `.` |
| Values.Utf16Length | src/components/Yup.tsx:80 | the `.length` of a string lies between its character count and twice that; it equals the count when no character lies beyond U+FFFF, and twice the count when every character does |
| Values.NatToStringInjective | src/components/Yup.tsx:236 | distinct element indexes give distinct key segments |
| Rules.DigitRunIff | src/components/Yup.tsx:61-65 | `/^\d{n}$/` matches a string exactly when it has `n` characters, all ASCII digits |
| Rules.MatchesDigitRun | src/components/Yup.tsx:61-65 | a string matching `^\d{n}$` has exactly `n` characters (the full characterisation is `Rules.DigitRunIff`) |
| Rules.Check | src/components/Yup.tsx:12-84 | an absent value fails exactly the `required` rule and the file-format test; a failing rule reports its own message, or the type message for a type check |
| Rules.RunChain | src/components/Yup.tsx:12-85 | a chain passes exactly when every rule passes; otherwise its outcome is the failure of some rule all of whose predecessors pass (the first failure wins) |
| Paths.UnderIndexDisjoint | src/components/Yup.tsx:236-254 | no key lies beneath two different element indexes of one array |
| Paths.UnderDotFreeDisjoint | src/components/Yup.tsx:12-85 | no key lies beneath two different top-level field names |
| Engine.Resolve | src/components/Yup.tsx:30-31 | the chain in force is the active or the base one; the discriminator equal to the string selects active; a non-string or any other string selects base (strict `===`, no coercion) |
| Engine.EntriesErrors | src/components/Yup.tsx:21-27 | an object element reports only under `p.name` for the names of its entries |
| Engine.ItemsErrors | src/components/Yup.tsx:18-28 | an array reports only beneath `p.i` for indexes `i` of its elements |
| Engine.ItemErrors | src/components/Yup.tsx:18-28 | every key an element reports lies beneath that element's own path |
| Engine.FieldErrors | src/components/Yup.tsx:12-85 | every key a field reports lies beneath the field's name |
| Engine.ValidateFields | src/components/Yup.tsx:12 | every key of the result lies beneath the name of some field of the schema |
| Engine.FieldOwnKey | src/components/Yup.tsx:12-85 | a field's own key shows the outcome of the chain in force for the record; a field that is not an array reports under no other key |
| Engine.ItemsLookup | src/components/Yup.tsx:18-28 | beneath `p.i` an array reports exactly what element `i` reports; the other elements have no say |
| Engine.ItemsAllPass | src/components/Yup.tsx:18-21 | an array's elements report nothing exactly when no element reports anything |
| Engine.EntriesLookup | src/components/Yup.tsx:21-27 | at `p.name` an object element shows the outcome of that entry's chain on the element's field of that name |
| Engine.FieldLookup | src/components/Yup.tsx:12 | in a schema with distinct dot-free names, a key beneath field `i` shows what field `i` reports there |
| Engine.ValidIffEveryFieldPasses | src/components/Yup.tsx:12 | a record produces no message exactly when every field produces none |
| Engine.ValidateDependsOnlyOnReads | src/components/Yup.tsx:30-31 | two records that agree on each field's path and its discriminator get identical results |
| Form.Validate | src/components/Yup.tsx:12-85 | every key of the form's error map lies beneath one of the twenty `FormData` keys |
| Form.IsValid | src/components/Yup.tsx:12 | a record is valid exactly when every field of the schema reports nothing |
| Form.MessageAt | src/components/Yup.tsx:418 | a key that lies beneath no `FormData` key never shows a message |
| Form.SchemaMatchesFormData | src/components/Yup.tsx:87-108 | the schema has one field per `FormData` key, in the same order |
| Form.SchemaWellFormed | src/components/Yup.tsx:12-85 | the schema's field names are dot-free and pairwise distinct |
| Form.OwnMessage | src/components/Yup.tsx:418 | the message shown under a field's name is the outcome of its chain, as resolved for this record |
| Form.ValidIffNoMessage | src/components/Yup.tsx:12 | a record is valid exactly when no key shows a message |
| Form.ValidateReadsOnlyFormData | src/components/Yup.tsx:87-108 | records that agree on the twenty `FormData` keys validate identically; other keys are ignored |
| FormProperties.MissingRequiredField | src/components/Yup.tsx:12-85 | a missing value in a field whose chain starts with `required` shows exactly that message and nothing beneath the name |
| FormProperties.FirstNameRules | src/components/Yup.tsx:13 | missing: "First Name is required"; a non-empty string passes; any other shape fails the string type check |
| FormProperties.LastNameRules | src/components/Yup.tsx:14 | missing: "Last Name is required"; a non-empty string passes; any other shape fails the string type check |
| FormProperties.DobRules | src/components/Yup.tsx:16 | missing: "DOB is required"; a non-empty string passes; any other shape fails the string type check |
| FormProperties.CvTypeRules | src/components/Yup.tsx:29 | missing: "CV Type is required"; a non-empty string passes; any other shape fails the string type check |
| FormProperties.ProfilePhotoRules | src/components/Yup.tsx:67 | missing: "Profile Photo is required"; a non-empty string passes; any other shape fails the string type check |
| FormProperties.EmailRules | src/components/Yup.tsx:17 | missing: "Email is required"; a non-empty string passes exactly when the recogniser accepts it, else "Invalid email" |
| FormProperties.OptionalTextNeverFails | src/components/Yup.tsx:15 | `education`, `address`, `emergencyNumber` and `coverPhoto` pass exactly when absent or a string, and report nothing beneath their names |
| FormProperties.DegreeTypeNeverFails | src/components/Yup.tsx:59 | `degreeType` reports nothing at or beneath its key when absent or a list of strings |
| FormProperties.StringListElement | src/components/Yup.tsx:74-77 | element `j` of `degreeType` or `skills` passes exactly when it is a string (or absent), else fails the type check at `name.j` |
| FormProperties.SkillsRules | src/components/Yup.tsx:74-77 | missing or empty list: "At least one skill is required"; a non-empty list passes its own key |
| FormProperties.MobileNumberRules | src/components/Yup.tsx:61-64 | missing: "Mobile number is required"; a non-empty string passes exactly when it is ten decimal digits, else "Invalid mobile number" |
| FormProperties.PinCodeRules | src/components/Yup.tsx:65 | absent passes; a string passes exactly when it is six decimal digits, else "Invalid pin code" (the empty string fails) |
| FormProperties.ExperienceRules | src/components/Yup.tsx:69-73 | absent: "Years of experience is required"; a number passes exactly when 0 <= n <= 10; below 0 and above 10 each name the bound broken |
| FormProperties.AboutMeRules | src/components/Yup.tsx:78-81 | missing: "Description is required"; a non-empty string passes exactly when its `.length` (UTF-16 code units) is at most 250, else "Description should be at most 250 characters" |
| FormProperties.AboutMeCountsCodeUnits | src/components/Yup.tsx:80 | 126 or more characters, all beyond U+FFFF, already exceed the limit |
| FormProperties.AgreeTermsRules | src/components/Yup.tsx:82-84 | `false`: "You must agree to the terms and conditions"; `true` and absent pass; a non-boolean fails the boolean type check |
| FormProperties.OnlineSelectsWebsiteLinkRules | src/components/Yup.tsx:30-39 | with `cvType === "online"`: a missing link is "Website Link is required", a non-empty link passes exactly when it is a URL (else "Invalid website link"), and `file` shows nothing |
| FormProperties.OtherModesPassWebsiteLinkThrough | src/components/Yup.tsx:38 | for any other `cvType`, the link is subject only to its `string()` type check |
| FormProperties.OfflineSelectsFileRules | src/components/Yup.tsx:41-58 | with `cvType === "offline"`: a missing file is "File is required", a PDF or Word file passes, any other file or value is "Invalid file format" |
| FormProperties.OtherModesPassFileThrough | src/components/Yup.tsx:57 | for any other `cvType` (online included), `file` shows nothing whatever it holds |
| FormProperties.ProjectsListRules | src/components/Yup.tsx:18-28 | a list shows "At least one project is required" exactly when empty; a non-list fails the array type check |
| FormProperties.AbsentProjectsUnchecked | src/components/Yup.tsx:18-28 | an absent `projects` reports nothing at or beneath its key |
| FormProperties.EmptyProjectsOnlyAggregate | src/components/Yup.tsx:274 | an empty list shows the aggregate message at `projects` and no per-index message |
| FormProperties.ProjectItemRules | src/components/Yup.tsx:21-27 | at `projects.i.projectName` and `projects.i.projectDescription`: missing is "... is required", a non-empty string passes; no other key beneath `projects.i` shows a message |
| FormProperties.ProjectEntryMessage | src/components/Yup.tsx:21-27 | at `projects.i.name` the form shows the outcome of that entry's chain on the element's field of that name (an absent element read as an empty object) |
| FormProperties.ProjectElementKeys | src/components/Yup.tsx:21-27 | an object or absent project element reports only under its `projectName` and `projectDescription` keys |
| FormProperties.ProjectItemQuietElsewhere | src/components/Yup.tsx:236-254 | for an object or absent element, every key beneath `projects.i` other than its two field keys shows nothing |
| FormProperties.ProjectNotObject | src/components/Yup.tsx:20-21 | an element that is not an object fails the object type check at `projects.i` |
| FormProperties.ProjectMessagesAreLocal | src/components/Yup.tsx:241 | the messages beneath `projects.i` depend on element `i` alone |
| TransformFinding.TransformSees | src/components/Yup.tsx:30-31 | `originalObject.cvType` on the field's own value is `undefined` unless that value is an object, and is the object's `cvType` otherwise |
| TransformFinding.AsWrittenFieldErrors | src/components/Yup.tsx:30-31 | as written, a conditional field reports under its own name only |
| TransformFinding.AsWrittenNeverActivates | src/components/Yup.tsx:41-42 | as written, for any field value that is not an object (string, file, absent) the test never holds and the base chain applies |
| TransformFinding.OnlineEmptyLinkAsWritten | src/components/Yup.tsx:30-39 | in any record in online mode with an empty link, nothing is reported as written, while the intended rules report "Website Link is required" |
| TransformFinding.OfflinePngAsWritten | src/components/Yup.tsx:41-58 | in any record in offline mode with a PNG file, nothing is reported as written, while the intended rules report "Invalid file format" |
| TransformFinding.OnlineEmptyLinkCounterexample | src/components/Yup.tsx:30-39 | online with an empty link: nothing is reported as written, while the intended rules report "Website Link is required" |
| TransformFinding.OfflinePngCounterexample | src/components/Yup.tsx:41-58 | offline with a PNG file: nothing is reported as written, while the intended rules report "Invalid file format" |

## Left out

- React rendering, JSX markup and react-hook-form wiring (`useForm`, `yupResolver`, `useFieldArray`, `register`, `watch`): these are UI code, not validation.
- The submit handler's `console.log`: this is I/O.
- What yup's URL and e-mail recognisers accept: that library code is not part of this model. They are the parameters `Recognisers.isUrl` and `Recognisers.isEmail`, and every property holds for any recogniser.
- The Promise returned by `.validate(...)` inside the two transforms: asynchronous semantics are out of scope. The intended synchronous conditional check is modelled instead.
- Floating point in `yup.number()`: `experience` is an integer.
- `FileList` versus `File`: `FormData.file` is a `FileList`, while the file test reads `.type` as if it were one `File`. The model has a single file descriptor with a MIME type.
- yup's casting (for example a numeric string cast to a number): values keep the shape they are given. A wrong shape fails the type check, unless the model counts it as missing (next line).
- Required before type check: every chain runs `required` before the type check, and `required` treats `""` and `[]` as missing whatever the field's kind. yup checks the type first, so `firstName: []` or `experience: ""` gets the type error from yup but the required message from the model.
- Required before the other tests: the model checks `required` before the tests declared ahead of it. For most fields this changes nothing: `max(250)` (line 80), `email` (line 17) and `url` (line 34) all pass on `""` and on an absent value, so yup also reports the required message there. Two cases differ:
  - `Yup.tsx:63-64` declares `matches` before `required`. yup reports "Invalid mobile number" for `mobileNumber: ""`, where the model reports "Mobile number is required".
  - An absent file in offline mode: under yup 0.x the custom file test (lines 45-53) runs in declared order and reports "Invalid file format", where the model reports "File is required". yup 1.x's own presence test runs first and also reports "File is required".
- Rules.TypeMessage: only the start of yup's type-error text. yup's message goes on with ", but the final value was: …" and a note when the value was cast. yup also writes an element's path as `projects[0]`, while the model keys it `projects.0`, the dotted path by which react-hook-form reads the nested errors.
- FormProperties.OtherModesPassWebsiteLinkThrough: when no branch matches, the link keeps its `string()` type check. This follows the code, not a reading in which a non-matching discriminator skips all validation of the dependent field.
- Determinism and non-mutation of the record hold by construction: `Validate` is a function of the record and the recognisers, so there is no separate lemma. `Form.ValidateReadsOnlyFormData` states the related frame property.
- `required` on `array()` differs between yup versions for `[]`. The model treats `[]` as missing (`skills`).
- `required` on `mixed()` (the offline `file`): the model treats `""` and `[]` as missing, which yup never does, since its presence test on `mixed()` only refuses `undefined` and `null`. So offline `file: ""` is "Invalid file format" in yup and "File is required" in the model.

## Findings

| source | as written | input that shows it | evidently intended | confidence | as-written member | corrected member |
|---|---|---|---|---|---|---|
| src/components/Yup.tsx:30-31 | yup calls a transform as `(currentValue, originalValue)`, so `originalObject.cvType` reads a property of the link string itself and is `undefined`; the online rules never apply | `{cvType: "online", websiteLink: ""}` reports nothing under `websiteLink` | in online mode an empty link is "Website Link is required" | not executed | TransformFinding.OnlineEmptyLinkCounterexample | FormProperties.OnlineSelectsWebsiteLinkRules |
| src/components/Yup.tsx:41-42 | the same argument mix-up in the file transform: the offline rules never apply | `{cvType: "offline", file: <image/png file>}` reports nothing under `file` | in offline mode a PNG is "Invalid file format" | not executed | TransformFinding.OfflinePngCounterexample | FormProperties.OfflineSelectsFileRules |

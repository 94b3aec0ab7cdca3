# Student admission services — a Dafny model

A model of the two services of the student admission application, and of the
database service's duplicate cleanup script, with proofs of what they promise.

- **Eligibility validator** (`validator-service/index.js`). The age calculator
  and the Reason Engine behind the eligibility check. The engine runs four
  fixed rules in order (name, date of birth, age, parent mobile), collects a
  flat list of reasons, and answers `Eligible` exactly when no rule failed.
- **Admission record schema** (`database-service/models/student.js`). It
  becomes a validation function from a candidate to either the stored record or
  the list of field errors. The function covers the required fields, the
  ten-digit mobile pattern, the `Approved`/`Rejected` enum, the trimming of the
  name, and the defaults for status, reasons and admission date.
- **Admission record store** (`database-service/index.js`). MongoDB becomes a
  sequence of records with unique identifiers. Create, list, summary and delete
  are pure transitions returning the next store and an outcome: the record, a
  validation error, or not-found.
- **Duplicate cleanup** (`database-service/remove_duplicates.js`). It is
  modelled step for step:
  - the `$group` stage keyed on (name, age, mobile, dob);
  - the `$match` on `count > 1`;
  - the loop that deletes all but the first id of each group and adds up the
    deleted counts.

  It is proved equal to a keep-first filter defined independently of
  grouping.

The clock is a parameter everywhere. The validator receives an `Instant` (a
day and the milliseconds elapsed in it), the store a `Timestamp`. A date of
birth is a validated (year, month, day) triple, or `None` when the field is
missing or does not parse.

Files, one module each:

- `wrappers.dfy`: `Option` and `Result`.
- `text.dfy`: JavaScript `trim` and the regular expression `/^\d{10}$/`.
- `dates.dfy`: calendar dates and clock instants.
- `eligibility.dfy`: the validator.
- `student.dfy`: the schema.
- `store.dfy`: the record store.
- `cleanup.dfy`: the duplicate cleanup.

Three behaviours of the code that the model keeps as written:

- **Admission date.** The create handler stamps every new record with the
  time of the request and reads no admission date from the request body
  (database-service/index.js:41-50). The schema's own default for an absent
  date applies only to records built elsewhere (`StudentSchema.ValidateRecord`).
- **Which record the cleanup keeps.** The first id of each group in the order
  the grouping stage pushed them, which the model takes to be store order
  (see "## Left out").
- **Summary counts.** Every modelled record has status `Approved` or
  `Rejected`, so in the model `approved + rejected == total`. In the service a
  record saved with an explicit `null` status has neither, so there the sum
  can fall short of the total (see "## Left out").

## Model

| member | source | states |
|---|---|---|
| Text.IsWhitespace | validator-service/index.js:50 | the characters `trim` strips: ECMAScript white space (tab, vertical tab, form feed, space, no-break space, byte order mark and the Unicode space separators) and line terminators (line feed, carriage return, line and paragraph separators) |
| Text.IsTenDigits | database-service/models/student.js:19 | `/^\d{10}$/`: exactly ten characters, each an ASCII digit `0`-`9`; without the `m` flag `$` matches only at the end of the input, so no trailing newline is admitted |
| Text.Trim | validator-service/index.js:50 | the trimmed string has no whitespace at either end and is no longer than the input |
| Text.TrimCutsOnlyEnds | database-service/models/student.js:8 | trimming removes only whitespace, and only at the two ends: the result is an infix with all-whitespace prefix and suffix cut off |
| Text.TrimEmptyIff | validator-service/index.js:50 | a name trims to the empty string exactly when it is all whitespace |
| Text.TrimFixesTrimmed | database-service/models/student.js:8 | the trim setter leaves a string unchanged exactly when it already has no whitespace at its ends |
| Text.TrimIdempotent | database-service/models/student.js:8 | trimming twice is trimming once |
| Dates.StartOfBeforeIff | validator-service/index.js:55-56 | a date-only birth date is before the clock exactly when its day is earlier, or is today and time has passed since midnight |
| Eligibility.CalculateAge | validator-service/index.js:22-35 | the age is the number of completed years: the `age`-th anniversary has been reached and the next one has not |
| Eligibility.AgeAtLeastIff | validator-service/index.js:26-32 | the age is at least n exactly when the n-th anniversary (year + n, same month and day) is not after today, so someone whose 18th birthday is today is 18 |
| Eligibility.AgeOnBirthday | validator-service/index.js:30-31 | on the birthday itself there is no decrement: the age is the difference of the years |
| Eligibility.AgeNonNegative | validator-service/index.js:22-35 | a birth date not after today gives an age of at least zero |
| Eligibility.NameMissing | validator-service/index.js:50 | rule 1 fails when the name is absent or trims to the empty string (an empty name is falsy and also trims to empty) |
| Eligibility.IsValidDob | validator-service/index.js:55-56 | the birth date is present, parsed, and the midnight starting its day lies strictly before the clock |
| Eligibility.MobileInvalid | validator-service/index.js:75 | rule 4 fails when the mobile is absent or not ten ASCII digits (an empty mobile is falsy and also fails the pattern) |
| Eligibility.DobAndAgeReasons | validator-service/index.js:58-72 | the date-of-birth reason appears exactly when the date is not valid; otherwise at most one age reason, below-minimum iff age < 18, above-maximum iff age > 35 |
| Eligibility.CollectReasons | validator-service/index.js:47-77 | each of the five reasons is in the list exactly when its rule fails |
| Eligibility.CollectReasonsInRuleOrder | validator-service/index.js:47-77 | the reasons come out in rule order: name, date of birth, age, mobile |
| Eligibility.CheckEligibility | validator-service/index.js:43-88 | one iff per reason; the age is null exactly when the date of birth is invalid, and otherwise at least zero; never the date-of-birth reason with an age reason; at most one age reason; rule order; at most three reasons; `Eligible` iff no reasons |
| Eligibility.AtMostThree | validator-service/index.js:58-72 | a reason list in rule order that never pairs the date-of-birth reason with an age reason has at most three entries |
| Eligibility.ReasonsDetermined | validator-service/index.js:47-77 | any list in rule order holding exactly the failing rules' reasons is the engine's list: the per-reason conditions and the order pin the output down |
| Eligibility.EligibleIff | validator-service/index.js:79-80 | eligible exactly when the name is present, the birth date is valid with an age from 18 to 35, and the mobile is ten digits |
| Eligibility.ExampleEligible | validator-service/index.js:43-88 | Asha, born 2000-01-15, checked on 2024-06-01 at any time of day: eligible, age 24, no reasons |
| Eligibility.ExampleThreeReasons | validator-service/index.js:43-88 | empty name, born 2010-01-01, mobile 12345, checked on 2024-06-01: not eligible, age 14, the name, below-minimum and mobile reasons in that order |
| StudentSchema.ParseStatus | database-service/models/student.js:27-31 | a status string is accepted exactly when it is `Approved` or `Rejected`, and maps back to the same string |
| StudentSchema.NameErrors | database-service/models/student.js:5-9 | the name error is reported exactly when the name is absent or empty after the trim setter |
| StudentSchema.MobileErrors | database-service/models/student.js:16-20 | the required error exactly when the mobile is absent or empty, the pattern error exactly when it is non-empty and not ten digits, never both |
| StudentSchema.StatusErrors | database-service/models/student.js:27-31 | an enum error exactly when a status other than the two listed is supplied, naming that value |
| StudentSchema.FieldErrors | database-service/models/student.js:3-42 | each required-field and pattern error is reported exactly when its field fails |
| StudentSchema.FieldErrorsEmptyIff | database-service/models/student.js:3-42 | no errors exactly when name (after trimming), age, ten-digit mobile and dob are all supplied and a supplied status is one of the two listed |
| StudentSchema.StatusNotAllowedIff | database-service/models/student.js:27-31 | the enum error carries the offending value and is reported exactly for a supplied status outside the enum |
| StudentSchema.ValidateRecord | database-service/models/student.js:3-46 | fails with the field errors exactly when there are some; an accepted record is well formed (trimmed non-empty name, ten-digit mobile), copies age, mobile and dob, and applies the defaults: status `Rejected`, reasons `[]`, admission date now |
| StudentSchema.ValidateWellFormed | database-service/models/student.js:3-46 | a well-formed record with every field supplied validates to itself, whatever the clock |
| StudentSchema.ValidateIdempotent | database-service/models/student.js:3-46 | validating an accepted record again accepts it unchanged |
| RecordStore.FreshId | database-service/index.js:53 | the identifier given to a new record is carried by no record in the store |
| RecordStore.CandidateOf | database-service/index.js:41-51 | the record built from a request carries its name, age, mobile, dob and status unchanged, its reasons when sent and `[]` otherwise, and the current time as admission date |
| RecordStore.Create | database-service/index.js:39-66 | a rejected candidate reports exactly its field errors, which are non-empty, and leaves the store unchanged; an accepted one is appended as exactly one new record under a fresh id, stamped now, with the request's trimmed name, age, mobile, dob and reasons, and the requested status or `Rejected` when none was sent |
| RecordStore.CreateKeepsValid | database-service/index.js:39-66 | creating keeps identifiers unique and every record well formed |
| RecordStore.CreateUpdatesSummary | database-service/index.js:39-66 | a successful create raises the total and the count of the new record's status by one |
| RecordStore.Insert | database-service/index.js:74 | inserting into a list sorted newest first keeps it sorted and adds exactly that record |
| RecordStore.List | database-service/index.js:72-83 | the listing is a permutation of the store, sorted by admission date, newest first |
| RecordStore.CountStatus | database-service/index.js:93-94 | the count of a status is at most the number of records, and equal to it exactly when every record has that status |
| RecordStore.Summarize | database-service/index.js:90-100 | total is the number of records; approved and rejected are each at most total and add up to it |
| RecordStore.Delete | database-service/index.js:114-134 | an unknown id reports not-found and changes nothing; a known id returns the record that carried it and removes exactly that position, one record fewer |
| RecordStore.DeleteRemovesId | database-service/index.js:117 | with unique ids, after deleting a known id no record carries it |
| RecordStore.DeleteKeepsOthers | database-service/index.js:117 | deleting a known id keeps every record with another id |
| RecordStore.DeleteKeepsValid | database-service/index.js:114-126 | deleting keeps identifiers unique and every record well formed |
| RecordStore.DeleteUpdatesSummary | database-service/index.js:114-126 | a deletion lowers the total and the count of the deleted record's status by one and leaves the other count alone |
| RecordStore.CreateThenDelete | database-service/index.js:39-58 | a created record is listed; deleting it returns it and restores the previous store, whose listing no longer holds it |
| DuplicateCleanup.KeyOf | database-service/remove_duplicates.js:17-22 | the grouping key: the stored name, age, mobile and date of birth, and nothing else |
| DuplicateCleanup.GroupIds | database-service/remove_duplicates.js:16-23 | a group's id list is empty exactly when no record has that key, and holds at most one id per record |
| DuplicateCleanup.GroupIdsComplete | database-service/remove_duplicates.js:23 | the id of every record with the key is pushed into the key's group |
| DuplicateCleanup.GroupIdsFromStore | database-service/remove_duplicates.js:16-23 | every pushed id belongs to a record of the store with the group's key |
| DuplicateCleanup.GroupByKey | database-service/remove_duplicates.js:15-26 | every key of the store has its group, every group belongs to a key of the store, no two groups share a key, and each group holds that key's ids and their number |
| DuplicateCleanup.MoreThanOne | database-service/remove_duplicates.js:27-31 | the match keeps exactly the groups whose count exceeds one |
| DuplicateCleanup.MoreThanOneKeepsDistinct | database-service/remove_duplicates.js:27-31 | the match stage only filters, so groups with distinct keys stay distinct |
| DuplicateCleanup.DuplicateGroups | database-service/remove_duplicates.js:14-32 | the aggregation returns exactly the groups of the store's keys that have more than one record, each key's group once |
| DuplicateCleanup.AllButFirst | database-service/remove_duplicates.js:39 | `ids.slice(1)`: the list without its first id, and the empty list for an empty one |
| DuplicateCleanup.DeleteMany | database-service/remove_duplicates.js:40 | no record is added and none whose id is to be removed survives |
| DuplicateCleanup.DeleteManyMembers | database-service/remove_duplicates.js:40 | a record survives the deletion exactly when it was in the store and its id is not among those to remove |
| DuplicateCleanup.DeleteGroups | database-service/remove_duplicates.js:36-42 | the running total equals the number of records the loop deleted |
| DuplicateCleanup.DeleteGroupsIsDeleteMany | database-service/remove_duplicates.js:36-42 | the loop over the groups deletes exactly the union of the ids after each group's first, and its running total is the number of records deleted |
| DuplicateCleanup.RemoveDuplicates | database-service/remove_duplicates.js:36-44 | the total the script reports is the number of records that disappeared |
| DuplicateCleanup.TailIff | database-service/remove_duplicates.js:39 | a record's id is past the first of its group exactly when an earlier record has the same key |
| DuplicateCleanup.DoomedIff | database-service/remove_duplicates.js:14-39 | with unique ids, a record's id is slated for deletion exactly when an earlier record shares its key |
| DuplicateCleanup.RemoveDuplicatesKeepsFirst | database-service/remove_duplicates.js:14-42 | the cleanup leaves exactly the first record of every key, in store order |
| DuplicateCleanup.KeptIff | database-service/remove_duplicates.js:37-41 | a record stays exactly when no earlier record has its key: the first of each group is kept, the rest deleted |
| DuplicateCleanup.UniqueKeySurvives | database-service/remove_duplicates.js:27-31 | a record whose key no other record has is never deleted |
| DuplicateCleanup.CleanupIsSubsequence | database-service/remove_duplicates.js:40 | what remains is a subsequence of the store: records are only removed, never reordered |
| DuplicateCleanup.CleanupKeys | database-service/remove_duplicates.js:14-42 | afterwards every key of the store is still present and no two records share a key |
| DuplicateCleanup.RemoveDuplicatesIdempotent | database-service/remove_duplicates.js:14-42 | running the cleanup on its own result removes nothing |
| DuplicateCleanup.RemovedCountIsExcess | database-service/remove_duplicates.js:36-41 | the reported total is the sum over the duplicate groups of one less than the group's size |

## Left out

- HTTP plumbing is not modelled: Express routing, CORS and JSON middleware, status codes, the response envelopes and messages, the health endpoints, server start-up and logging. Only the outcomes are kept: the decision, the record, a validation error, not-found.
- MongoDB connection handling and the process exit codes are left out, because they have no decision logic.
- The `createdAt`/`updatedAt` timestamps and the index on `admissionStatus` are left out, because nothing in the core reads them.
- Parsing of date strings is abstracted. A date of birth arrives as a validated calendar date, or `None` when it is missing, empty or unparsable.
- Time zones are not modelled. The source parses a date-only string as UTC midnight but reads year, month and day in local time; the model uses one calendar. In zones west of UTC this shifts the birth day by one, which is not captured.
- The two separate clock reads of the eligibility check (the validity test and the age calculator) are modelled as one instant `now`.
- RecordStore.Summarize: an explicit `null` admission status is not modelled, so its `approved + rejected == total` holds only for the modelled inputs, where a status is absent or a string. Mongoose applies the default only to an absent field and its enum check lets `null` through, so in the service such a record is stored with no status, counted in the total but in neither status count.
- Ages are integers. The schema's `age` is a JavaScript Number, so a fractional age such as 24.5 is accepted by the service; the model has no such ages.
- JavaScript type coercion is left out: `trim` on a non-string name, `RegExp.test` on a non-string mobile, and Mongoose casting of `age` and `dob`. Fields are typed, and a cast failure is not a modelled outcome.
- Identifiers are left out as ObjectIds. They are natural numbers, and a new record gets one more than the largest in use. Unlike an ObjectId, such an identifier can be handed out again after the record that held it is deleted, so in the model a late delete of an old identifier can remove a newer record where the service would answer not-found. The "invalid id" failure of `findByIdAndDelete` (a server error in the source) is not modelled.
- Mongoose's combined error message string is left out. Validation reports the list of field errors in schema order, each with its message text.
- Asynchrony and concurrent requests are left out. Every operation is one atomic transition, including the summary's three counts and the cleanup's aggregation and deletes.
- The order in which `$group` emits groups is not specified by MongoDB. The model takes the groups in order of first appearance; the records deleted do not depend on that order.
- DuplicateCleanup.KeptIff: MongoDB does not specify the order in which `$push` collects a group's ids when no `$sort` precedes `$group`, and the script has none, so the record of a group that survives could be any of them. The model takes the push order to be store order; which record is kept (here and in `DuplicateCleanup.RemoveDuplicatesKeepsFirst`) is a modelling choice. The other cleanup properties (one record per key, every key kept, the count removed) are proved for this order only.
- Equality of grouping keys is equality of the modelled values, not MongoDB's BSON comparison.
- RecordStore.List: ties on the admission date are broken by an insertion sort rather than by whatever order MongoDB returns; only sortedness and permutation are promised.
- DuplicateCleanup.RemoveDuplicates: the properties about what the cleanup keeps assume unique identifiers, which MongoDB's `_id` guarantees.
- Eligibility.CheckEligibility: determinism in (name, dob, mobile, now) is not a separate lemma; it holds because the check is a function of exactly those inputs.

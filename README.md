# Employee management: validators, record store and file codec

This project models the core of `Employee_Management.c`, a console program
that keeps up to 100 employee records in a global array and mirrors them in the
text file `employees.txt`. It has three parts:

- **Validators** (`validators.dfy`, module `Validators`): `isValidID`,
  `isValidPhone` and `isValidEmail`, written as the C loops run. Each has a
  lemma that states over all inputs which strings it accepts.
- **Record store** (`store.dfy`, class `Store.EmployeeStore`): the array
  `employees[MAX_EMPLOYEES]`, the count `employeeCount` and the file contents.
  It has methods for add, list, view, edit, delete, save and load. Each method
  takes the strings the program would have read from the terminal.
  - Add, view, edit and delete are proved against functions on the record
    sequence `employees[0..count)` in `records.dfy` (module `Records`). The
    lemmas about those functions state what each operation keeps: unique ids,
    capacity, order, and untouched records.
  - Save and load are proved against the encoder and the bounded decoder of
    `Codec`.
  - List states its result directly: one summary per record, in order.
- **File codec** (`codec.dfy`, module `Codec`):
  - `saveEmployees` is an encoder from records to text.
  - `loadEmployees` is a decoder. It applies `fgets` with a 100-byte buffer and
    then `sscanf("%[^,],%[^,],%[^,],%[^,],%s")` to each chunk. Both are modelled
    character by character, one model character standing for one byte: a chunk
    ends after its first newline, at the end of the file, or after 99 bytes; a
    `%[^,]` field is one or more non-comma characters followed by a comma; `%s`
    skips whitespace and takes the following run of non-whitespace.
  - The round trip `Decode(FgetsLines(Encode(recs))) == recs` is proved under
    field-content side conditions.
  - Other lemmas say which lines are dropped or read loosely, and how a comma
    in a name or an empty name is corrupted on reload.

`strings.dfy` (module `Strings`) holds the C library functions involved:
`isdigit`, `isspace`, `strchr`, `strrchr`, and `strcspn` with the newline cut.

Where the comments and the code disagree, the model follows the code:

- The comment of `isValidPhone` (line 30) and the prompt (line 123) describe
  the formats `XX-XXX-XXXX` and `XXX-XXXX-XXXX`.
- The loop at lines 35-41 demands a dash at indices 2 and 6 and digits
  everywhere else, for lengths 11 to 13. The test at line 34 adds nothing.
- So `"12-345-67890"` is accepted and `"123-4567-8901"` is rejected
  (`Validators.PhoneExamples`).

Behaviour of the code as written that the model reproduces and states in lemmas:

- `editEmployee` validates the raw `fgets` buffer, newline included:
  - A phone answer read with its newline is therefore never applied
    (`Records.EditPhoneWithNewlineIgnored`).
  - `"a@b.\n"` passes the email check and `"a@b."` is stored
    (`Records.EditCanStoreInvalidEmail`).
- `addEmployee` does not check name or position. A record with an empty name is
  dropped as a whole on the next load (`Codec.EmptyNameLost`). A comma in a name shifts the fields on the
  next load (`Codec.CommaInNameCorrupts`).
- `loadEmployees` checks neither the id format nor id uniqueness. A file with
  duplicate ids loads both records (`Codec.DecodeKeepsDuplicateIds`). A delete
  then removes only the first of them (`Records.DeleteRemovesOnlyFirst`).

## Model

| member | source | states |
|---|---|---|
| Strings.FirstIndex | Employee_Management.c:47 | strchr: the index of the first occurrence, with the character absent before it; None exactly when the character is absent |
| Strings.LastIndex | Employee_Management.c:48 | strrchr: the index of the last occurrence, with the character absent after it; None when absent |
| Strings.NewlineFreeLength | Employee_Management.c:121 | strcspn(s, "\n"): the prefix before it has no newline, and it stops at a newline or the end |
| Strings.TruncateAtNewline | Employee_Management.c:121 | the cut string is the prefix before the first newline: it has no newline and is followed by a newline or the end; a string without newline is kept whole |
| Strings.TruncateAtNewlineDropsTerminator | Employee_Management.c:188-190 | cutting a line read with its newline gives back the text typed |
| Validators.IdDigitsFromMeaning | Employee_Management.c:24-26 | the digit loop from index i succeeds iff every index from i to 2 holds a digit |
| Validators.IsValidIDMeaning | Employee_Management.c:22-28 | an id is accepted iff it is exactly three decimal digits |
| Validators.PhoneCharsFromMeaning | Employee_Management.c:35-41 | the loop from index i succeeds iff every later index holds '-' at 2 and 6 and a digit elsewhere |
| Validators.IsValidPhoneMeaning | Employee_Management.c:31-43 | a phone is accepted iff its length is 11 to 13, indices 2 and 6 are '-', and every other character is a digit |
| Validators.PhoneWithNewlineRejected | Employee_Management.c:31-43 | a string ending in a newline is never an accepted phone |
| Validators.PhoneExamples | Employee_Management.c:30-43 | "12-345-6789" and "12-345-67890" accepted; "123-45-6789" and the commented "123-4567-8901" rejected |
| Validators.IsValidEmailMeaning | Employee_Management.c:46-50 | an email is accepted iff some '@' precedes, by at least two positions, a last '.' that is not the final character |
| Validators.EmailExamples | Employee_Management.c:46-50 | "a@b.com" accepted; "a@b", "ab.com" and "a@.com" rejected |
| Validators.EmailNewlineQuirk | Employee_Management.c:46-50 | "a@b.\n" accepted while "a@b." is rejected |
| Records.IdIndex | Employee_Management.c:162-163 | the strcmp scan stops at the first record with the id; None iff no record has it |
| Records.NewEmployee | Employee_Management.c:102-139 | id, phone and email are stored as read; name and position are their buffers cut at the first newline, so they hold no newline |
| Records.AddSucceedsIff | Employee_Management.c:97-145 | an add succeeds iff there is room, the id is valid and new, and the phone and email are valid |
| Records.DuplicateIdRefused | Employee_Management.c:111-116 | an id already stored is refused whatever phone and email follow |
| Records.AddKeepsInvariants | Employee_Management.c:97-145 | an add either changes nothing or appends the new record, whose id, phone and email pass the validators; ids stay unique and the count never exceeds 100 |
| Records.AddThenFind | Employee_Management.c:142 | after a successful add the id is found at the old count |
| Records.Lookup | Employee_Management.c:157-171 | the record shown is the first record with the id; not found iff no record has the id |
| Records.DeleteShape | Employee_Management.c:233-240 | a delete removes the first match, keeps earlier records, moves later ones one place forward and shrinks the count by one; an absent id changes nothing |
| Records.DeleteThenNotFound | Employee_Management.c:233-240 | with unique ids, a view after a delete of the id finds nothing |
| Records.DeleteRemovesOnlyFirst | Employee_Management.c:233-240 | with duplicate ids the second record survives the delete |
| Records.DeleteKeepsUniqueIds | Employee_Management.c:233-240 | a delete keeps ids unique |
| Records.EditKeepsIds | Employee_Management.c:180-217 | an edit keeps the count and every id, changes no record but the first match, and so keeps ids unique |
| Records.EditBlankKeeps | Employee_Management.c:186-215 | a lone newline for a field keeps that field, whatever the other answers are; the id never changes; all four blank leaves the record as it was |
| Records.EditPhoneWithNewlineIgnored | Employee_Management.c:195-199 | a phone buffer ending in its newline is never stored |
| Records.EditInvalidPhoneKeepsRest | Employee_Management.c:186-199 | a rejected phone keeps the old phone while the new name is still stored |
| Records.EditCanStoreInvalidEmail | Employee_Management.c:211-215 | the buffer "a@b.\n" stores the email "a@b.", which the validator rejects |
| Codec.EncodeAppend | Employee_Management.c:84-91 | saving one more record appends exactly its line to the file |
| Codec.ChunkLength | Employee_Management.c:62 | one fgets call takes 1 to 99 characters, stopping after the first newline, at the end of the file or at 99 |
| Codec.FgetsLines | Employee_Management.c:62 | the chunks fgets returns concatenate to the file; each holds 1 to 99 characters with no newline before its last; every chunk but the last ends in a newline or is 99 characters long |
| Codec.FgetsLinesOfLine | Employee_Management.c:62 | a line under 100 characters ending in its only newline is returned by one fgets call |
| Codec.ScanField | Employee_Management.c:63 | a %[^,] conversion and its comma take one or more non-comma characters up to the first comma |
| Codec.ScanFields | Employee_Management.c:63-67 | n successful %[^,] conversions split off n comma-free, non-empty fields each followed by a comma |
| Codec.SpaceLength | Employee_Management.c:63 | %s first skips a prefix of whitespace, stopping at a non-space or the end |
| Codec.TokenLength | Employee_Management.c:63 | %s then takes the longest run of non-whitespace |
| Codec.ScanToken | Employee_Management.c:63 | a successful %s yields a non-empty token without whitespace |
| Codec.ParseLine | Employee_Management.c:63-68 | a line that converts all five fields gives a record whose first four fields are non-empty and comma-free and whose email is a non-empty token |
| Codec.Converted | Employee_Management.c:63-69 | a chunk adds at most one record, and a scannable (four non-empty comma-free fields and a non-empty email without whitespace) one |
| Codec.Decode | Employee_Management.c:62-70 | loading gives at most one record per chunk, each scannable (four non-empty comma-free fields and a non-empty email without whitespace) |
| Codec.DecodeAppend | Employee_Management.c:62-70 | loading two parts of a file in turn gives the records of both, in order |
| Codec.DecodeSkipsMalformed | Employee_Management.c:63-69 | a line that fails to convert adds nothing and does not disturb its neighbours |
| Codec.DecodeKeepsEveryParsedLine | Employee_Management.c:62-70 | if every chunk converts, there is one record per chunk |
| Codec.ScanFieldOf | Employee_Management.c:63 | a %[^,] conversion of "f,rest" with comma-free f takes exactly f |
| Codec.ScanFieldsStep | Employee_Management.c:63-67 | one more leading field adds exactly that field to the conversions |
| Codec.SpaceLengthOf | Employee_Management.c:63 | %s skips exactly the leading whitespace |
| Codec.TokenLengthOf | Employee_Management.c:63 | %s stops exactly at the end of the token |
| Codec.ScanTokenOf | Employee_Management.c:63 | %s on whitespace, a token and a whitespace-led tail gives the token |
| Codec.ParseLineComplete | Employee_Management.c:63-68 | every scannable (four non-empty comma-free fields and a non-empty email without whitespace) record, written with any leading whitespace before the email and any whitespace-led tail, parses back to itself |
| Codec.ScanFieldsOfJoin | Employee_Management.c:63-67 | n comma-free, non-empty fields each followed by a comma are taken back exactly by n %[^,] conversions |
| Codec.ParseLineSound | Employee_Management.c:63-68 | every line that parses is such a line for the record it gives |
| Codec.ScanTokenSplit | Employee_Management.c:63 | the text a successful %s reads is whitespace, the token, and a tail that is empty or starts with whitespace |
| Codec.TokenSplit | Employee_Management.c:63 | the token %s takes is followed by the end of the text or by whitespace |
| Codec.JoinFieldsCommas | Employee_Management.c:63 | n comma-terminated fields contribute at least n commas |
| Codec.FewerThanFourCommasRejected | Employee_Management.c:63-69 | a line with fewer than four commas is skipped |
| Codec.SplitUnique | Employee_Management.c:63 | a string splits in at most one way at the first comma |
| Codec.JoinFieldsUnique | Employee_Management.c:63-67 | comma-free fields are determined by the text they form |
| Codec.EmptyFieldRejected | Employee_Management.c:63-69 | a line in which one of the first four fields is empty is skipped |
| Codec.MissingEmailRejected | Employee_Management.c:63-69 | four fields followed only by whitespace are skipped |
| Codec.ExtraCommasAbsorbedIntoEmail | Employee_Management.c:63-68 | text after a fifth comma becomes part of the email |
| Codec.EncodeLineIsLineOf | Employee_Management.c:85-90 | the saved line is the five fields joined by commas, ended by a newline |
| Codec.EncodeLineHasOneNewline | Employee_Management.c:85-90 | the saved line of a storable record ends in its only newline |
| Codec.ConvertedEncodeLine | Employee_Management.c:63-90 | the saved line of a scannable (four non-empty comma-free fields and a non-empty email without whitespace) record loads as that record |
| Codec.DecodeCons | Employee_Management.c:62-70 | loading a chunk and then the rest gives the chunk's record before the rest's |
| Codec.FgetsLinesOfEncode | Employee_Management.c:62-91 | fgets reads a saved file back one saved line at a time |
| Codec.RoundTrip | Employee_Management.c:62-91 | loading what save wrote gives back the same records in the same order, when each field is non-empty and comma-free, id, name, phone and position hold no newline, the email holds no whitespace and each saved line is under 100 characters |
| Codec.RoundTripStep | Employee_Management.c:62-91 | the first saved record loads first, ahead of the rest |
| Codec.DecodeBounded | Employee_Management.c:62-70 | the bounded load keeps at most 100 records, a prefix of what the file decodes to, and all of them when they fit |
| Codec.DecodeSnoc | Employee_Management.c:62-70 | one more chunk adds the record it converts to, at the end |
| Codec.DecodeBoundedPrefix | Employee_Management.c:62-70 | a load that stops at the end of the file or at 100 records has stored what the bounded load keeps |
| Codec.LoadOverflows | Employee_Management.c:62-70 | a file of 101 saved lines decodes to 101 records, one more than the array holds |
| Codec.ReloadAfterSave | Employee_Management.c:62-91 | the bounded load of a saved store of at most 100 storable records gives it back |
| Codec.DecodeKeepsDuplicateIds | Employee_Management.c:62-70 | two saved lines with the same id both load, so ids are not unique after the load |
| Codec.CommaInNameLine | Employee_Management.c:85-90 | a name "a,b" writes the line of a record whose phone is b |
| Codec.CommaInNameCorrupts | Employee_Management.c:63-90 | when the position holds no whitespace, a comma in the name turns its second part into the phone and joins position and email in the email |
| Codec.EmptyNameLost | Employee_Management.c:63-90 | a record with an empty name is skipped on reload |
| Store.EmployeeStore.constructor | Employee_Management.c:18-19 | the store starts with no records |
| Store.EmployeeStore.Save | Employee_Management.c:77-94 | the file becomes the encoding of the records, and the records do not change |
| Store.EmployeeStore.Load | Employee_Management.c:53-74 | a missing file changes nothing; otherwise the records are those decoded from the file's fgets chunks, up to 100 |
| Store.EmployeeStore.LoadChunks | Employee_Management.c:60-70 | the loop over the fgets chunks, stopping at the end of the file or at 100 records, stores what the bounded load keeps |
| Store.EmployeeStore.LoadLine | Employee_Management.c:63-69 | one chunk appends the record it converts to, if any |
| Store.EmployeeStore.IndexOf | Employee_Management.c:162-163 | the strcmp scan returns the index of the first record with the id, or none exactly when no record has it |
| Store.EmployeeStore.Add | Employee_Management.c:97-145 | the outcome follows the checks in source order; only on success the new record is appended and the file rewritten |
| Store.EmployeeStore.List | Employee_Management.c:148-154 | one line per record, in array order, with its id, name and phone |
| Store.EmployeeStore.Find | Employee_Management.c:157-172 | the first record with the id, or not found exactly when no record has it |
| Store.EmployeeStore.Edit | Employee_Management.c:175-224 | found iff some record has the id; only that record changes, field by field as the edit rules say, and the file is rewritten when found |
| Store.EmployeeStore.Delete | Employee_Management.c:227-250 | found iff some record has the id; the first match is removed, and the file is rewritten when found |
| Store.EmployeeStore.RemoveAt | Employee_Management.c:235-238 | shifting every later record one slot forward in place and shrinking the count removes exactly the record at the index |

## Findings

| source | as written | input that shows it | evidently intended | confidence | as-written member | corrected member |
|---|---|---|---|---|---|---|
| Employee_Management.c:62-70 | the load loop stores every converted line at `employees[employeeCount]` and never compares the count with MAX_EMPLOYEES | an `employees.txt` of 101 lines, each `001,Ann,12-345-6789,Clerk,ann@x.com` | stop reading once 100 records are stored, as `addEmployee` does at line 98 | high; not executed | Codec.LoadOverflows | Codec.DecodeBounded |

`Codec.Decode` is the load as written, with no bound. `Store.EmployeeStore.Load`
uses the corrected, bounded load. `Codec.ReloadAfterSave` proves that the bounded
load gives back any store that `saveEmployees` wrote.

## Left out

- Terminal I/O is not modelled: the menu loop in `main`, the prompts, and the
  `scanf`/`getchar`/`fgets(stdin)` reads. Each operation takes the strings
  already read: scanf tokens for id, phone and email in add; raw fgets buffers
  for name and position in add and for all four fields in edit.
- `printf` output is not modelled. `viewEmployee` returns the record found, and
  `listEmployees` returns the id, name and phone of each record.
- File handles are not modelled. The file is a field holding `None` while the
  file does not exist. `fopen`, `fclose` and the "Error saving" path of
  `saveEmployees` are left out, because they are file-system effects.
- NUL characters inside strings are not modelled: a C string ends at its first
  NUL, and the model's strings have none.
- Characters are bytes: one model character stands for one byte of the C
  string, so text in a multi-byte encoding is modelled byte by byte, and the
  99-byte fgets limit and the 100-character bound on saved lines count bytes.
  Under a reading where a model character is a Unicode code point, a line of
  multi-byte text could be split by fgets where the model does not split it.
- C buffer widths are not modelled: `scanf("%s")`, `strcpy` and `sscanf`
  write into 100-byte fields with no limit. Fields are unbounded strings here;
  the round trip requires each saved line to be under 100 characters.
- The stray writes of a failed `sscanf` into the slot past the count are not
  modelled; nothing reads that slot before it is overwritten.
- Store.EmployeeStore.Load: models the corrected, bounded load (see Findings);
  a file with more than 100 loadable lines overruns the array in the code as
  written, which is undefined behaviour and not modelled beyond
  `Codec.LoadOverflows`.
- Store.EmployeeStore.Edit: builds the edited record in a local copy and stores
  it in one assignment, where the code copies each field with `strcpy` into the
  array slot; the record that results is the same.

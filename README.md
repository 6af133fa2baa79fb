# justInvest authorization and credential core, in Dafny

This project models the authorization and credential core of justInvest, a
small role-based access-control prototype for an investment firm, and proves
properties of that model.

- **Access control** (`AccessControl`, `Models`): role definitions and the
  lookups built from them. The one constraint kind is an inclusive time-of-day
  window, built from `HH:MM` parameters. The engine gives per-operation
  decisions and lists a role's permitted operations.
  - Time of day is microseconds since midnight, the resolution of Python's
    `datetime.time`. The date part of `as_of` is dropped.
  - `allow_self_signup` defaults to false and a decision's reason to `None`,
    as the datatype defaults in `Models` say.
- **Password policy** (`PasswordPolicy`): the eight rules checked in a fixed
  order. Every violation is collected, so checking is not fail-fast.
  - `validate` is an imperative method that builds the message list. It is
    proved against the function `Broken`, the rules the password breaks.
- **Credential file** (`PasswordFile`): the `username|role|hash` line format,
  blank-line skipping, first-match lookup and the append-only insert.
  - The insert repairs a missing trailing newline.
  - The file's text is the `content` field of the class `PasswordFile.PasswordFile`.
- **Hash strings** (`Authentication`): the `pbkdf2_sha256$<iterations>$<saltHex>$<digestHex>`
  serialiser and its parser, password verification, and the in-memory
  `CredentialStore`.
  - The key-derivation function is a parameter `kdf`.
  - The random salt is a parameter.
- **Workflows** (`Login`, `Enrollment`): the ordered checks of login and of
  self-service enrollment.
  - Enrollment's user list is the `users` field of the class `Enrollment.UsersFile`.
  - Each workflow is a method proved equal to a specification function. The
    lemmas state their properties about that function.
- **Operation catalog** (`Operations`): the seven operations as a constant,
  and the dictionary keyed by code.

Errors are values: `Errors.Result` carries either a value or the exception
the Python code raises, as the `Errors.Error` constructor named after its
class together with its message. Python built-ins the core relies on are in
`Text`, `Numbers` and `Ordering`. They cover `str.strip`, `str.lower`,
`str.split` with and without `maxsplit`, `str.rstrip`, `str.splitlines`,
`int`, `bytes.hex`, `bytes.fromhex` and `sorted`.

## Model

| member | source | states |
|---|---|---|
| AccessControl.Constraint.Evaluate | justinvest/access_control.py:32-42 | grants iff `start <= as_of <= end`, both bounds inclusive, so a window whose start is after its end never grants; a grant has no reason; a denial's reason names the window as `HH:MM`–`HH:MM` |
| AccessControl.BusinessHoursWindow | justinvest/access_control.py:32-42 | a 09:00–17:00 window builds to [9 h, 17 h], grants exactly inside it, denies one second after 17:00, and at 20:00 gives the business-hours reason |
| AccessControl.BusinessHoursBounds | justinvest/access_control.py:63-64 | `"09:00"` and `"17:00"` parse to 9 h and 17 h |
| AccessControl.ParseHHMM | justinvest/access_control.py:63-64 | the text parses iff the `%H:%M` match covers all of it, and then to the matched hour and minute, a whole number of minutes |
| AccessControl.MatchClock | justinvest/access_control.py:63-64 | a match exists iff `%H` and then `%M` after the colon take some digits; the hour and minute are the values of the digits taken, 0-23 and 0-59, and the match ends after the minute |
| AccessControl.ParseSingleDigitHour | justinvest/access_control.py:63-64 | an unpadded hour parses too: `d:MM` is `d` hours and `MM` minutes |
| AccessControl.HourWidth | justinvest/access_control.py:63-64 | `%H` takes two digits when they are at most 23 and `:` follows them, else one digit when `:` follows it, else nothing |
| AccessControl.MinuteWidth | justinvest/access_control.py:63-64 | `%M` takes a digit 0-5 and a digit when both are there, else one digit when there is one, else nothing |
| AccessControl.UnmatchedSingleQuoted | justinvest/access_control.py:63-64 | text that matches nothing and has no quote or control character is reported as `time data '<text>' does not match format '%H:%M'` |
| AccessControl.UnmatchedDoubleQuoted | justinvest/access_control.py:63-64 | such text holding a single quote and no double quote is reported in double quotes, as `repr` shows it |
| AccessControl.EscapedPlain | justinvest/access_control.py:63-64 | `repr` shows characters that need no escape as they are |
| AccessControl.HourTwentyFourUnmatched | justinvest/access_control.py:63-64 | `"24:00"` matches nothing |
| AccessControl.HourTwentyFourMessage | justinvest/access_control.py:63-64 | `"24:00"` is reported whole, in single quotes |
| AccessControl.QuoteForColonUnmatched | justinvest/access_control.py:63-64 | `"9'00"` matches nothing and is reported in double quotes |
| AccessControl.MinuteSixtyLeavesDigit | justinvest/access_control.py:63-64 | `"09:60"` reads minute 6 and fails with `unconverted data remains: 0` |
| AccessControl.TrailingLetterLeftOver | justinvest/access_control.py:63-64 | `"9:5x"` fails with `unconverted data remains: x` |
| AccessControl.FormatParseRoundTrip | justinvest/access_control.py:40 | parsing the `HH:MM` text of a whole-minute time gives that time back |
| AccessControl.ParseClock | justinvest/access_control.py:63-64 | two-digit hours 00-23 and minutes 00-59 parse to the matching time of day |
| AccessControl.Pad2 | justinvest/access_control.py:40 | `%H`/`%M` output is two digits whose value is the number |
| AccessControl.FormatHHMM | justinvest/access_control.py:40 | `strftime('%H:%M')` is five characters: the hour of the time in two digits, a colon, the minute in two digits |
| AccessControl.HourMinute | justinvest/access_control.py:40 | a whole-minute time splits into an hour 0-23 and a minute 0-59 that rebuild it |
| AccessControl.BuildTimeWindow | justinvest/access_control.py:58-65 | a missing or empty `start`/`end` fails with the fixed `ValueError`; it succeeds iff both parse, and the window holds the parsed times; otherwise the first bound that does not parse fails with `strptime`'s own message |
| AccessControl.Build | justinvest/access_control.py:53-56 | any type other than `time_window` fails with `Unsupported constraint type: <type>`; `time_window` goes to its builder |
| AccessControl.EvaluateConstraints | justinvest/access_control.py:80-88 | the chain grants iff every constraint builds and grants, and the empty chain grants; a grant has no reason |
| AccessControl.FirstNonGranting | justinvest/access_control.py:83-87 | every constraint before the returned index grants, and the one at it does not |
| AccessControl.EvaluateConstraintsStopsAtFirst | justinvest/access_control.py:83-88 | the chain's outcome is the first non-granting constraint's build error or denial, unchanged, or a plain grant when there is none |
| AccessControl.Engine.GetRole | justinvest/access_control.py:75-78 | an unknown name fails with `KeyError("Unknown role '<name>'")`; otherwise it returns the stored definition |
| AccessControl.Engine.IsOperationAllowed | justinvest/access_control.py:90-105 | an unknown role fails; a code outside the permissions is denied with `Role '<label>' lacks '<code>'.` before any constraint runs; otherwise the constraint chain decides; it grants iff the code is permitted and all constraints grant |
| AccessControl.Engine.PermittedOperations | justinvest/access_control.py:107-115 | an unknown role fails with `KeyError`; an error from the constraint chain propagates unchanged; a denying chain gives `[]`; a granting chain lists the permissions strictly ascending, exactly the role's permission set |
| AccessControl.NewEngine | justinvest/access_control.py:71-72 | `get_role` then knows exactly the defined names, and finds each name's last definition |
| AccessControl.PermittedIffAllowed | justinvest/access_control.py:98-115 | a code is listed by `permitted_operations` iff `is_operation_allowed` grants it |
| Models.RoleDefinition.Allows | justinvest/models.py:28-29 | a permission is allowed iff the role's permissions hold it, and so iff their sorted listing does |
| Models.KeyedByLast | justinvest/models.py:57-66 | a dict comprehension's keys are exactly the items' keys, and a key maps to the last item that carries it |
| Models.KeyedByLastDistinct | justinvest/models.py:57-66 | with distinct keys, every item is found under its own key |
| Models.BuildRoleLookup | justinvest/models.py:57-60 | keys are exactly the role names; each name maps to the last definition bearing it |
| Models.BuildUserLookup | justinvest/models.py:63-66 | keys are exactly the usernames; each username maps to the last record bearing it |
| Operations.CodesDistinct | justinvest/operations.py:16-52 | no two catalog operations share a code |
| Operations.CatalogByCode | justinvest/operations.py:55 | `OPERATIONS_BY_CODE` has exactly the catalog's codes as keys and each operation under its own code |
| PasswordPolicy.LoadWeakPasswords | justinvest/password_policy.py:44-45 | every non-blank entry is in the set stripped and lowercased; every member comes from some non-blank entry that way; every member is non-empty, stripped and lowercase |
| PasswordPolicy.NewPolicy | justinvest/password_policy.py:23-37 | the constructor keeps the bounds and special characters, and the blacklist rule then fires iff the lowercased password equals some non-blank entry, stripped and lowercased |
| PasswordPolicy.Policy.Validate | justinvest/password_policy.py:55-81 | the violations are the messages of the broken rules in checking order, and `is_valid` iff there are none |
| PasswordPolicy.Policy.Report | justinvest/password_policy.py:60-79 | one rule's check appends its message exactly when the rule is broken |
| PasswordPolicy.Policy.BrokenExactly | justinvest/password_policy.py:58-79 | a rule is reported iff the password breaks it, so the checks are independent and not fail-fast |
| PasswordPolicy.Policy.BrokenInOrder | justinvest/password_policy.py:58-79 | reported rules follow the order whitespace, length, lowercase, uppercase, digit, special, username, blacklist, each at most once, so at most 8 messages |
| PasswordPolicy.Policy.BrokenMessages | justinvest/password_policy.py:58-79 | the message list is the eight conditional appends, one after the other |
| PasswordPolicy.Policy.ValidExactly | justinvest/password_policy.py:81 | no violation message iff no rule is broken |
| PasswordPolicy.Policy.MessagesSpec | justinvest/password_policy.py:58-79 | one message per reported rule, the rule's own message at the same position |
| PasswordPolicy.Policy.WhitespaceRule | justinvest/password_policy.py:59-61 | the whitespace rule fires iff the password starts or ends with whitespace |
| PasswordPolicy.StripChangesLength | justinvest/password_policy.py:59-60 | stripping changes the length iff there is whitespace at either end |
| PasswordPolicy.SamplePolicyLoaded | tests/test_password_policy.py:8-11 | the fixture's `PasswordPolicy(weak_passwords={"password", "letmein", "12345678"})` is the sample policy the test lemmas use |
| PasswordPolicy.LoadPlainThree | justinvest/password_policy.py:45 | three entries already stripped and lowercased load as exactly those three |
| PasswordPolicy.LowercaseOnlyBreaks | tests/test_password_policy.py:21-27 | `"abcdefgh"` for `"alice"` breaks exactly the uppercase, digit and special rules |
| PasswordPolicy.CharacterClassesReportedTogether | tests/test_password_policy.py:21-27 | `"abcdefgh"` is reported for uppercase, digit and special together, in that order |
| PasswordPolicy.SamplePasswordValid | tests/test_password_policy.py:65-68 | `"Valid@123"` for `"alice"` breaks no rule |
| PasswordPolicy.UsernameMatchIgnoresCase | justinvest/password_policy.py:76-77 | `"Alice"` for username `"alice"` breaks the username rule |
| PasswordPolicy.LowerKeepsStripped | justinvest/password_policy.py:45 | lowercasing keeps a stripped, non-empty entry stripped and non-empty |
| PasswordPolicy.LowerIdempotent | justinvest/password_policy.py:78 | lowercasing twice is lowercasing once |
| PasswordPolicy.InCheckingOrderSnoc | justinvest/password_policy.py:58-79 | appending a later rule keeps the checking order |
| PasswordFile.Sanitize | justinvest/password_file.py:29-35 | succeeds iff the stripped value is non-empty and holds no pipe and no `\n`, returning it; otherwise the matching `ValueError` |
| PasswordFile.SanitizeIdempotent | justinvest/password_file.py:29-35 | sanitizing a sanitized value changes nothing |
| PasswordFile.ParseRecord | justinvest/password_file.py:38-42 | a parsed record, written back, is the line without its trailing `\n`s, and its username and role hold no pipe; a failure is the unpacking `ValueError` for the field count |
| PasswordFile.RecordFields | justinvest/password_file.py:41 | three fields from the split rejoin to the line, and the first two hold no pipe |
| PasswordFile.FormatOneLine | justinvest/password_file.py:100 | the line written for a record (`FormatRecord`) is one line when no field holds a line break and neither username nor role a pipe |
| PasswordFile.ParseFormatRecord | justinvest/password_file.py:38-42 | parsing the line written at line 100 gives the record back; the hash may hold a pipe |
| PasswordFile.FormatFields | justinvest/password_file.py:41 | splitting a written line at its first two pipes gives username, role and hash |
| PasswordFile.BlankIffStripsEmpty | justinvest/password_file.py:52 | a line is skipped iff it strips to nothing |
| PasswordFile.Records | justinvest/password_file.py:50-54 | the records read are never more than the lines |
| PasswordFile.RecordsOk | justinvest/password_file.py:50-54 | reading the lines raises iff some non-blank line does not parse |
| PasswordFile.RecordsAreLines | justinvest/password_file.py:50-54 | every record read from lines without line breaks, written back, is one of those lines |
| PasswordFile.IterRecords | justinvest/password_file.py:45-54 | every record `iter_records` yields, written back, is one of the file's lines |
| PasswordFile.IterSerialized | justinvest/password_file.py:45-54 | reading a file of written lines yields exactly the records written, in order |
| PasswordFile.RecordFor | justinvest/password_file.py:57-64 | a record found has the stripped username; when the file reads without error, `get_record` is the first record with that username among those `iter_records` yields |
| PasswordFile.FindRecord | justinvest/password_file.py:61-64 | a record found has the username searched for |
| PasswordFile.FirstWith | justinvest/password_file.py:61-64 | the first record with the username, or none iff no record has it |
| PasswordFile.FindAmongRecords | justinvest/password_file.py:57-64 | when every line parses, lookup is the first match among the records read |
| PasswordFile.FindRecordAppend | justinvest/password_file.py:61-64 | on more lines, a match in the earlier lines wins, and only a miss there looks further |
| PasswordFile.PasswordFile.GetRecord | justinvest/password_file.py:57-64 | the scan returns the first record whose username equals the stripped query; a malformed line before it raises |
| PasswordFile.HashPassword | justinvest/password_file.py:67-72 | succeeds iff the iteration count is in hashlib's range, giving `pbkdf2_sha256$<iterations>$<saltHex>$<digestHex>` of the derived digest |
| PasswordFile.HashPasswordVerifies | justinvest/password_file.py:67-72 | a hash made by `_hash_password` verifies the password it was made from |
| PasswordFile.NewRecord | justinvest/password_file.py:86-91 | a record `add_record` would store has no pipe in username or role, its username is not in the file yet, and the password verifies against its hash |
| PasswordFile.NewRecordOutcome | justinvest/password_file.py:86-91 | a username that fails `_sanitize` gives its error, then a role that fails gives its error, then an unreadable file gives the read error; insertion is possible iff both fields sanitize, the username is absent and the iteration count is valid; a present username fails with `Username '<name>' already exists.`; the record holds the stripped fields and the hash |
| PasswordFile.PasswordFile.AddRecord | justinvest/password_file.py:75-101 | on success the new text is the old text with the record appended; on any error the file is unchanged |
| PasswordFile.PasswordFile.CheckNewRecord | justinvest/password_file.py:86-91 | the checks before the write: sanitizing, the duplicate scan and hashing |
| PasswordFile.PasswordFile.Append | justinvest/password_file.py:94-100 | the write adds one `\n` only after an unterminated last line, then the record's line |
| PasswordFile.EndsWithNewlineRStrip | justinvest/password_file.py:104-112 | `_ends_with_newline` (`EndsWithNewline`) holds of the empty file, and of a non-empty one iff `rstrip("\n")` shortens it |
| PasswordFile.Appended | justinvest/password_file.py:94-112 | the old text is a strict prefix of the new, and the new text ends with `\n` |
| PasswordFile.AppendedLines | justinvest/password_file.py:94-100 | the new file's lines are the old lines, at most one empty line, then the record's line |
| PasswordFile.AddThenFind | justinvest/password_file.py:86-101 | after appending a record whose username was absent, lookup finds that record |
| PasswordFile.AddKeepsOthers | justinvest/password_file.py:86-101 | appending a record leaves the lookup of every other username unchanged |
| PasswordFile.AddThenGet | justinvest/password_file.py:75-101 | after a successful insert, `get_record` returns the stored record and the password verifies |
| PasswordFile.CarriageReturnUsername | justinvest/password_file.py:33 | a username with `\r` is accepted, and its own line then cannot be read back, because line 51 splits at `\r` |
| PasswordFile.LineBeforeCarriageReturn | justinvest/password_file.py:51 | `splitlines` ends a line at `\r` |
| PasswordFile.UnparsableFirstLine | justinvest/password_file.py:41 | a line without a pipe makes the scan raise the unpacking error |
| PasswordFile.Credentials | justinvest/password_file.py:115-123 | a lookup error propagates; no record gives `False`; a record gives exactly `verify_password` against its hash, errors included; when the file reads, `True` iff the first record with the stripped username exists and verifies |
| PasswordFile.AddThenWrongPassword | justinvest/password_file.py:115-123 | after a successful insert, a password with a different digest gives `False` |
| PasswordFile.PasswordFile.VerifyCredentials | justinvest/password_file.py:115-123 | `False` when no record exists, otherwise `verify_password` against the record's hash |
| Authentication.ParseHash | justinvest/authentication.py:17-24 | succeeds iff the string splits on `$` into four fields with an integer second field and hex third and fourth fields, returning them; anything else is `AuthenticationError("Corrupt password hash format.")` |
| Authentication.HashString | justinvest/password_file.py:72 | splitting the hash string at `$` gives back the tag, the iteration count's text, the salt's hex and the digest's hex |
| Authentication.ParseHashString | justinvest/authentication.py:17-22 | parsing the string written at password_file.py line 72 gives back the algorithm tag, iteration count, salt and digest |
| Authentication.HashStringOneLine | justinvest/password_file.py:72 | a hash string holds no line break |
| Authentication.CheckIterations | justinvest/authentication.py:33-35 | hashlib accepts iteration counts 1 to INT_MAX, raising `ValueError` below and `OverflowError` above |
| Authentication.VerifyPassword | justinvest/authentication.py:27-36 | a corrupt hash and a foreign algorithm tag raise `AuthenticationError`; an iteration count out of range raises hashlib's own error unchanged; otherwise the result is true iff the recomputed digest equals the stored one |
| Authentication.ZeroIterationsRaiseValueError | justinvest/authentication.py:27-36 | a hash with iteration count 0 raises hashlib's `ValueError`, not the corrupt-hash error |
| Authentication.VerifyOwnHash | justinvest/authentication.py:27-36 | a password verifies against its own hash; a password with a different digest does not |
| Authentication.NewCredentialStore | justinvest/authentication.py:49-50 | the store knows exactly the listed usernames, each under the last record that bears it |
| Authentication.CredentialStore.Authenticate | justinvest/authentication.py:52-60 | an exact-key miss gives `None`; a wrong password gives `None`; a match gives the record's username, full name and role; a corrupt stored hash raises |
| Authentication.AuthenticateEnrolled | justinvest/authentication.py:46-60 | a user stored with their password's hash, as the last record of that username, authenticates as that record; a password with a different digest gets `None` |
| Authentication.IntToStringHasNoDollar | justinvest/password_file.py:72 | the iteration field holds no `$` |
| Authentication.HexHasNoDollar | justinvest/password_file.py:72 | hex fields hold no `$` |
| Login.LoginResult.AllowedOperationLabels | justinvest/login.py:27-33 | the labels are `LabelsOf` the codes over the catalog, so unknown codes are dropped and order is kept; never more labels than codes; when every code is in the catalog, the k-th label is the k-th code's label |
| Login.LabelOf | justinvest/login.py:29-33 | a known code gives its label, an unknown code nothing |
| Login.LabelsOf | justinvest/login.py:29-33 | there are never more labels than codes |
| Login.LabelsOfAppend | justinvest/login.py:29-33 | labels follow the codes' order: the labels of two runs of codes are each run's labels, one after the other |
| Login.LabelsOfKnown | justinvest/login.py:29-33 | when every code is in the catalog, the k-th label is the k-th code's label |
| Login.LabelsOfUnknown | justinvest/login.py:32 | a code outside the catalog is dropped |
| Login.FirstRole | justinvest/login.py:68-72 | fails with `Role '<name>' is not recognized.` iff no role has the name; otherwise it returns the first role in order with that name |
| Login.FindRole | justinvest/login.py:68-72 | the loop with early return gives the first role with the name, or that error |
| Login.LoginOutcome | justinvest/login.py:36-65 | a successful login reports the trimmed, non-blank username, and the password verified against the credential file |
| Login.PerformLogin | justinvest/login.py:36-65 | login is the ordered checks: trim the username, look up the record, verify, resolve the role, list the operations |
| Login.BlankUsernameRefused | justinvest/login.py:47-49 | a blank username fails with `Username is required.` whatever the file holds |
| Login.SameErrorForUnknownUserAndWrongPassword | justinvest/login.py:51-55 | an unknown user and a wrong password fail with the same `Invalid username or password.` |
| Login.LoginSucceedsExactly | justinvest/login.py:47-65 | login succeeds iff the username is not blank, its record is found, the password verifies, the stored role is among the roles and the engine lists it; the result is the trimmed username, the first matching role's name and label, and the engine's listing |
| Login.LoginErrorsPropagate | justinvest/login.py:51-59 | nothing is caught: a read error from `get_record`, an error from `verify_credentials` and the engine's error from `permitted_operations` are the login's result unchanged, each at its own step |
| Login.RoleResolvedAfterCredentials | justinvest/login.py:54-57 | a stored role missing from the catalog is reported only for the right password; a wrong password still gets the generic error |
| Enrollment.SelfSignupRoles | justinvest/enrollment.py:31-34 | never more roles than given, each allowing self-signup |
| Enrollment.SelfSignupRolesMembers | justinvest/enrollment.py:31-34 | the roles kept are exactly those allowing self-signup |
| Enrollment.SelfSignupRolesAppend | justinvest/enrollment.py:31-34 | the filter keeps the roles' order |
| Enrollment.Reraised | justinvest/enrollment.py:57-60 | a `ValueError` becomes an `EnrollmentError` with the same message; other errors pass through |
| Enrollment.UserAdded | justinvest/enrollment.py:71-88 | fails with `Username '<name>' already exists in users.json.` iff the username is listed; otherwise it keeps every earlier entry and appends exactly `{username, full_name=username, role, password_hash}` |
| Enrollment.UsersFile.AppendUser | justinvest/enrollment.py:71-88 | the list becomes the one `UserAdded` gives, or stays as it was on the duplicate error |
| Enrollment.Refusal | justinvest/enrollment.py:49-53 | enrollment goes on iff the password breaks no rule and the role allows self-signup; a broken rule refuses with every violation joined by `"; "` |
| Enrollment.Store | justinvest/enrollment.py:57-68 | an `add_record` failure is re-raised as its `EnrollmentError` with both files untouched; success reports the username as given and `role.name`, and the user list gains exactly the entry with the stored hash; a failure leaves the user list as it was; untouched credentials mean failure |
| Enrollment.Enroll | justinvest/enrollment.py:37-68 | success implies the password breaks no rule and the role allows self-signup; a failure leaves the user list as it was |
| Enrollment.EnrollUser | justinvest/enrollment.py:37-68 | the result and both files' new contents are those of the ordered checks and writes: policy, role, credential line, user entry |
| Enrollment.RefusedBeforeWriting | justinvest/enrollment.py:49-53 | a policy-invalid password fails with every violation joined by `"; "`, checked before the role; a closed role fails next; neither writes anything |
| Enrollment.EnrollOnlyAppends | justinvest/enrollment.py:57-61 | whatever happens, the old credential text and the old user list are prefixes of the new ones |
| Enrollment.StoreOnlyAppends | justinvest/enrollment.py:57-61 | the two writes only append |
| Enrollment.BadFieldRefused | justinvest/enrollment.py:57-60 | a username, then a role, that `_sanitize` refuses gives an `EnrollmentError` with `_sanitize`'s message, and neither file changes |
| Enrollment.DuplicateCredentialRefused | justinvest/enrollment.py:57-60 | a username already in the credential file gives `EnrollmentError("Username '<stripped>' already exists.")`, and neither file changes |
| Enrollment.ReenrollRefused | justinvest/enrollment.py:57-60 | enrolling the same username again, with a password the policy accepts, gives that error and changes neither file |
| Enrollment.NoRollback | justinvest/enrollment.py:58-61 | when the user list already has the username, the error is the duplicate error, and the credential line stays written |
| Enrollment.EnrolledUserRecorded | justinvest/enrollment.py:58-68 | success reports the username as given and `role.name`; the user list gains exactly that entry; the credential file holds the trimmed username with the same hash, and the password verifies |
| Enrollment.EnrolledUserCanLogIn | justinvest/enrollment.py:58-68 | right after enrollment, login with the same password succeeds iff the role is among the login roles and the engine lists it, reporting the trimmed username and role |
| Text.Strip | justinvest/password_policy.py:59 | the result has no edge whitespace and is empty iff the text is all whitespace |
| Text.StripSlice | justinvest/password_file.py:30 | the stripped text is a slice of the text with only whitespace around it |
| Text.StripIdempotent | justinvest/login.py:47 | stripping twice is stripping once |
| Text.StripUnchanged | justinvest/password_policy.py:59 | text without edge whitespace strips to itself |
| Text.ToLower | justinvest/password_policy.py:76-78 | lowercasing keeps the length and maps each character on its own |
| Text.RStrip | justinvest/password_file.py:41 | the result is a prefix not ending in the character, and only that character was removed |
| Text.SplitN | justinvest/password_file.py:41 | `split` with `maxsplit` gives between one and `maxsplit + 1` pieces |
| Text.JoinSplitN | justinvest/password_file.py:41 | joining the pieces with the separator gives the text back |
| Text.SplitNPieces | justinvest/password_file.py:41 | only the last piece can hold the separator |
| Text.SplitNAt | justinvest/password_file.py:41 | a split peels off the text before the first separator |
| Text.Split | justinvest/authentication.py:19 | `split` without limit gives at least one piece |
| Text.JoinSplit | justinvest/authentication.py:19 | no piece holds the separator, and joining the pieces gives the text back |
| Text.SplitJoin | justinvest/authentication.py:19 | splitting pieces joined by a separator none of them holds gives the pieces back |
| Text.SplitAt | justinvest/authentication.py:19 | splitting peels off the text before the first separator |
| Text.SplitLines | justinvest/password_file.py:51 | no line holds a line break |
| Text.SplitLinesAppend | justinvest/password_file.py:51 | lines of text that ends with `\n` and of what follows it are read separately |
| Text.SplitLinesOfLine | justinvest/password_file.py:100 | a line without line breaks, then `\n`, reads as that one line |
| Text.SplitLinesTerminate | justinvest/password_file.py:99 | adding `\n` after an unterminated last line adds at most one empty line |
| Text.SplitLinesCarriageReturn | justinvest/password_file.py:51 | `\r\n` is one line break |
| Numbers.NatToStringValue | justinvest/password_file.py:72 | the decimal text of a number has that value |
| Numbers.IntToString | justinvest/password_file.py:72 | `str(n)` has a minus sign iff `n` is negative, then digits whose value is the magnitude |
| Numbers.ParseInt | justinvest/authentication.py:20 | `int()` accepts exactly an optional sign and at least one ASCII digit; the value is that of the digits, negated after a minus sign |
| Numbers.ParseIntOfIntToString | justinvest/authentication.py:20 | `int()` of the written iteration count gives it back |
| Numbers.ToHex | justinvest/password_file.py:72 | hex text is two lowercase hex digits per byte |
| Numbers.FromHex | justinvest/authentication.py:20 | parsed hex has two digits per byte |
| Numbers.ToHexAt | justinvest/password_file.py:72 | byte `i` is written at `2i` and `2i+1`, high nibble first |
| Numbers.ToHexDigits | justinvest/password_file.py:72 | every byte is written as its two nibbles, in order, high nibble first |
| Numbers.FromHexAccepts | justinvest/authentication.py:20 | `bytes.fromhex` succeeds iff the text is an even number of hex digits of either case |
| Numbers.FromHexAt | justinvest/authentication.py:20 | byte `i` is the value of the digit pair at `2i`, high nibble first |
| Numbers.HexRoundTrip | justinvest/authentication.py:20-21 | `bytes.fromhex(b.hex())` is `b` |
| Ordering.Sorted | justinvest/access_control.py:115 | `sorted` of a set is strictly ascending and holds exactly the set's elements |
| Ordering.AscendingListingUnique | justinvest/access_control.py:115 | two strictly ascending listings of the same elements are equal, so the sorted listing is unique |

## Left out

- PBKDF2-HMAC-SHA256 is the uninterpreted parameter `kdf`, and the random salt (`secrets.token_bytes`, `salt_bytes`) is a parameter. A wrong password is refused only when its digest differs.
- `hmac.compare_digest` is plain equality. Its constant-time behaviour cannot be expressed here.
- File-system mechanics are left out: `exists`, `mkdir`, `stat`, `open` and `seek`. A missing credential file reads as an empty one, which is how `iter_records` treats it (justinvest/password_file.py:49-50). `_ends_with_newline` is only called behind the `exists()` and `st_size > 0` guard at justinvest/password_file.py:95, and `EndsWithNewline` counts the empty text as terminated, so a missing or empty file gets no leading newline either way. Default paths are left out too, and so are the paths in `EnrollmentResult`. `Appended` writes `"\n"` as it is, as on POSIX: the file is opened in text mode (justinvest/password_file.py:97-100), so on Windows each written `"\n"` becomes `os.linesep`.
- The race between the duplicate check and the append across processes is not modelled. It is a concurrency concern.
- JSON reading and writing of the user list are not modelled. The list is a sequence of entries. A payload without a `users` key is the empty list.
- Role and user loading (`justinvest/repository.py`) is not part of this model.
- Reading the blacklist file, and the default `PasswordPolicy()` with its file, are not modelled. Only the explicit-set branch of `_load_weak_passwords` is. `enroll_user` takes its policy as an argument.
- `str.islower`, `str.isupper`, `str.isdigit` and `str.lower` are ASCII-only. `str.strip` and `str.splitlines` use Python's whitespace and line-break sets.
- `int()` is strict: an optional sign, then ASCII digits, with no surrounding whitespace or underscores. `bytes.fromhex` is strict too: an even number of hex digits, with no spaces.
- Numbers.ParseInt: CPython's `int()` also raises `ValueError` for more than 4300 digits (`sys.int_max_str_digits`). The model parses such text, so a hash with a huge iteration field reaches the `OverflowError` path of `hashlib` instead of the corrupt-hash error.
- `datetime.now()` defaults are left out. Every operation takes its `SessionContext` explicitly. Login's `as_of or datetime.now()` becomes the `context` argument of `Login.PerformLogin`.
- `strptime("%H:%M")` is modelled by its pattern: the hour as two digits up to 23 or one digit, a colon, the minute as two digits up to 59 or one digit, matched at the start of the text. Its digits are ASCII only, while Python's `\d` also accepts other Unicode decimal digits.
- `repr` in `strptime`'s message escapes backslashes, the chosen quote, ASCII control characters and U+007F to U+009F. Other characters that Python treats as non-printable are shown unescaped.
- The CLI programs and `format_operations_menu` are presentation and are not modelled.
- PasswordFile.AddThenGet: needs the stripped username and role free of line breaks. `_sanitize` forbids only `\n`, and `PasswordFile.CarriageReturnUsername` shows what happens otherwise.
- Enrollment.EnrolledUserRecorded: the same line-break condition, for the same reason.
- Enrollment.EnrolledUserCanLogIn: the same line-break condition, for the same reason.
- Enrollment.EnrollUser: enrollment hashes with the default 600 000 iterations, because `enroll_user` does not pass an iteration count.
- Authentication.VerifyOwnHash: a different password is refused only when `kdf` gives it a different digest.
- Authentication.AuthenticateEnrolled: the same condition on `kdf`.

Where the prose description of the system and the code differ, the model follows the code:

- `parse_record` splits at the first two `|` only, so a hash that holds `|` still parses and keeps it. Extra fields are not an error.
- `_sanitize` rejects only `|` and `\n`, not every line break.
- The errors are Python's own classes: `ValueError`, `KeyError`, `OverflowError`, `AuthenticationError`, `LoginError` and `EnrollmentError`.
- `permitted_operations` returns a sorted list.

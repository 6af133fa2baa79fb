/** The flat credential file `passwd.txt`: one `username|role|hash` record
    per line, read with `splitlines()`, blank lines skipped, and written only
    by appending. The file is its text; a file that does not exist reads
    as the empty text. */
module PasswordFile {
  import opened Errors
  import opened Numbers
  import opened Text
  import Authentication

  /** One line of the file. */
  datatype PasswordRecord = PasswordRecord(username: string, role: string, passwordHash: string)

  /** The iteration count `add_record` uses unless told otherwise. */
  const DefaultIterations: int := 600_000

  /** `_sanitize`: the stripped value, which must be non-empty and free of
      the field delimiter and of `"\n"`. */
  function Sanitize(value: string, fieldName: string): (r: Result<string>)
    ensures r.Ok? <==> Strip(value) != [] && '|' !in Strip(value) && '\n' !in Strip(value)
    ensures r.Ok? ==> r.value == Strip(value)
    ensures Strip(value) == [] ==> r == Err(ValueError(fieldName + " is required."))
    ensures Strip(value) != [] && r.Err? ==> r == Err(ValueError(fieldName + " cannot contain '|' or newlines."))
  {
    var stripped := Strip(value);
    if stripped == [] then Err(ValueError(fieldName + " is required."))
    else if '|' in stripped || '\n' in stripped then Err(ValueError(fieldName + " cannot contain '|' or newlines."))
    else Ok(stripped)
  }

  /** A sanitized value passes sanitizing again unchanged. */
  lemma SanitizeIdempotent(value: string, fieldName: string)
    requires Sanitize(value, fieldName).Ok?
    ensures Sanitize(Sanitize(value, fieldName).value, fieldName) == Sanitize(value, fieldName)
  {
    StripIdempotent(value);
  }

  /** The line `add_record` writes for a record, without its `"\n"`. */
  function FormatRecord(record: PasswordRecord): string {
    record.username + "|" + record.role + "|" + record.passwordHash
  }

  /** What Python says when `a, b, c = fields` finds only `n` fields. */
  function UnpackMessage(n: nat): string {
    "not enough values to unpack (expected 3, got " + NatToString(n) + ")"
  }

  /** `parse_record`: trailing `"\n"` dropped, then cut at the first two `|`;
      the hash takes the remainder, `|` included. A line with fewer than two
      `|` fails to unpack. What parses is the line it came from. */
  function ParseRecord(line: string): (r: Result<PasswordRecord>)
    ensures r.Err? ==> r == Err(ValueError(UnpackMessage(|SplitN(RStrip(line, '\n'), '|', 2)|)))
    ensures r.Ok? ==> FormatRecord(r.value) == RStrip(line, '\n')
                      && '|' !in r.value.username && '|' !in r.value.role
  {
    var fields := SplitN(RStrip(line, '\n'), '|', 2);
    if |fields| < 3 then Err(ValueError(UnpackMessage(|fields|)))
    else
      RecordFields(RStrip(line, '\n'));
      Ok(PasswordRecord(fields[0], fields[1], fields[2]))
  }

  /** Three pieces of a split line glue back into the line, and only the
      last may hold the delimiter. */
  lemma RecordFields(s: string)
    requires |SplitN(s, '|', 2)| == 3
    ensures var fields := SplitN(s, '|', 2);
            && fields[0] + "|" + fields[1] + "|" + fields[2] == s
            && '|' !in fields[0] && '|' !in fields[1]
  {
    var fields := SplitN(s, '|', 2);
    assert Join(fields, "|") == s by {
      JoinSplitN(s, '|', 2);
    }
    assert Join(fields, "|") == fields[0] + "|" + fields[1] + "|" + fields[2] by {
      JoinThree(fields, "|");
    }
    assert '|' !in fields[0] && '|' !in fields[1] by {
      SplitNPieces(s, '|', 2);
    }
  }

  /** A record whose username and role hold no `|`, and whose hash does not
      end in `"\n"`, parses back from its line. */
  lemma ParseFormatRecord(record: PasswordRecord)
    requires '|' !in record.username && '|' !in record.role
    requires record.passwordHash == [] || record.passwordHash[|record.passwordHash| - 1] != '\n'
    ensures ParseRecord(FormatRecord(record)) == Ok(record)
  {
    var line := FormatRecord(record);
    assert SplitN(RStrip(line, '\n'), '|', 2) == [record.username, record.role, record.passwordHash] by {
      var h := record.passwordHash;
      assert RStrip(line, '\n') == line by {
        assert line[|line| - 1] == if h == [] then '|' else h[|h| - 1];
      }
      FormatFields(record);
    }
  }

  /** A record's line splits at its first two `|` into its three fields. */
  lemma FormatFields(record: PasswordRecord)
    requires '|' !in record.username && '|' !in record.role
    ensures SplitN(FormatRecord(record), '|', 2) == [record.username, record.role, record.passwordHash]
  {
    var u, role, h := record.username, record.role, record.passwordHash;
    var tail := role + "|" + h;
    assert SplitN(tail, '|', 1) == [role, h] by {
      SplitNAt(role, '|', h, 1);
      assert SplitN(h, '|', 0) == [h];
    }
    assert SplitN(FormatRecord(record), '|', 2) == [u] + SplitN(tail, '|', 1) by {
      assert FormatRecord(record) == u + ['|'] + tail;
      SplitNAt(u, '|', tail, 2);
    }
  }

  /** `not line.strip()`: the line is whitespace only. */
  predicate IsBlank(line: string) {
    AllSpace(line)
  }

  lemma BlankIffStripsEmpty(line: string)
    ensures IsBlank(line) <==> Strip(line) == []
  {
  }

  /** `iter_records`, consumed to the end: the records of the non-blank
      lines in file order; the first line that does not parse raises. */
  function Records(lines: seq<string>): (r: Result<seq<PasswordRecord>>)
    ensures r.Ok? ==> |r.value| <= |lines|
    decreases |lines|
  {
    if lines == [] then Ok([])
    else if IsBlank(lines[0]) then Records(lines[1..])
    else
      var record :- ParseRecord(lines[0]);
      var rest :- Records(lines[1..]);
      Ok([record] + rest)
  }

  /** Reading succeeds exactly when every non-blank line parses. */
  lemma {:induction false} RecordsOk(lines: seq<string>)
    ensures Records(lines).Ok? <==> forall i | 0 <= i < |lines| && !IsBlank(lines[i]) :: ParseRecord(lines[i]).Ok?
    decreases |lines|
  {
    if lines != [] {
      RecordsOk(lines[1..]);
      assert forall i | 1 <= i < |lines| :: lines[1..][i - 1] == lines[i];
    }
  }

  /** `iter_records` on a file holding `content`: every record read,
      written back, is one of the file's lines. */
  function IterRecords(content: string): (r: Result<seq<PasswordRecord>>)
    ensures r.Ok? ==> forall k | 0 <= k < |r.value| :: FormatRecord(r.value[k]) in SplitLines(content)
  {
    var lines := SplitLines(content);
    if Records(lines).Ok? then
      RecordsAreLines(lines);
      Records(lines)
    else Records(lines)
  }

  /** Every record read from lines without line breaks, written back, is
      one of the lines. */
  lemma {:induction false} RecordsAreLines(lines: seq<string>)
    requires Records(lines).Ok?
    requires forall i | 0 <= i < |lines| :: NoLineBreak(lines[i])
    ensures forall k | 0 <= k < |Records(lines).value| :: FormatRecord(Records(lines).value[k]) in lines
    decreases |lines|
  {
    if lines != [] {
      var tail := lines[1..];
      RecordsStep(lines);
      assert forall i | 0 <= i < |tail| :: tail[i] == lines[i + 1];
      RecordsAreLines(tail);
      var records := Records(lines).value;
      forall k | 0 <= k < |records| ensures FormatRecord(records[k]) in lines {
        if IsBlank(lines[0]) {
          assert FormatRecord(Records(tail).value[k]) in tail;
        } else if k == 0 {
          ParsedUnbrokenLine(lines[0]);
        } else {
          assert FormatRecord(Records(tail).value[k - 1]) in tail;
        }
      }
    }
  }

  /** One step of reading: a blank first line adds nothing, and a non-blank
      one adds its record in front. */
  lemma RecordsStep(lines: seq<string>)
    requires lines != [] && Records(lines).Ok?
    ensures Records(lines[1..]).Ok?
    ensures IsBlank(lines[0]) ==> Records(lines).value == Records(lines[1..]).value
    ensures !IsBlank(lines[0]) ==> ParseRecord(lines[0]).Ok?
    ensures !IsBlank(lines[0]) ==> Records(lines).value == [ParseRecord(lines[0]).value] + Records(lines[1..]).value
  {
  }

  /** A line without line breaks that parses is its record written back. */
  lemma ParsedUnbrokenLine(line: string)
    requires NoLineBreak(line) && ParseRecord(line).Ok?
    ensures FormatRecord(ParseRecord(line).value) == line
  {
    RStripUnbroken(line);
  }

  /** A line without line breaks has no trailing `"\n"` to drop. */
  lemma RStripUnbroken(line: string)
    requires NoLineBreak(line)
    ensures RStrip(line, '\n') == line
  {
  }

  /** The loop of `get_record` over the lines: blank lines are skipped, a
      line that does not parse raises, and the first record with the
      username is returned. Lines after it are never read. */
  function FindRecord(lines: seq<string>, username: string): (r: Result<Option<PasswordRecord>>)
    ensures r.Ok? && r.value.Some? ==> r.value.value.username == username
    decreases |lines|
  {
    if lines == [] then Ok(None)
    else if IsBlank(lines[0]) then FindRecord(lines[1..], username)
    else
      var record :- ParseRecord(lines[0]);
      if record.username == username then Ok(Some(record)) else FindRecord(lines[1..], username)
  }

  /** `get_record(username)` on a file holding `content`: the query is
      stripped, and when the file reads without error the result is the
      first of its records with that username. */
  function RecordFor(content: string, username: string): (r: Result<Option<PasswordRecord>>)
    ensures r.Ok? && r.value.Some? ==> r.value.value.username == Strip(username)
    ensures IterRecords(content).Ok? ==> r == Ok(FirstWith(IterRecords(content).value, Strip(username)))
  {
    var lines := SplitLines(content);
    if Records(lines).Ok? then
      FindAmongRecords(lines, Strip(username));
      FindRecord(lines, Strip(username))
    else FindRecord(lines, Strip(username))
  }

  /** The first record with `username`, in list order. */
  function FirstWith(records: seq<PasswordRecord>, username: string): (r: Option<PasswordRecord>)
    ensures r.Some? ==> r.value in records && r.value.username == username
    ensures r.None? <==> forall k | 0 <= k < |records| :: records[k].username != username
  {
    if records == [] then None
    else if records[0].username == username then Some(records[0])
    else
      var r := FirstWith(records[1..], username);
      assert forall k | 1 <= k < |records| :: records[k] == records[1..][k - 1];
      r
  }

  /** When every line parses, `get_record` finds the first record of the
      username among those `iter_records` yields. */
  lemma {:induction false} FindAmongRecords(lines: seq<string>, username: string)
    requires Records(lines).Ok?
    ensures FindRecord(lines, username) == Ok(FirstWith(Records(lines).value, username))
    decreases |lines|
  {
    if lines != [] {
      FindAmongRecords(lines[1..], username);
    }
  }

  /** Scanning a concatenation scans the first part, then the second if
      nothing was found (and nothing was raised) in the first. */
  lemma {:induction false} FindRecordAppend(a: seq<string>, b: seq<string>, username: string)
    ensures FindRecord(a + b, username)
            == if FindRecord(a, username) == Ok(None) then FindRecord(b, username) else FindRecord(a, username)
    decreases |a|
  {
    if a == [] {
      assert a + b == b;
    } else {
      assert (a + b)[0] == a[0];
      assert (a + b)[1..] == a[1..] + b;
      FindRecordAppend(a[1..], b, username);
    }
  }

  /** `_ends_with_newline`: an empty file counts as ending in one. */
  predicate EndsWithNewline(content: string) {
    content == [] || content[|content| - 1] == '\n'
  }

  /** Reading the last byte agrees with `rstrip("\n")`: a non-empty file
      ends in a newline exactly when stripping newlines shortens it. */
  lemma EndsWithNewlineRStrip(content: string)
    ensures EndsWithNewline(content) <==> content == [] || |RStrip(content, '\n')| < |content|
  {
  }

  /** The text after appending `record`: one `"\n"` first when the file is
      non-empty and its last line is unterminated, then the record's line. */
  function Appended(content: string, record: PasswordRecord): (r: string)
    ensures |content| < |r| && r[..|content|] == content && EndsWithNewline(r)
  {
    var r := content + (if !EndsWithNewline(content) then "\n" else "") + FormatRecord(record) + "\n";
    assert r[..|content|] == content;
    r
  }

  /** The only lines appending adds are at most one empty line and the record's. */
  lemma AppendedLines(content: string, record: PasswordRecord) returns (gap: seq<string>)
    requires NoLineBreak(FormatRecord(record))
    ensures gap == [] || gap == [""]
    ensures SplitLines(Appended(content, record)) == SplitLines(content) + gap + [FormatRecord(record)]
  {
    var line := FormatRecord(record);
    SplitLinesOfLine(line);
    if EndsWithNewline(content) {
      gap := [];
      assert Appended(content, record) == content + (line + "\n");
      SplitLinesAppend(content, line + "\n");
    } else {
      var terminated := content + "\n";
      assert Appended(content, record) == terminated + (line + "\n");
      SplitLinesAppend(terminated, line + "\n");
      SplitLinesTerminate(content);
      gap := if SplitLines(terminated) == SplitLines(content) then [] else [""];
    }
  }

  /** A record the file can hold: no delimiter in username or role, and no
      line boundary anywhere in the line. */
  predicate WellFormed(record: PasswordRecord) {
    '|' !in record.username && '|' !in record.role
    && NoLineBreak(record.username) && NoLineBreak(record.role) && NoLineBreak(record.passwordHash)
  }

  /** A well-formed record is written as one line. */
  lemma FormatOneLine(record: PasswordRecord)
    requires WellFormed(record)
    ensures NoLineBreak(FormatRecord(record))
  {
    NoLineBreakAppend(record.username, "|");
    NoLineBreakAppend(record.username + "|", record.role);
    NoLineBreakAppend(record.username + "|" + record.role, "|");
    NoLineBreakAppend(record.username + "|" + record.role + "|", record.passwordHash);
  }

  /** The lines appending adds: a blank one at most, then one that is found
      under the record's username and no other. */
  lemma FindInAddedLines(gap: seq<string>, record: PasswordRecord, username: string)
    requires WellFormed(record) && (gap == [] || gap == [""])
    ensures FindRecord(gap + [FormatRecord(record)], username)
            == if username == record.username then Ok(Some(record)) else Ok(None)
  {
    var line := FormatRecord(record);
    assert FindRecord([line], username) == if username == record.username then Ok(Some(record)) else Ok(None) by {
      FindFormatted(record, username);
    }
    if gap == [""] {
      assert FindRecord(gap + [line], username) == FindRecord([line], username) by {
        assert IsBlank("");
        assert (gap + [line])[0] == "" && (gap + [line])[1..] == [line];
      }
    } else {
      assert gap + [line] == [line];
    }
  }

  /** The line of a record is found under its username and no other. */
  lemma FindFormatted(record: PasswordRecord, username: string)
    requires WellFormed(record)
    ensures FindRecord([FormatRecord(record)], username)
            == if username == record.username then Ok(Some(record)) else Ok(None)
  {
    var line := FormatRecord(record);
    assert ParseRecord(line) == Ok(record) by {
      FormatOneLine(record);
      ParseFormatRecord(record);
    }
    assert !IsBlank(line) by {
      NotBlank(line, |record.username|);
    }
    FindSingle(line, record, username);
  }

  /** A scan of one parsable line finds its record under its username only. */
  lemma FindSingle(line: string, record: PasswordRecord, username: string)
    requires !IsBlank(line) && ParseRecord(line) == Ok(record)
    ensures FindRecord([line], username) == if username == record.username then Ok(Some(record)) else Ok(None)
  {
    assert [line][1..] == [];
  }

  /** A line with a character that is not whitespace is not blank. */
  lemma NotBlank(line: string, i: nat)
    requires i < |line| && !IsSpace(line[i])
    ensures !IsBlank(line)
  {
  }

  /** After a record is appended to a file that has no record of its
      username, `get_record` finds exactly that record. */
  lemma AddThenFind(content: string, record: PasswordRecord)
    requires WellFormed(record)
    requires FindRecord(SplitLines(content), record.username) == Ok(None)
    ensures FindRecord(SplitLines(Appended(content, record)), record.username) == Ok(Some(record))
  {
    FormatOneLine(record);
    var gap := AppendedLines(content, record);
    AppendAssociative(SplitLines(content), gap, [FormatRecord(record)]);
    FindRecordAppend(SplitLines(content), gap + [FormatRecord(record)], record.username);
    FindInAddedLines(gap, record, record.username);
  }

  /** Appending a record changes the lookup of no other username. */
  lemma AddKeepsOthers(content: string, record: PasswordRecord, username: string)
    requires WellFormed(record) && username != record.username
    ensures FindRecord(SplitLines(Appended(content, record)), username) == FindRecord(SplitLines(content), username)
  {
    FormatOneLine(record);
    var gap := AppendedLines(content, record);
    AppendAssociative(SplitLines(content), gap, [FormatRecord(record)]);
    FindRecordAppend(SplitLines(content), gap + [FormatRecord(record)], username);
    FindInAddedLines(gap, record, username);
  }

  /** `_hash_password` with the salt given: `hashlib` checks the iteration
      count, then the digest is serialised with it. */
  function HashPassword(kdf: Authentication.Kdf, password: string, iterations: int, salt: seq<byte>): (r: Result<string>)
    ensures r.Ok? <==> 1 <= iterations <= Authentication.IntMax
    ensures r.Err? ==> r == Err(Authentication.CheckIterations(iterations).error)
    ensures r.Ok? ==> r.value == Authentication.HashString(iterations, salt, kdf(password, salt, iterations))
  {
    var checked :- Authentication.CheckIterations(iterations);
    Ok(Authentication.HashString(checked, salt, kdf(password, salt, checked)))
  }

  /** The password verifies against the hash `_hash_password` makes of it. */
  lemma HashPasswordVerifies(kdf: Authentication.Kdf, password: string, iterations: int, salt: seq<byte>)
    requires HashPassword(kdf, password, iterations, salt).Ok?
    ensures Authentication.VerifyPassword(kdf, password, HashPassword(kdf, password, iterations, salt).value) == Ok(true)
  {
    Authentication.VerifyOwnHash(kdf, password, password, iterations, salt);
  }

  /** The outcome of `add_record` on a file holding `content`, checks in
      source order: username, role, duplicate (the file is scanned, and a
      line that does not parse raises), hashing. */
  function NewRecord(content: string, kdf: Authentication.Kdf, username: string, role: string,
                     password: string, iterations: int, salt: seq<byte>): (r: Result<PasswordRecord>)
    ensures r.Ok? ==> '|' !in r.value.username && '|' !in r.value.role
    ensures r.Ok? ==> RecordFor(content, r.value.username) == Ok(None)
    ensures r.Ok? ==> Authentication.VerifyPassword(kdf, password, r.value.passwordHash) == Ok(true)
  {
    var name :- Sanitize(username, "username");
    var roleName :- Sanitize(role, "role");
    var existing :- RecordFor(content, name);
    if existing.Some? then Err(ValueError("Username '" + name + "' already exists."))
    else
      var passwordHash :- HashPassword(kdf, password, iterations, salt);
      StripIdempotent(username);
      HashPasswordVerifies(kdf, password, iterations, salt);
      Ok(PasswordRecord(name, roleName, passwordHash))
  }

  /** What `add_record` checks: it succeeds exactly when both fields
      sanitize, the file scans without error to no record of the stripped
      username, and the iteration count is accepted; a present username is
      refused by name; the stored record holds the stripped fields and the
      hash of the password. */
  lemma NewRecordOutcome(content: string, kdf: Authentication.Kdf, username: string, role: string,
                         password: string, iterations: int, salt: seq<byte>)
    ensures var r := NewRecord(content, kdf, username, role, password, iterations, salt);
      && (Sanitize(username, "username").Err? ==> r == Err(Sanitize(username, "username").error))
      && (Sanitize(username, "username").Ok? && Sanitize(role, "role").Err?
          ==> r == Err(Sanitize(role, "role").error))
      && (Sanitize(username, "username").Ok? && Sanitize(role, "role").Ok? && RecordFor(content, username).Err?
          ==> r == Err(RecordFor(content, username).error))
      && (r.Ok? <==> Sanitize(username, "username").Ok? && Sanitize(role, "role").Ok?
                     && RecordFor(content, username) == Ok(None) && 1 <= iterations <= Authentication.IntMax)
      && (Sanitize(username, "username").Ok? && Sanitize(role, "role").Ok?
          && RecordFor(content, username).Ok? && RecordFor(content, username).value.Some?
          ==> r == Err(ValueError("Username '" + Strip(username) + "' already exists.")))
      && (r.Ok? ==> r.value == PasswordRecord(Strip(username), Strip(role),
                                 Authentication.HashString(iterations, salt, kdf(password, salt, iterations))))
  {
    StripIdempotent(username);
  }

  /** After a successful `add_record`, `get_record(username)` returns the
      stored record and `verify_credentials(username, password)` holds, as
      long as username and role hold no line boundary other than `"\n"`
      (`_sanitize` refuses only `"\n"`, while reading splits at every
      boundary `splitlines()` knows). */
  lemma AddThenGet(content: string, kdf: Authentication.Kdf, username: string, role: string,
                   password: string, iterations: int, salt: seq<byte>)
    requires NewRecord(content, kdf, username, role, password, iterations, salt).Ok?
    requires NoLineBreak(Strip(username)) && NoLineBreak(Strip(role))
    ensures var record := NewRecord(content, kdf, username, role, password, iterations, salt).value;
      && RecordFor(Appended(content, record), username) == Ok(Some(record))
      && Credentials(Appended(content, record), kdf, username, password) == Ok(true)
  {
    var record := NewRecord(content, kdf, username, role, password, iterations, salt).value;
    NewRecordOutcome(content, kdf, username, role, password, iterations, salt);
    Authentication.HashStringOneLine(iterations, salt, kdf(password, salt, iterations));
    AddThenFind(content, record);
    HashPasswordVerifies(kdf, password, iterations, salt);
  }

  /** After a successful `add_record`, a password whose digest differs from
      the stored one is refused: `verify_credentials` returns `False`. */
  lemma AddThenWrongPassword(content: string, kdf: Authentication.Kdf, username: string, role: string,
                             password: string, other: string, iterations: int, salt: seq<byte>)
    requires NewRecord(content, kdf, username, role, password, iterations, salt).Ok?
    requires NoLineBreak(Strip(username)) && NoLineBreak(Strip(role))
    requires kdf(other, salt, iterations) != kdf(password, salt, iterations)
    ensures var record := NewRecord(content, kdf, username, role, password, iterations, salt).value;
            Credentials(Appended(content, record), kdf, username, other) == Ok(false)
  {
    NewRecordOutcome(content, kdf, username, role, password, iterations, salt);
    AddThenGet(content, kdf, username, role, password, iterations, salt);
    Authentication.VerifyOwnHash(kdf, password, other, iterations, salt);
  }

  /** A carriage return passes `_sanitize`, but after the record is written
      its line reads back as two, and looking the user up raises. */
  lemma CarriageReturnUsername(passwordHash: string)
    ensures Sanitize("a\rb", "username") == Ok("a\rb")
    ensures var record := PasswordRecord("a\rb", "trader", passwordHash);
            RecordFor(Appended("", record), "a\rb") == Err(ValueError(UnpackMessage(1)))
  {
    assert Strip("a\rb") == "a\rb" by {
      StripUnchanged("a\rb");
    }
    assert Sanitize("a\rb", "username") == Ok("a\rb") by {
      var s := "a\rb";
      assert forall i | 0 <= i < |s| :: s[i] == 'a' || s[i] == '\r' || s[i] == 'b';
    }
    var record := PasswordRecord("a\rb", "trader", passwordHash);
    var text := Appended("", record);
    assert |text| >= 3 && text[..3] == "a\rb" by {
      assert text == FormatRecord(record) + "\n";
      assert text[0] == 'a' && text[1] == '\r' && text[2] == 'b';
    }
    LineBeforeCarriageReturn(text);
    UnparsableFirstLine(SplitLines(text[2..]), "a\rb");
  }

  /** A text starting `"a\rb"` has `"a"` for its first line. */
  lemma LineBeforeCarriageReturn(text: string)
    requires |text| >= 3 && text[..3] == "a\rb"
    ensures SplitLines(text) == ["a"] + SplitLines(text[2..])
  {
    assert text[0] == 'a' && text[1] == '\r' && text[2] == 'b';
    assert LineEnd(text, 1) == 1;
    assert LineEnd(text, 0) == 1;
    assert BreakWidth(text, 1) == 1;
    assert text[..1] == "a";
  }

  /** The line `"a"` has no delimiter, so a scan that reaches it raises. */
  lemma UnparsableFirstLine(rest: seq<string>, username: string)
    ensures FindRecord(["a"] + rest, username) == Err(ValueError(UnpackMessage(1)))
  {
    assert ParseRecord("a") == Err(ValueError(UnpackMessage(1))) by {
      assert RStrip("a", '\n') == "a";
      assert SplitN("a", '|', 2) == ["a"];
    }
    assert !IsBlank("a") by {
      NotBlank("a", 0);
    }
    assert (["a"] + rest)[0] == "a";
  }

  /** `verify_credentials` on a file holding `content`: no record means no
      match; otherwise the password is verified against the stored hash. */
  function Credentials(content: string, kdf: Authentication.Kdf, username: string, password: string): (r: Result<bool>)
    ensures RecordFor(content, username).Err? ==> r == Err(RecordFor(content, username).error)
    ensures RecordFor(content, username) == Ok(None) ==> r == Ok(false)
    ensures RecordFor(content, username).Ok? && RecordFor(content, username).value.Some? ==>
              r == Authentication.VerifyPassword(kdf, password, RecordFor(content, username).value.value.passwordHash)
    ensures IterRecords(content).Ok? ==>
              (r == Ok(true) <==> (FirstWith(IterRecords(content).value, Strip(username)).Some?
                 && Authentication.VerifyPassword(kdf, password,
                      FirstWith(IterRecords(content).value, Strip(username)).value.passwordHash) == Ok(true)))
  {
    var found :- RecordFor(content, username);
    if found.None? then Ok(false)
    else Authentication.VerifyPassword(kdf, password, found.value.passwordHash)
  }

  /** The lines of a file written by appending `records` to an empty file. */
  function Serialized(records: seq<PasswordRecord>): string {
    if records == [] then [] else FormatRecord(records[0]) + "\n" + Serialized(records[1..])
  }

  /** `iter_records` reads back, in order, the records written to the file. */
  lemma IterSerialized(records: seq<PasswordRecord>)
    requires forall k | 0 <= k < |records| :: WellFormed(records[k])
    ensures IterRecords(Serialized(records)) == Ok(records)
  {
    RecordsSerialized(records);
  }

  /** The line-by-line reading behind `IterSerialized`. */
  lemma {:induction false} RecordsSerialized(records: seq<PasswordRecord>)
    requires forall k | 0 <= k < |records| :: WellFormed(records[k])
    ensures Records(SplitLines(Serialized(records))) == Ok(records)
    decreases |records|
  {
    if records != [] {
      var record, rest := records[0], records[1..];
      SerializedLines(records);
      WrittenLineReads(record);
      RecordsSerialized(rest);
      RecordsCons(FormatRecord(record), record, SplitLines(Serialized(rest)));
      HeadTail(records);
    }
  }

  /** A written line is not blank and parses back to its record. */
  lemma WrittenLineReads(record: PasswordRecord)
    requires WellFormed(record)
    ensures !IsBlank(FormatRecord(record)) && ParseRecord(FormatRecord(record)) == Ok(record)
  {
    ParseFormatRecord(record);
    NotBlank(FormatRecord(record), |record.username|);
  }

  /** The first record written is the first line read back. */
  lemma SerializedLines(records: seq<PasswordRecord>)
    requires records != [] && WellFormed(records[0])
    ensures SplitLines(Serialized(records)) == [FormatRecord(records[0])] + SplitLines(Serialized(records[1..]))
  {
    var line := FormatRecord(records[0]);
    FormatOneLine(records[0]);
    SplitLinesOfLine(line);
    SplitLinesAppend(line + "\n", Serialized(records[1..]));
  }

  /** A line that parses, ahead of lines that read, adds its record in front. */
  lemma RecordsCons(line: string, record: PasswordRecord, more: seq<string>)
    requires !IsBlank(line) && ParseRecord(line) == Ok(record) && Records(more).Ok?
    ensures Records([line] + more) == Ok([record] + Records(more).value)
  {
    assert ([line] + more)[0] == line && ([line] + more)[1..] == more;
  }

  /** The credential file, held as its text. */
  class PasswordFile {
    var content: string

    constructor(content: string)
      ensures this.content == content
    {
      this.content := content;
    }

    /** `get_record`. */
    method GetRecord(username: string) returns (r: Result<Option<PasswordRecord>>)
      ensures r == RecordFor(content, username)
      ensures r.Ok? && r.value.Some? ==> r.value.value.username == Strip(username)
    {
      var name := Strip(username);
      var lines := SplitLines(content);
      var i := 0;
      while i < |lines|
        invariant 0 <= i <= |lines|
        invariant FindRecord(lines[i..], name) == FindRecord(lines, name)
      {
        assert lines[i..][0] == lines[i] && lines[i..][1..] == lines[i + 1..];
        if !IsBlank(lines[i]) {
          var parsed := ParseRecord(lines[i]);
          if parsed.Err? {
            return Err(parsed.error);
          }
          if parsed.value.username == name {
            return Ok(Some(parsed.value));
          }
        }
        i := i + 1;
      }
      return Ok(None);
    }

    /** `add_record`: on success the record's line is appended (after one
        `"\n"` if the last line was unterminated) and the old text is left
        as it was; on any error nothing is written. */
    method AddRecord(kdf: Authentication.Kdf, username: string, role: string, password: string,
                     iterations: int, salt: seq<byte>) returns (r: Result<PasswordRecord>)
      modifies this
      ensures r == NewRecord(old(content), kdf, username, role, password, iterations, salt)
      ensures r.Ok? ==> content == Appended(old(content), r.value)
      ensures r.Err? ==> content == old(content)
    {
      r := CheckNewRecord(kdf, username, role, password, iterations, salt);
      if r.Ok? {
        Append(r.value);
      }
    }

    /** The part of `add_record` before the write: sanitizing, the duplicate
        scan and hashing. */
    method CheckNewRecord(kdf: Authentication.Kdf, username: string, role: string, password: string,
                          iterations: int, salt: seq<byte>) returns (r: Result<PasswordRecord>)
      ensures r == NewRecord(content, kdf, username, role, password, iterations, salt)
    {
      var name :- Sanitize(username, "username");
      var roleName :- Sanitize(role, "role");
      var existing :- GetRecord(name);
      if existing.Some? {
        return Err(ValueError("Username '" + name + "' already exists."));
      }
      var passwordHash :- HashPassword(kdf, password, iterations, salt);
      return Ok(PasswordRecord(name, roleName, passwordHash));
    }

    /** The write of `add_record`: the `"\n"` that repairs an unterminated
        last line, then the record's line. */
    method Append(record: PasswordRecord)
      modifies this
      ensures content == Appended(old(content), record)
    {
      var needsLeadingNewline := !EndsWithNewline(content);
      if needsLeadingNewline {
        content := content + "\n";
      }
      content := content + FormatRecord(record) + "\n";
    }

    /** `verify_credentials`. */
    method VerifyCredentials(kdf: Authentication.Kdf, username: string, password: string) returns (r: Result<bool>)
      ensures r == Credentials(content, kdf, username, password)
    {
      var found :- GetRecord(username);
      if found.None? {
        return Ok(false);
      }
      r := Authentication.VerifyPassword(kdf, password, found.value.passwordHash);
    }
  }
}

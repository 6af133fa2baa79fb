/** Stored password hashes: the `<algorithm>$<iterations>$<saltHex>$<digestHex>`
    string, its parser, password verification against it, and the in-memory
    credential store built from the user list. PBKDF2-HMAC-SHA256 is the
    parameter `kdf`, a deterministic function of password, salt and
    iteration count. */
module Authentication {
  import opened Errors
  import opened Numbers
  import opened Models
  import Text

  /** The key-derivation function `hashlib.pbkdf2_hmac("sha256", password, salt, iterations)`
      for the iteration counts it accepts. */
  type Kdf = (string, seq<byte>, int) -> seq<byte>

  const Algorithm: string := "pbkdf2_sha256"

  const CorruptHashMessage: string := "Corrupt password hash format."

  /** The largest C `int` and C `long`, the limits `hashlib` puts on the iteration count. */
  const IntMax: int := 0x7FFF_FFFF
  const LongMax: int := 0x7FFF_FFFF_FFFF_FFFF

  /** The argument checks `hashlib.pbkdf2_hmac` makes on `iterations`
      before deriving anything. */
  function CheckIterations(iterations: int): (r: Result<int>)
    ensures r.Ok? <==> 1 <= iterations <= IntMax
    ensures r.Ok? ==> r.value == iterations
    ensures iterations < 1 && -LongMax - 1 <= iterations ==> r == Err(ValueError("iteration value must be greater than 0."))
    ensures IntMax < iterations <= LongMax ==> r == Err(OverflowError("iteration value is too great."))
  {
    if iterations < -LongMax - 1 || LongMax < iterations then Err(OverflowError("Python int too large to convert to C long"))
    else if iterations < 1 then Err(ValueError("iteration value must be greater than 0."))
    else if iterations > IntMax then Err(OverflowError("iteration value is too great."))
    else Ok(iterations)
  }

  /** The string `_hash_password` stores: algorithm tag, iteration count,
      salt and digest, separated by `$`. */
  function HashString(iterations: int, salt: seq<byte>, digest: seq<byte>): (s: string)
    ensures Text.Split(s, '$') == [Algorithm, IntToString(iterations), ToHex(salt), ToHex(digest)]
  {
    var fields := [Algorithm, IntToString(iterations), ToHex(salt), ToHex(digest)];
    assert forall k | 0 <= k < |fields| :: '$' !in fields[k] by {
      assert '$' !in Algorithm;
      IntToStringHasNoDollar(iterations);
      HexHasNoDollar(salt);
      HexHasNoDollar(digest);
    }
    Text.SplitJoin(fields, '$');
    Text.Join(fields, "$")
  }

  /** A hash string is one line: tag, digits, sign, hex digits and `$` only. */
  lemma HashStringOneLine(iterations: int, salt: seq<byte>, digest: seq<byte>)
    ensures Text.NoLineBreak(HashString(iterations, salt, digest))
  {
    var parts := [Algorithm, IntToString(iterations), ToHex(salt), ToHex(digest)];
    forall k | 0 <= k < |parts| ensures Text.NoLineBreak(parts[k]) {
      var p := parts[k];
      if k == 1 {
        var digits := if iterations < 0 then NatToString(-iterations) else NatToString(iterations);
        assert p == digits || p == "-" + digits;
        assert forall i | 0 <= i < |p| :: p[i] == '-' || IsDigit(p[i]);
      }
      assert forall i | 0 <= i < |p| :: p[i] == '_' || p[i] == '-' || IsDigit(p[i]) || 'a' <= p[i] <= 'z';
    }
    Text.JoinNoLineBreak(parts, "$");
  }

  /** The four fields of a parsed hash string. */
  datatype ParsedHash = ParsedHash(algorithm: string, iterations: int, salt: seq<byte>, digest: seq<byte>)

  /** `_parse_hash`: exactly four `$`-separated fields, an integer and two hex
      strings; any `ValueError` on the way becomes one `AuthenticationError`. */
  function ParseHash(hashString: string): (r: Result<ParsedHash>)
    ensures r.Err? ==> r.error == AuthenticationError(CorruptHashMessage)
    ensures r.Ok? <==> var fields := Text.Split(hashString, '$');
                       && |fields| == 4 && ParseInt(fields[1]).Some?
                       && FromHex(fields[2]).Some? && FromHex(fields[3]).Some?
    ensures r.Ok? ==> var fields := Text.Split(hashString, '$');
                      && r.value.algorithm == fields[0] && '$' !in r.value.algorithm
                      && ParseInt(fields[1]) == Some(r.value.iterations)
                      && FromHex(fields[2]) == Some(r.value.salt) && FromHex(fields[3]) == Some(r.value.digest)
  {
    var fields := Text.Split(hashString, '$');
    Text.JoinSplit(hashString, '$');
    if |fields| != 4 then Err(AuthenticationError(CorruptHashMessage))
    else
      match (ParseInt(fields[1]), FromHex(fields[2]), FromHex(fields[3]))
      case (Some(iterations), Some(salt), Some(digest)) =>
        Ok(ParsedHash(fields[0], iterations, salt, digest))
      case _ => Err(AuthenticationError(CorruptHashMessage))
  }

  /** Parsing the string `_hash_password` writes gives back its iteration
      count, salt and digest. */
  lemma ParseHashString(iterations: int, salt: seq<byte>, digest: seq<byte>)
    ensures ParseHash(HashString(iterations, salt, digest)) == Ok(ParsedHash(Algorithm, iterations, salt, digest))
  {
    ParseIntOfIntToString(iterations);
    HexRoundTrip(salt);
    HexRoundTrip(digest);
  }

  lemma IntToStringHasNoDollar(n: int)
    ensures '$' !in IntToString(n)
  {
    var s := if n < 0 then NatToString(-n) else NatToString(n);
    assert forall i | 0 <= i < |s| :: s[i] != '$';
  }

  lemma HexHasNoDollar(bs: seq<byte>)
    ensures '$' !in ToHex(bs)
  {
    var s := ToHex(bs);
    assert forall i | 0 <= i < |s| :: s[i] != '$';
  }

  /** `verify_password`: the stored hash must parse and name PBKDF2-SHA256;
      the password then matches iff its digest under the stored salt and
      iteration count is the stored digest. */
  function VerifyPassword(kdf: Kdf, password: string, storedHash: string): (r: Result<bool>)
    ensures ParseHash(storedHash).Err? ==> r == Err(AuthenticationError(CorruptHashMessage))
    ensures ParseHash(storedHash).Ok? && ParseHash(storedHash).value.algorithm != Algorithm
            ==> r == Err(AuthenticationError("Unsupported hash algorithm '" + ParseHash(storedHash).value.algorithm + "'."))
    ensures r.Ok? <==> ParseHash(storedHash).Ok? && ParseHash(storedHash).value.algorithm == Algorithm
                       && 1 <= ParseHash(storedHash).value.iterations <= IntMax
    ensures ParseHash(storedHash).Ok? && ParseHash(storedHash).value.algorithm == Algorithm
            && CheckIterations(ParseHash(storedHash).value.iterations).Err?
            ==> r == Err(CheckIterations(ParseHash(storedHash).value.iterations).error)
    ensures r.Ok? ==> var parsed := ParseHash(storedHash).value;
                      r.value <==> kdf(password, parsed.salt, parsed.iterations) == parsed.digest
  {
    var parsed :- ParseHash(storedHash);
    if parsed.algorithm != Algorithm then
      Err(AuthenticationError("Unsupported hash algorithm '" + parsed.algorithm + "'."))
    else
      var iterations :- CheckIterations(parsed.iterations);
      Ok(kdf(password, parsed.salt, iterations) == parsed.digest)
  }

  /** A password verifies against the hash made from it, and a password
      whose digest differs does not. */
  lemma VerifyOwnHash(kdf: Kdf, password: string, other: string, iterations: int, salt: seq<byte>)
    requires 1 <= iterations <= IntMax
    ensures VerifyPassword(kdf, password, HashString(iterations, salt, kdf(password, salt, iterations))) == Ok(true)
    ensures kdf(other, salt, iterations) != kdf(password, salt, iterations)
            ==> VerifyPassword(kdf, other, HashString(iterations, salt, kdf(password, salt, iterations))) == Ok(false)
  {
    ParseHashString(iterations, salt, kdf(password, salt, iterations));
  }

  /** A hash whose iteration field is 0 parses, so `verify_password` raises
      hashlib's `ValueError`, not the corrupt-hash `AuthenticationError`. */
  lemma ZeroIterationsRaiseValueError(kdf: Kdf, password: string, salt: seq<byte>, digest: seq<byte>)
    ensures VerifyPassword(kdf, password, HashString(0, salt, digest))
            == Err(ValueError("iteration value must be greater than 0."))
  {
    ParseHashString(0, salt, digest);
  }

  /** The user that `authenticate` returns. */
  datatype AuthenticatedUser = AuthenticatedUser(username: string, fullName: string, role: string)

  /** `CredentialStore`: the user list keyed by username, the last record
      of a username winning. */
  datatype CredentialStore = CredentialStore(users: map<string, UserRecord>) {

    /** `authenticate`: an exact-key lookup, then password verification;
        `None` for an unknown user and for a wrong password alike. Errors
        from a corrupt stored hash propagate. */
    function Authenticate(kdf: Kdf, username: string, password: string): (r: Result<Option<AuthenticatedUser>>)
      ensures username !in users ==> r == Ok(None)
      ensures username in users ==>
                var record := users[username];
                match VerifyPassword(kdf, password, record.passwordHash)
                case Err(e) => r == Err(e)
                case Ok(matched) => r == Ok(if matched then Some(AuthenticatedUser(record.username, record.fullName, record.role)) else None)
    {
      if username !in users then Ok(None)
      else
        var record := users[username];
        var matched :- VerifyPassword(kdf, password, record.passwordHash);
        if !matched then Ok(None)
        else Ok(Some(AuthenticatedUser(record.username, record.fullName, record.role)))
    }
  }

  /** `CredentialStore(users)`: every listed username is known, no other
      is, and a username is stored with the last record that bears it. */
  function NewCredentialStore(users: seq<UserRecord>): (store: CredentialStore)
    ensures forall name :: name in store.users <==> exists i | 0 <= i < |users| :: users[i].username == name
    ensures forall i | 0 <= i < |users| ::
              (forall j | i < j < |users| :: users[j].username != users[i].username)
              ==> store.users[users[i].username] == users[i]
  {
    CredentialStore(BuildUserLookup(users))
  }

  /** A user whose record is the last of its username, stored with the hash of
      their password, authenticates as that record; any password with a
      different digest is refused without an error. */
  lemma AuthenticateEnrolled(kdf: Kdf, users: seq<UserRecord>, i: int, password: string, other: string,
                             iterations: int, salt: seq<byte>)
    requires 0 <= i < |users| && 1 <= iterations <= IntMax
    requires forall j | i < j < |users| :: users[j].username != users[i].username
    requires users[i].passwordHash == HashString(iterations, salt, kdf(password, salt, iterations))
    ensures NewCredentialStore(users).Authenticate(kdf, users[i].username, password)
            == Ok(Some(AuthenticatedUser(users[i].username, users[i].fullName, users[i].role)))
    ensures kdf(other, salt, iterations) != kdf(password, salt, iterations)
            ==> NewCredentialStore(users).Authenticate(kdf, users[i].username, other) == Ok(None)
  {
    VerifyOwnHash(kdf, password, other, iterations, salt);
  }
}

/** Self-service enrollment: check the password policy and the role, append
    the credential line, then append the user to the user list. */
module Enrollment {
  import opened Errors
  import opened Models
  import opened Text
  import opened Numbers
  import Authentication
  import PasswordPolicy
  import PasswordFile
  import Login
  import AccessControl

  /** `get_self_signup_roles`: the roles that allow self-service enrollment,
      in their original order. */
  function SelfSignupRoles(roles: seq<RoleDefinition>): (kept: seq<RoleDefinition>)
    ensures |kept| <= |roles|
    ensures forall k | 0 <= k < |kept| :: kept[k].allowSelfSignup
  {
    if roles == [] then [] else Kept(roles[0]) + SelfSignupRoles(roles[1..])
  }

  /** `role` alone when it allows self-signup, nothing otherwise. */
  function Kept(role: RoleDefinition): seq<RoleDefinition> {
    if role.allowSelfSignup then [role] else []
  }

  /** Exactly the roles that allow self-signup are kept. */
  lemma {:induction false} SelfSignupRolesMembers(roles: seq<RoleDefinition>)
    ensures forall role :: role in SelfSignupRoles(roles) <==> role in roles && role.allowSelfSignup
  {
    if roles != [] {
      SelfSignupRolesMembers(roles[1..]);
      assert roles == [roles[0]] + roles[1..];
    }
  }

  /** The filter keeps order: the roles picked from two runs of roles are
      those picked from each, one after the other. */
  lemma {:induction false} SelfSignupRolesAppend(a: seq<RoleDefinition>, b: seq<RoleDefinition>)
    ensures SelfSignupRoles(a + b) == SelfSignupRoles(a) + SelfSignupRoles(b)
  {
    if a == [] {
      assert a + b == b;
    } else {
      calc {
        SelfSignupRoles(a + b);
        { assert (a + b)[0] == a[0] && (a + b)[1..] == a[1..] + b; }
        Kept(a[0]) + SelfSignupRoles(a[1..] + b);
        { SelfSignupRolesAppend(a[1..], b); }
        Kept(a[0]) + (SelfSignupRoles(a[1..]) + SelfSignupRoles(b));
        SelfSignupRoles(a) + SelfSignupRoles(b);
      }
    }
  }

  /** What a successful enrollment reports; the file paths are not modelled. */
  datatype EnrollmentResult = EnrollmentResult(username: string, role: string, passwordHash: string)

  function SignupRefused(role: RoleDefinition): Error {
    EnrollmentError("Role '" + role.displayLabel + "' cannot be selected during signup.")
  }

  function DuplicateUser(username: string): Error {
    EnrollmentError("Username '" + username + "' already exists in users.json.")
  }

  /** `except ValueError as exc: raise EnrollmentError(str(exc))`: a
      `ValueError` becomes an enrollment error with the same message, any
      other exception passes through. */
  function Reraised(e: Error): (r: Error)
    ensures e.ValueError? ==> r == EnrollmentError(e.msg)
    ensures !e.ValueError? ==> r == e
  {
    if e.IsValueError() then EnrollmentError(e.msg) else e
  }

  predicate HasUser(users: seq<UserRecord>, username: string) {
    exists k | 0 <= k < |users| :: users[k].username == username
  }

  /** The user list `_append_user_json` writes, or the error it raises. */
  function UserAdded(users: seq<UserRecord>, username: string, role: string, passwordHash: string)
    : (r: Result<seq<UserRecord>>)
    ensures r.Err? <==> HasUser(users, username)
    ensures r.Err? ==> r.error == DuplicateUser(username)
    ensures r.Ok? ==> |r.value| == |users| + 1 && r.value[..|users|] == users
                      && r.value[|users|] == UserRecord(username, username, role, passwordHash)
  {
    if HasUser(users, username) then Err(DuplicateUser(username))
    else
      var added := users + [UserRecord(username, username, role, passwordHash)];
      assert added[..|users|] == users;
      Ok(added)
  }

  /** The user list, as the JSON payload's `users` array. */
  class UsersFile {
    var users: seq<UserRecord>

    constructor(users: seq<UserRecord>)
      ensures this.users == users
    {
      this.users := users;
    }

    /** `_append_user_json`: refuses a username already listed; otherwise
        appends one entry whose full name is the username. */
    method AppendUser(username: string, role: string, passwordHash: string) returns (r: Result<()>)
      modifies this
      ensures var added := UserAdded(old(users), username, role, passwordHash);
              (added.Ok? ==> r == Ok(()) && users == added.value)
              && (added.Err? ==> r == Err(added.error) && users == old(users))
    {
      if HasUser(users, username) {
        return Err(DuplicateUser(username));
      }
      users := users + [UserRecord(username, username, role, passwordHash)];
      return Ok(());
    }
  }

  /** The outcome of an enrollment and the two files it leaves behind. */
  datatype Enrollment = Enrollment(result: Result<EnrollmentResult>, credentials: string, users: seq<UserRecord>)

  /** Why `enroll_user` refuses before writing anything: the policy's
      violations, joined by `"; "`, or else a role closed to self-signup. */
  function Refusal(policy: PasswordPolicy.Policy, username: string, role: RoleDefinition, password: string)
    : (r: Option<Error>)
    ensures r.None? <==> (forall rule :: !policy.Violated(username, password, rule)) && role.allowSelfSignup
    ensures (exists rule :: policy.Violated(username, password, rule))
            ==> r == Some(EnrollmentError(Join(policy.Messages(policy.Broken(username, password)), "; ")))
  {
    policy.ValidExactly(username, password);
    var violations := policy.Messages(policy.Broken(username, password));
    if violations != [] then Some(EnrollmentError(Join(violations, "; ")))
    else if !role.allowSelfSignup then Some(SignupRefused(role))
    else None
  }

  /** The writing half of `enroll_user`: the credential line, then the user
      list; the credential line stays when the user list refuses. */
  function Store(content: string, users: seq<UserRecord>, kdf: Authentication.Kdf, username: string,
                 role: RoleDefinition, password: string, salt: seq<byte>): (e: Enrollment)
    ensures e.result.Ok? ==> e.result.value.username == username && e.result.value.role == role.name
    ensures e.result.Ok? ==> e.users == users + [UserRecord(username, username, role.name, e.result.value.passwordHash)]
    ensures e.result.Err? ==> e.users == users
    ensures e.credentials == content ==> e.result.Err?
    ensures var added := PasswordFile.NewRecord(content, kdf, username, role.name, password,
                                                PasswordFile.DefaultIterations, salt);
            added.Err? ==> e == Enrollment(Err(Reraised(added.error)), content, users)
  {
    var added := PasswordFile.NewRecord(content, kdf, username, role.name, password,
                                        PasswordFile.DefaultIterations, salt);
    if added.Err? then Enrollment(Err(Reraised(added.error)), content, users)
    else
      var written := PasswordFile.Appended(content, added.value);
      var listed := UserAdded(users, username, role.name, added.value.passwordHash);
      if listed.Err? then Enrollment(Err(listed.error), written, users)
      else Enrollment(Ok(EnrollmentResult(username, role.name, added.value.passwordHash)), written, listed.value)
  }

  /** `enroll_user` on a credential file holding `content` and a user list
      `users`: the policy first, then the role, then the two writes. */
  function Enroll(policy: PasswordPolicy.Policy, content: string, users: seq<UserRecord>,
                  kdf: Authentication.Kdf, username: string, role: RoleDefinition, password: string,
                  salt: seq<byte>): (e: Enrollment)
    ensures e.result.Ok? ==> (forall rule :: !policy.Violated(username, password, rule)) && role.allowSelfSignup
    ensures e.result.Err? ==> e.users == users
  {
    var refusal := Refusal(policy, username, role, password);
    if refusal.Some? then Enrollment(Err(refusal.value), content, users)
    else Store(content, users, kdf, username, role, password, salt)
  }

  /** `enroll_user` with the default iteration count; the salt stands for the
      random bytes the credential file draws. */
  method EnrollUser(policy: PasswordPolicy.Policy, passwd: PasswordFile.PasswordFile, usersFile: UsersFile,
                    kdf: Authentication.Kdf, username: string, role: RoleDefinition, password: string,
                    salt: seq<byte>) returns (r: Result<EnrollmentResult>)
    modifies passwd, usersFile
    ensures var e := Enroll(policy, old(passwd.content), old(usersFile.users), kdf, username, role, password, salt);
            r == e.result && passwd.content == e.credentials && usersFile.users == e.users
  {
    var check := policy.Validate(username, password);
    if !check.isValid {
      return Err(EnrollmentError(Join(check.violations, "; ")));
    }
    if !role.allowSelfSignup {
      return Err(SignupRefused(role));
    }
    var added := passwd.AddRecord(kdf, username, role.name, password, PasswordFile.DefaultIterations, salt);
    if added.Err? {
      return Err(Reraised(added.error));
    }
    var listed := usersFile.AppendUser(username, role.name, added.value.passwordHash);
    if listed.Err? {
      return Err(listed.error);
    }
    return Ok(EnrollmentResult(username, role.name, added.value.passwordHash));
  }

  /** A password the policy refuses, or a role closed to self-signup, ends
      enrollment before anything is written; the policy is checked first and
      its error lists every violation. */
  lemma RefusedBeforeWriting(policy: PasswordPolicy.Policy, content: string, users: seq<UserRecord>,
                             kdf: Authentication.Kdf, username: string, role: RoleDefinition, password: string,
                             salt: seq<byte>)
    ensures var e := Enroll(policy, content, users, kdf, username, role, password, salt);
            (exists rule :: policy.Violated(username, password, rule))
            ==> e == Enrollment(Err(EnrollmentError(Join(policy.Messages(policy.Broken(username, password)), "; "))),
                                content, users)
    ensures var e := Enroll(policy, content, users, kdf, username, role, password, salt);
            (forall rule :: !policy.Violated(username, password, rule)) && !role.allowSelfSignup
            ==> e == Enrollment(Err(SignupRefused(role)), content, users)
  {
    policy.ValidExactly(username, password);
  }

  /** Whatever happens, both files only grow: the old credential text is a
      prefix of the new and the old user list a prefix of the new one. */
  lemma EnrollOnlyAppends(policy: PasswordPolicy.Policy, content: string, users: seq<UserRecord>,
                          kdf: Authentication.Kdf, username: string, role: RoleDefinition, password: string,
                          salt: seq<byte>)
    ensures var e := Enroll(policy, content, users, kdf, username, role, password, salt);
            |content| <= |e.credentials| && e.credentials[..|content|] == content
            && |users| <= |e.users| && e.users[..|users|] == users
  {
    assert content[..|content|] == content && users[..|users|] == users;
    if Refusal(policy, username, role, password).None? {
      StoreOnlyAppends(content, users, kdf, username, role, password, salt);
    }
  }

  lemma StoreOnlyAppends(content: string, users: seq<UserRecord>, kdf: Authentication.Kdf, username: string,
                         role: RoleDefinition, password: string, salt: seq<byte>)
    ensures var e := Store(content, users, kdf, username, role, password, salt);
            |content| <= |e.credentials| && e.credentials[..|content|] == content
            && |users| <= |e.users| && e.users[..|users|] == users
  {
    var e := Store(content, users, kdf, username, role, password, salt);
    var added := PasswordFile.NewRecord(content, kdf, username, role.name, password,
                                        PasswordFile.DefaultIterations, salt);
    assert content[..|content|] == content && users[..|users|] == users;
    if added.Ok? {
      assert e.credentials == PasswordFile.Appended(content, added.value);
    }
    if e.result.Ok? {
      assert e.users[..|users|] == users;
    }
  }

  /** The credential line is written before the user list is consulted and
      is not taken back when the user list already has the username. */
  lemma NoRollback(policy: PasswordPolicy.Policy, content: string, users: seq<UserRecord>,
                   kdf: Authentication.Kdf, username: string, role: RoleDefinition, password: string,
                   salt: seq<byte>)
    requires forall rule :: !policy.Violated(username, password, rule)
    requires role.allowSelfSignup
    requires PasswordFile.NewRecord(content, kdf, username, role.name, password,
                                    PasswordFile.DefaultIterations, salt).Ok?
    requires HasUser(users, username)
    ensures var e := Enroll(policy, content, users, kdf, username, role, password, salt);
            e.result == Err(DuplicateUser(username)) && e.users == users && e.credentials != content
  {
    policy.ValidExactly(username, password);
  }

  /** A username the credential file already holds is refused by
      `add_record`; its `ValueError` comes back as an `EnrollmentError` with
      the same message, and neither file is written. */
  lemma DuplicateCredentialRefused(policy: PasswordPolicy.Policy, content: string, users: seq<UserRecord>,
                                   kdf: Authentication.Kdf, username: string, role: RoleDefinition,
                                   password: string, salt: seq<byte>)
    requires forall rule :: !policy.Violated(username, password, rule)
    requires role.allowSelfSignup
    requires PasswordFile.Sanitize(username, "username").Ok? && PasswordFile.Sanitize(role.name, "role").Ok?
    requires PasswordFile.RecordFor(content, username).Ok? && PasswordFile.RecordFor(content, username).value.Some?
    ensures Enroll(policy, content, users, kdf, username, role, password, salt)
            == Enrollment(Err(EnrollmentError("Username '" + Strip(username) + "' already exists.")), content, users)
  {
    policy.ValidExactly(username, password);
    PasswordFile.NewRecordOutcome(content, kdf, username, role.name, password, PasswordFile.DefaultIterations, salt);
  }

  /** A username or role that `_sanitize` refuses: `add_record` raises its
      `ValueError` before reading the file, and enrollment reports the same
      message as an `EnrollmentError`, with neither file written. */
  lemma BadFieldRefused(policy: PasswordPolicy.Policy, content: string, users: seq<UserRecord>,
                        kdf: Authentication.Kdf, username: string, role: RoleDefinition, password: string,
                        salt: seq<byte>)
    requires forall rule :: !policy.Violated(username, password, rule)
    requires role.allowSelfSignup
    ensures var name, roleName := PasswordFile.Sanitize(username, "username"), PasswordFile.Sanitize(role.name, "role");
            var e := Enroll(policy, content, users, kdf, username, role, password, salt);
            && (name.Err? ==> e == Enrollment(Err(EnrollmentError(name.error.msg)), content, users))
            && (name.Ok? && roleName.Err? ==> e == Enrollment(Err(EnrollmentError(roleName.error.msg)), content, users))
  {
    policy.ValidExactly(username, password);
    PasswordFile.NewRecordOutcome(content, kdf, username, role.name, password, PasswordFile.DefaultIterations, salt);
  }

  /** Enrolling the same username a second time, with a password the policy
      accepts, fails on the credential file and changes neither file. */
  lemma ReenrollRefused(policy: PasswordPolicy.Policy, content: string, users: seq<UserRecord>,
                        kdf: Authentication.Kdf, username: string, role: RoleDefinition, password: string,
                        salt: seq<byte>, secondPassword: string, secondSalt: seq<byte>)
    requires Enroll(policy, content, users, kdf, username, role, password, salt).result.Ok?
    requires NoLineBreak(Strip(username)) && NoLineBreak(Strip(role.name))
    requires forall rule :: !policy.Violated(username, secondPassword, rule)
    ensures var e := Enroll(policy, content, users, kdf, username, role, password, salt);
            Enroll(policy, e.credentials, e.users, kdf, username, role, secondPassword, secondSalt)
            == Enrollment(Err(EnrollmentError("Username '" + Strip(username) + "' already exists.")),
                          e.credentials, e.users)
  {
    var e := Enroll(policy, content, users, kdf, username, role, password, salt);
    EnrolledUserRecorded(policy, content, users, kdf, username, role, password, salt);
    PasswordFile.NewRecordOutcome(content, kdf, username, role.name, password, PasswordFile.DefaultIterations, salt);
    DuplicateCredentialRefused(policy, e.credentials, e.users, kdf, username, role, secondPassword, secondSalt);
  }

  /** A successful enrollment reports the username as given, while the
      credential file holds it trimmed; the user list gains exactly one entry
      with the same hash, and the password verifies for the new user. */
  lemma EnrolledUserRecorded(policy: PasswordPolicy.Policy, content: string, users: seq<UserRecord>,
                             kdf: Authentication.Kdf, username: string, role: RoleDefinition, password: string,
                             salt: seq<byte>)
    requires Enroll(policy, content, users, kdf, username, role, password, salt).result.Ok?
    requires NoLineBreak(Strip(username)) && NoLineBreak(Strip(role.name))
    ensures var e := Enroll(policy, content, users, kdf, username, role, password, salt);
            e.result.value.username == username && e.result.value.role == role.name
            && e.users == users + [UserRecord(username, username, role.name, e.result.value.passwordHash)]
            && PasswordFile.RecordFor(e.credentials, username)
               == Ok(Some(PasswordFile.PasswordRecord(Strip(username), Strip(role.name), e.result.value.passwordHash)))
            && PasswordFile.Credentials(e.credentials, kdf, username, password) == Ok(true)
  {
    assert Enroll(policy, content, users, kdf, username, role, password, salt)
           == Store(content, users, kdf, username, role, password, salt);
    StoredUserRecorded(content, users, kdf, username, role, password, salt);
  }

  /** The credential part of `EnrolledUserRecorded`, once the policy and the
      role have let the request through. */
  lemma StoredUserRecorded(content: string, users: seq<UserRecord>, kdf: Authentication.Kdf, username: string,
                           role: RoleDefinition, password: string, salt: seq<byte>)
    requires Store(content, users, kdf, username, role, password, salt).result.Ok?
    requires NoLineBreak(Strip(username)) && NoLineBreak(Strip(role.name))
    ensures var e := Store(content, users, kdf, username, role, password, salt);
            PasswordFile.RecordFor(e.credentials, username)
            == Ok(Some(PasswordFile.PasswordRecord(Strip(username), Strip(role.name), e.result.value.passwordHash)))
            && PasswordFile.Credentials(e.credentials, kdf, username, password) == Ok(true)
  {
    var e := Store(content, users, kdf, username, role, password, salt);
    var record := PasswordFile.NewRecord(content, kdf, username, role.name, password,
                                         PasswordFile.DefaultIterations, salt).value;
    assert e.credentials == PasswordFile.Appended(content, record)
           && e.result.value.passwordHash == record.passwordHash;
    assert record == PasswordFile.PasswordRecord(Strip(username), Strip(role.name), record.passwordHash) by {
      PasswordFile.NewRecordOutcome(content, kdf, username, role.name, password, PasswordFile.DefaultIterations, salt);
    }
    PasswordFile.AddThenGet(content, kdf, username, role.name, password, PasswordFile.DefaultIterations, salt);
  }

  /** The newly enrolled user can log in with the password under the trimmed
      username, provided the role is among the login roles and the engine can
      list its operations; the login reports that role. */
  lemma EnrolledUserCanLogIn(policy: PasswordPolicy.Policy, content: string, users: seq<UserRecord>,
                             kdf: Authentication.Kdf, username: string, role: RoleDefinition, password: string,
                             salt: seq<byte>, engine: AccessControl.Engine, roles: seq<RoleDefinition>,
                             context: SessionContext)
    requires Enroll(policy, content, users, kdf, username, role, password, salt).result.Ok?
    requires NoLineBreak(Strip(username)) && NoLineBreak(Strip(role.name))
    ensures var e := Enroll(policy, content, users, kdf, username, role, password, salt);
            var found := Login.FirstRole(Strip(role.name), roles);
            var login := Login.LoginOutcome(e.credentials, kdf, username, password, engine, roles, context);
            (login.Ok? <==> found.Ok? && engine.PermittedOperations(found.value.name, context).Ok?)
            && (login.Ok? ==> login.value.username == Strip(username) && login.value.roleName == Strip(role.name))
  {
    var e := Enroll(policy, content, users, kdf, username, role, password, salt);
    EnrolledUserRecorded(policy, content, users, kdf, username, role, password, salt);
    Login.LoginSucceedsExactly(e.credentials, kdf, username, password, engine, roles, context);
  }
}

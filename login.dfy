/** The login workflow: trim the username, check the credential file, resolve
    the stored role and list what the role may do now. */
module Login {
  import opened Errors
  import opened Models
  import opened Text
  import Operations
  import AccessControl
  import Authentication
  import PasswordFile

  const UsernameRequired: string := "Username is required."
  const InvalidCredentials: string := "Invalid username or password."

  function UnrecognizedRole(roleName: string): Error {
    LoginError("Role '" + roleName + "' is not recognized.")
  }

  /** The label `catalog` gives `code`, or nothing when it has no such code. */
  function LabelOf(catalog: map<string, Operations.Operation>, code: string): (shown: seq<string>)
    ensures code in catalog ==> shown == [catalog[code].displayLabel]
    ensures code !in catalog ==> shown == []
  {
    if code in catalog then [catalog[code].displayLabel] else []
  }

  /** The labels of the codes among `codes` that `catalog` knows, in code
      order; the other codes are dropped. */
  function LabelsOf(catalog: map<string, Operations.Operation>, codes: seq<string>): (labels: seq<string>)
    ensures |labels| <= |codes|
  {
    if codes == [] then [] else LabelOf(catalog, codes[0]) + LabelsOf(catalog, codes[1..])
  }

  /** Labelling works code by code: the labels of two runs of codes are the
      labels of each, one after the other. */
  lemma {:induction false} LabelsOfAppend(catalog: map<string, Operations.Operation>, a: seq<string>, b: seq<string>)
    ensures LabelsOf(catalog, a + b) == LabelsOf(catalog, a) + LabelsOf(catalog, b)
  {
    if a == [] {
      assert a + b == b;
    } else {
      calc {
        LabelsOf(catalog, a + b);
        { assert (a + b)[0] == a[0] && (a + b)[1..] == a[1..] + b; }
        LabelOf(catalog, a[0]) + LabelsOf(catalog, a[1..] + b);
        { LabelsOfAppend(catalog, a[1..], b); }
        LabelOf(catalog, a[0]) + (LabelsOf(catalog, a[1..]) + LabelsOf(catalog, b));
        LabelsOf(catalog, a) + LabelsOf(catalog, b);
      }
    }
  }

  /** When the catalog knows every code, each one gets its own label, at the
      same position. */
  lemma {:induction false} LabelsOfKnown(catalog: map<string, Operations.Operation>, codes: seq<string>)
    requires forall k | 0 <= k < |codes| :: codes[k] in catalog
    ensures |LabelsOf(catalog, codes)| == |codes|
    ensures forall k | 0 <= k < |codes| :: LabelsOf(catalog, codes)[k] == catalog[codes[k]].displayLabel
  {
    if codes != [] {
      LabelsOfKnown(catalog, codes[1..]);
    }
  }

  /** A code the catalog does not know contributes no label. */
  lemma LabelsOfUnknown(catalog: map<string, Operations.Operation>, codes: seq<string>, code: string)
    requires code !in catalog
    ensures LabelsOf(catalog, codes + [code]) == LabelsOf(catalog, codes)
  {
    LabelsOfAppend(catalog, codes, [code]);
  }

  /** What a successful login reports. */
  datatype LoginResult = LoginResult(
    username: string,
    roleName: string,
    roleLabel: string,
    allowedOperationCodes: seq<string>)
  {
    /** `allowed_operation_labels`: never more labels than codes, and when
        every code is in the catalog, the k-th label is the k-th code's. */
    function AllowedOperationLabels(): (labels: seq<string>)
      ensures |labels| <= |allowedOperationCodes|
      ensures (forall k | 0 <= k < |allowedOperationCodes| :: allowedOperationCodes[k] in Operations.OperationsByCode)
              ==> |labels| == |allowedOperationCodes|
                  && forall k | 0 <= k < |labels| ::
                       labels[k] == Operations.OperationsByCode[allowedOperationCodes[k]].displayLabel
    ensures labels == LabelsOf(Operations.OperationsByCode, allowedOperationCodes)
    {
      var codes := allowedOperationCodes;
      var labels := LabelsOf(Operations.OperationsByCode, codes);
      assert (forall k | 0 <= k < |codes| :: codes[k] in Operations.OperationsByCode)
             ==> |labels| == |codes|
                 && forall k | 0 <= k < |labels| :: labels[k] == Operations.OperationsByCode[codes[k]].displayLabel by {
        if forall k | 0 <= k < |codes| :: codes[k] in Operations.OperationsByCode {
          LabelsOfKnown(Operations.OperationsByCode, codes);
        }
      }
      labels
    }
  }

  /** The first role of `roles` named `roleName`, or the error `_find_role`
      raises when there is none. */
  function FirstRole(roleName: string, roles: seq<RoleDefinition>): (r: Result<RoleDefinition>)
    ensures r.Err? <==> forall k | 0 <= k < |roles| :: roles[k].name != roleName
    ensures r.Err? ==> r.error == UnrecognizedRole(roleName)
    ensures r.Ok? ==> exists k | 0 <= k < |roles| :: roles[k] == r.value && r.value.name == roleName
                        && forall j | 0 <= j < k :: roles[j].name != roleName
  {
    if roles == [] then Err(UnrecognizedRole(roleName))
    else if roles[0].name == roleName then Ok(roles[0])
    else
      var r := FirstRole(roleName, roles[1..]);
      assert forall k | 1 <= k < |roles| :: roles[k] == roles[1..][k - 1];
      r
  }

  /** `_find_role`: a scan of `roles` that returns the first match. */
  method FindRole(roleName: string, roles: seq<RoleDefinition>) returns (r: Result<RoleDefinition>)
    ensures r == FirstRole(roleName, roles)
  {
    var i := 0;
    while i < |roles|
      invariant 0 <= i <= |roles|
      invariant FirstRole(roleName, roles[i..]) == FirstRole(roleName, roles)
    {
      assert roles[i..][0] == roles[i] && roles[i..][1..] == roles[i + 1..];
      if roles[i].name == roleName {
        return Ok(roles[i]);
      }
      i := i + 1;
    }
    return Err(UnrecognizedRole(roleName));
  }

  /** The outcome of `perform_login` on a credential file holding `content`. */
  function LoginOutcome(content: string, kdf: Authentication.Kdf, username: string, password: string,
                        engine: AccessControl.Engine, roles: seq<RoleDefinition>,
                        context: SessionContext): (r: Result<LoginResult>)
    ensures r.Ok? ==> r.value.username == Strip(username) && r.value.username != []
    ensures r.Ok? ==> PasswordFile.Credentials(content, kdf, username, password) == Ok(true)
  {
    StripIdempotent(username);
    var name := Strip(username);
    if name == [] then Err(LoginError(UsernameRequired))
    else
      var record :- PasswordFile.RecordFor(content, name);
      if record.None? then Err(LoginError(InvalidCredentials))
      else
        var verified :- PasswordFile.Credentials(content, kdf, name, password);
        if !verified then Err(LoginError(InvalidCredentials))
        else
          var role :- FirstRole(record.value.role, roles);
          var codes :- engine.PermittedOperations(role.name, context);
          Ok(LoginResult(name, role.name, role.displayLabel, codes))
  }

  /** `perform_login`: the explicit `context` stands for `as_of`. */
  method PerformLogin(passwd: PasswordFile.PasswordFile, kdf: Authentication.Kdf, username: string,
                      password: string, engine: AccessControl.Engine, roles: seq<RoleDefinition>,
                      context: SessionContext) returns (r: Result<LoginResult>)
    ensures r == LoginOutcome(passwd.content, kdf, username, password, engine, roles, context)
  {
    var name := Strip(username);
    if name == [] {
      return Err(LoginError(UsernameRequired));
    }
    var record :- passwd.GetRecord(name);
    if record.None? {
      return Err(LoginError(InvalidCredentials));
    }
    var verified :- passwd.VerifyCredentials(kdf, name, password);
    if !verified {
      return Err(LoginError(InvalidCredentials));
    }
    var role :- FindRole(record.value.role, roles);
    var codes :- engine.PermittedOperations(role.name, context);
    return Ok(LoginResult(name, role.name, role.displayLabel, codes));
  }

  /** A blank username is refused whatever the credential file holds, so the
      file is never consulted for it. */
  lemma BlankUsernameRefused(content: string, kdf: Authentication.Kdf, username: string, password: string,
                             engine: AccessControl.Engine, roles: seq<RoleDefinition>, context: SessionContext)
    requires AllSpace(username)
    ensures LoginOutcome(content, kdf, username, password, engine, roles, context) == Err(LoginError(UsernameRequired))
  {
  }

  /** An unknown username and a wrong password give the same error, and
      neither depends on the roles or the engine. */
  lemma SameErrorForUnknownUserAndWrongPassword(content: string, kdf: Authentication.Kdf, username: string,
                                                password: string, engine: AccessControl.Engine,
                                                roles: seq<RoleDefinition>, context: SessionContext)
    requires !AllSpace(username)
    ensures PasswordFile.RecordFor(content, username) == Ok(None)
            ==> LoginOutcome(content, kdf, username, password, engine, roles, context) == Err(LoginError(InvalidCredentials))
    ensures PasswordFile.RecordFor(content, username).Ok? && PasswordFile.RecordFor(content, username).value.Some?
            && PasswordFile.Credentials(content, kdf, username, password) == Ok(false)
            ==> LoginOutcome(content, kdf, username, password, engine, roles, context) == Err(LoginError(InvalidCredentials))
  {
    StripIdempotent(username);
  }

  /** Login succeeds exactly when the username is not blank, its record is
      found, the password verifies against it, the stored role is among
      `roles` and the engine can list that role's operations; the reported
      user is the trimmed username with the role found and its listing. */
  lemma LoginSucceedsExactly(content: string, kdf: Authentication.Kdf, username: string, password: string,
                             engine: AccessControl.Engine, roles: seq<RoleDefinition>, context: SessionContext)
    ensures var r := LoginOutcome(content, kdf, username, password, engine, roles, context);
            var found := PasswordFile.RecordFor(content, username);
            r.Ok? <==> !AllSpace(username) && found.Ok? && found.value.Some?
                       && PasswordFile.Credentials(content, kdf, username, password) == Ok(true)
                       && FirstRole(found.value.value.role, roles).Ok?
                       && engine.PermittedOperations(FirstRole(found.value.value.role, roles).value.name, context).Ok?
    ensures var r := LoginOutcome(content, kdf, username, password, engine, roles, context);
            var found := PasswordFile.RecordFor(content, username);
            r.Ok? ==> var role := FirstRole(found.value.value.role, roles).value;
                      r.value == LoginResult(Strip(username), role.name, role.displayLabel,
                                             engine.PermittedOperations(role.name, context).value)
  {
    StripIdempotent(username);
  }

  /** `perform_login` catches nothing: an unreadable credential line, a
      corrupt or unusable stored hash and the engine's unknown-role error
      reach the caller unchanged, each at the step that raises it. */
  lemma LoginErrorsPropagate(content: string, kdf: Authentication.Kdf, username: string, password: string,
                             engine: AccessControl.Engine, roles: seq<RoleDefinition>, context: SessionContext)
    requires !AllSpace(username)
    ensures var r := LoginOutcome(content, kdf, username, password, engine, roles, context);
            var found := PasswordFile.RecordFor(content, username);
            found.Err? ==> r == Err(found.error)
    ensures var r := LoginOutcome(content, kdf, username, password, engine, roles, context);
            var found := PasswordFile.RecordFor(content, username);
            var verified := PasswordFile.Credentials(content, kdf, username, password);
            found.Ok? && found.value.Some? && verified.Err? ==> r == Err(verified.error)
    ensures var r := LoginOutcome(content, kdf, username, password, engine, roles, context);
            var found := PasswordFile.RecordFor(content, username);
            found.Ok? && found.value.Some?
            && PasswordFile.Credentials(content, kdf, username, password) == Ok(true)
            && FirstRole(found.value.value.role, roles).Ok?
            && engine.PermittedOperations(FirstRole(found.value.value.role, roles).value.name, context).Err?
            ==> r == Err(engine.PermittedOperations(FirstRole(found.value.value.role, roles).value.name, context).error)
  {
    StripIdempotent(username);
  }

  /** The role is resolved only after the password verified: a stored role
      missing from `roles` is reported for the right password alone. */
  lemma RoleResolvedAfterCredentials(content: string, kdf: Authentication.Kdf, username: string, password: string,
                                     engine: AccessControl.Engine, roles: seq<RoleDefinition>, context: SessionContext)
    requires !AllSpace(username)
    requires PasswordFile.RecordFor(content, username).Ok? && PasswordFile.RecordFor(content, username).value.Some?
    requires forall k | 0 <= k < |roles| :: roles[k].name != PasswordFile.RecordFor(content, username).value.value.role
    ensures PasswordFile.Credentials(content, kdf, username, password) == Ok(true)
            ==> LoginOutcome(content, kdf, username, password, engine, roles, context)
                == Err(UnrecognizedRole(PasswordFile.RecordFor(content, username).value.value.role))
    ensures PasswordFile.Credentials(content, kdf, username, password) == Ok(false)
            ==> LoginOutcome(content, kdf, username, password, engine, roles, context) == Err(LoginError(InvalidCredentials))
  {
    StripIdempotent(username);
  }
}

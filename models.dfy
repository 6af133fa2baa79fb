/** The value types shared by the access-control engine and the workflows,
    and the lookups built from lists of them. */
module Models {
  import opened Errors
  import Ordering

  /** A constraint attached to a role: a discriminator (`type` in the
      configuration) and its string parameters. */
  datatype ConstraintDefinition = ConstraintDefinition(kind: string, params: map<string, string>)

  /** A role of the catalog (`label` is a Dafny keyword, hence `displayLabel`);
      self-signup is off unless the configuration says so. */
  datatype RoleDefinition = RoleDefinition(
    name: string,
    displayLabel: string,
    permissions: set<string>,
    constraints: seq<ConstraintDefinition>,
    allowSelfSignup: bool := false)
  {
    /** `allows`: the permission is granted exactly when the role holds
        it, and so exactly when the sorted listing of its permissions does. */
    predicate Allows(permission: string)
      ensures Allows(permission) <==> permission in permissions
      ensures Allows(permission) <==> permission in Ordering.Sorted(permissions)
    {
      permission in permissions
    }
  }

  /** An entry of the user list. */
  datatype UserRecord = UserRecord(username: string, fullName: string, role: string, passwordHash: string)

  const MicrosPerMinute: int := 60 * 1_000_000
  const MicrosPerHour: int := 60 * MicrosPerMinute
  const MicrosPerDay: int := 24 * MicrosPerHour

  /** A wall-clock time of day in microseconds since midnight, the
      resolution of Python's `datetime.time`. */
  type TimeOfDay = t: int | 0 <= t < 86_400_000_000

  /** The moment a request is evaluated at, reduced to the part constraints read. */
  datatype SessionContext = SessionContext(asOf: TimeOfDay)

  /** Outcome of a permission check; a grant carries no reason by default. */
  datatype AuthorizationDecision = AuthorizationDecision(granted: bool, reason: Option<string> := None)

  /** A dictionary built by `{key(x): x for x in items}`: every key of an item
      is present, and a key maps to the last item carrying it. */
  function KeyedByLast<T>(items: seq<T>, key: T -> string): (m: map<string, T>)
    ensures m.Keys == set i | 0 <= i < |items| :: key(items[i])
    ensures forall i | 0 <= i < |items| ::
              (forall j | i < j < |items| :: key(items[j]) != key(items[i])) ==> m[key(items[i])] == items[i]
  {
    if items == [] then map[]
    else
      var init := items[..|items| - 1];
      var last := items[|items| - 1];
      var m := KeyedByLast(init, key)[key(last) := last];
      assert forall i | 0 <= i < |init| :: init[i] == items[i];
      assert (set i | 0 <= i < |items| :: key(items[i]))
          == (set i | 0 <= i < |init| :: key(init[i])) + {key(last)};
      m
  }

  /** When no two items share a key, every item is found under its own key. */
  lemma KeyedByLastDistinct<T>(items: seq<T>, key: T -> string)
    requires forall i, j | 0 <= i < j < |items| :: key(items[i]) != key(items[j])
    ensures forall i | 0 <= i < |items| :: key(items[i]) in KeyedByLast(items, key)
                                           && KeyedByLast(items, key)[key(items[i])] == items[i]
  {
  }

  /** `build_role_lookup`: role name to definition, the last definition of a name winning. */
  function BuildRoleLookup(definitions: seq<RoleDefinition>): (lookup: map<string, RoleDefinition>)
    ensures lookup.Keys == set i | 0 <= i < |definitions| :: definitions[i].name
    ensures forall i | 0 <= i < |definitions| ::
              (forall j | i < j < |definitions| :: definitions[j].name != definitions[i].name)
              ==> lookup[definitions[i].name] == definitions[i]
  {
    KeyedByLast(definitions, (d: RoleDefinition) => d.name)
  }

  /** `build_user_lookup`: username to record, the last record of a username winning. */
  function BuildUserLookup(records: seq<UserRecord>): (lookup: map<string, UserRecord>)
    ensures lookup.Keys == set i | 0 <= i < |records| :: records[i].username
    ensures forall i | 0 <= i < |records| ::
              (forall j | i < j < |records| :: records[j].username != records[i].username)
              ==> lookup[records[i].username] == records[i]
  {
    KeyedByLast(records, (r: UserRecord) => r.username)
  }
}

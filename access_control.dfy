/** The role-based access-control engine: the time-window constraint, the
    factory that builds constraints from their definitions, and the engine's
    permission decisions. */
module AccessControl {
  import opened Errors
  import opened Models
  import opened Numbers
  import opened Ordering
  import Text

  /** Text between the two times of the denial reason, as the source file
      spells it: the UTF-8 bytes of an en dash read back as Windows-1252. */
  const WindowSeparator: string := "\U{00E2}\U{20AC}\U{201C}"

  const TimeWindowType: string := "time_window"

  const MissingBoundsMessage: string := "time_window constraint requires 'start' and 'end'"

  lemma TwoDigitsValue(s: string)
    requires |s| == 2 && AllDigits(s)
    ensures DigitsValue(s) == 10 * DigitValue(s[0]) + DigitValue(s[1])
  {
    var first := s[..1];
    assert first[..0] == [] && first[0] == s[0];
    assert DigitsValue(first) == DigitValue(s[0]);
    assert s[..|s| - 1] == first;
  }

  /** Two zero-padded decimal digits. */
  function Pad2(n: nat): (s: string)
    requires n < 100
    ensures |s| == 2 && AllDigits(s) && DigitsValue(s) == n
  {
    var s := [DigitChar(n / 10), DigitChar(n % 10)];
    TwoDigitsValue(s);
    s
  }

  /** The time `h:m:00.000000`. */
  function ClockTime(h: nat, m: nat): (t: TimeOfDay)
    requires h <= 23 && m <= 59
    ensures t == h * MicrosPerHour + m * MicrosPerMinute && t % MicrosPerMinute == 0
  {
    assert MicrosPerHour == 60 * MicrosPerMinute && MicrosPerMinute == 60_000_000;
    var t := (60 * h + m) * MicrosPerMinute;
    assert 60 * h + m < 1440;
    t
  }

  /** `t.strftime('%H:%M')`: the hour and the minute of `t`, two digits
      each, around a colon. */
  function FormatHHMM(t: TimeOfDay): (s: string)
    ensures |s| == 5 && s[2] == ':'
    ensures AllDigits(s[..2]) && DigitsValue(s[..2]) == t / MicrosPerHour
    ensures AllDigits(s[3..]) && DigitsValue(s[3..]) == t % MicrosPerHour / MicrosPerMinute
  {
    var s := Pad2(t / MicrosPerHour) + ":" + Pad2(t % MicrosPerHour / MicrosPerMinute);
    assert s[..2] == Pad2(t / MicrosPerHour);
    assert s[3..] == Pad2(t % MicrosPerHour / MicrosPerMinute);
    s
  }

  /** The hour and minute `strptime` reads with `%H:%M`, and where its match ends. */
  datatype ClockMatch = ClockMatch(hour: nat, minute: nat, end: nat)

  /** How many characters `%H` takes at the start of `s`, when `:` follows:
      two digits from 00 to 23, else one digit; 0 when neither fits. */
  function HourWidth(s: string): (w: nat)
    ensures w <= 2 && (w == 0 || w + 1 <= |s|)
    ensures w > 0 ==> s[w] == ':' && AllDigits(s[..w]) && DigitsValue(s[..w]) <= 23
    ensures |s| >= 3 && s[2] == ':' && AllDigits(s[..2]) && DigitsValue(s[..2]) <= 23 ==> w == 2
    ensures |s| >= 2 && IsDigit(s[0]) && s[1] == ':' ==> w == 1
  {
    if |s| >= 3 && s[2] == ':' && AllDigits(s[..2]) && DigitsValue(s[..2]) <= 23 then 2
    else if |s| >= 2 && s[1] == ':' && IsDigit(s[0]) then
      assert DigitsValue(s[..1]) == DigitValue(s[0]) by { assert s[..1][..0] == []; }
      1
    else 0
  }

  /** How many characters `%M` takes at position `p` of `s`: a digit from 0
      to 5 and a digit, else one digit; 0 when there is no digit. */
  function MinuteWidth(s: string, p: nat): (w: nat)
    requires p <= |s|
    ensures w <= 2 && p + w <= |s|
    ensures w > 0 ==> AllDigits(s[p..p + w]) && DigitsValue(s[p..p + w]) <= 59
    ensures p + 2 <= |s| && '0' <= s[p] <= '5' && IsDigit(s[p + 1]) ==> w == 2
    ensures p < |s| && IsDigit(s[p]) && !(p + 1 < |s| && '0' <= s[p] <= '5' && IsDigit(s[p + 1])) ==> w == 1
  {
    if p + 2 <= |s| && '0' <= s[p] <= '5' && IsDigit(s[p + 1]) then
      TwoDigitsValue(s[p..p + 2]);
      2
    else if p < |s| && IsDigit(s[p]) then
      assert DigitsValue(s[p..p + 1]) == DigitValue(s[p]) by { assert s[p..p + 1][..0] == []; }
      1
    else 0
  }

  /** The match of `strptime`'s pattern for `%H:%M`,
      `(2[0-3]|[0-1]\d|\d):([0-5]\d|\d)`, at the start of `s`; the pattern is
      not anchored at the end, so text may follow the match. */
  function MatchClock(s: string): (r: Option<ClockMatch>)
    ensures r.Some? ==> r.value.hour <= 23 && r.value.minute <= 59 && r.value.end <= |s|
    ensures r.Some? <==> HourWidth(s) > 0 && MinuteWidth(s, HourWidth(s) + 1) > 0
    ensures r.Some? ==> var hw := HourWidth(s);
              r.value.end == hw + 1 + MinuteWidth(s, hw + 1)
              && r.value.hour == DigitsValue(s[..hw]) && r.value.minute == DigitsValue(s[hw + 1..r.value.end])
  {
    var hw := HourWidth(s);
    if hw == 0 then None
    else
      var mw := MinuteWidth(s, hw + 1);
      if mw == 0 then None
      else Some(ClockMatch(DigitsValue(s[..hw]), DigitsValue(s[hw + 1..hw + 1 + mw]), hw + 1 + mw))
  }

  /** `datetime.strptime(s, '%H:%M').time()`; `None` where it raises
      `ValueError`: when nothing matches, or text is left after the match.
      A parsed time is a whole minute of the day. */
  function ParseHHMM(s: string): (r: Option<TimeOfDay>)
    ensures r.Some? ==> r.value % MicrosPerMinute == 0
    ensures r.Some? <==> MatchClock(s).Some? && MatchClock(s).value.end == |s|
    ensures r.Some? ==> r.value == ClockTime(MatchClock(s).value.hour, MatchClock(s).value.minute)
  {
    match MatchClock(s)
    case Some(m) => if m.end == |s| then Some(ClockTime(m.hour, m.minute)) else None
    case None => None
  }

  /** Formatting a whole minute and parsing it back gives the same time. */
  lemma FormatParseRoundTrip(t: TimeOfDay)
    requires t % MicrosPerMinute == 0
    ensures ParseHHMM(FormatHHMM(t)) == Some(t)
  {
    var h, m := HourMinute(t);
    ParseClock(h, m);
  }

  /** A whole minute of the day is `h:m` for the hour and minute `%H:%M` prints. */
  lemma HourMinute(t: TimeOfDay) returns (h: nat, m: nat)
    requires t % MicrosPerMinute == 0
    ensures h == t / MicrosPerHour && m == t % MicrosPerHour / MicrosPerMinute
    ensures h <= 23 && m <= 59 && t == h * MicrosPerHour + m * MicrosPerMinute
  {
    h := t / MicrosPerHour;
    m := t % MicrosPerHour / MicrosPerMinute;
    var r := t % MicrosPerHour;
    assert t == h * MicrosPerHour + r;
    assert r % MicrosPerMinute == 0;
    assert r == m * MicrosPerMinute;
  }

  /** `%H:%M` parses the zero-padded hour and minute back. */
  lemma ParseClock(h: nat, m: nat)
    requires h <= 23 && m <= 59
    ensures ParseHHMM(Pad2(h) + ":" + Pad2(m)) == Some(ClockTime(h, m))
  {
    var s := Pad2(h) + ":" + Pad2(m);
    assert s[..2] == Pad2(h) && s[2] == ':';
    assert s[3..5] == Pad2(m);
    assert DigitValue(s[3]) <= 5 by { TwoDigitsValue(Pad2(m)); }
  }

  /** `%H` also takes a single digit, so an hour need not be padded:
      `"9:30"` is half past nine. */
  lemma ParseSingleDigitHour(h: nat, m: nat)
    requires h <= 9 && m <= 59
    ensures ParseHHMM([DigitChar(h)] + ":" + Pad2(m)) == Some(ClockTime(h, m))
  {
    var s := [DigitChar(h)] + ":" + Pad2(m);
    assert s[1] == ':' && s[2..4] == Pad2(m);
    assert DigitsValue(s[..1]) == h by { assert s[..1][..0] == []; }
    assert DigitValue(s[2]) <= 5 by { TwoDigitsValue(Pad2(m)); }
  }

  function WindowReason(start: TimeOfDay, end: TimeOfDay): string {
    "Access restricted to business hours " + FormatHHMM(start) + WindowSeparator + FormatHHMM(end) + "."
  }

  /** A built constraint evaluator. The one kind is an inclusive window of
      wall-clock time; a window whose start is after its end admits no time. */
  datatype Constraint = TimeWindow(start: TimeOfDay, end: TimeOfDay) {
    function Evaluate(context: SessionContext): (d: AuthorizationDecision)
      ensures d.granted <==> start <= context.asOf <= end
      ensures d.granted ==> d.reason == None
      ensures !d.granted ==> d.reason == Some(WindowReason(start, end))
    {
      if start <= context.asOf <= end then AuthorizationDecision(granted := true)
      else AuthorizationDecision(false, Some(WindowReason(start, end)))
    }
  }

  /** `ConstraintFactory._build_time_window`. */
  function BuildTimeWindow(params: map<string, string>): (r: Result<Constraint>)
    ensures ("start" !in params || params["start"] == "" || "end" !in params || params["end"] == "")
            ==> r == Err(ValueError(MissingBoundsMessage))
    ensures r.Ok? <==> "start" in params && "end" in params
                       && ParseHHMM(params["start"]).Some? && ParseHHMM(params["end"]).Some?
    ensures r.Ok? ==> r.value == TimeWindow(ParseHHMM(params["start"]).value, ParseHHMM(params["end"]).value)
    ensures "start" in params && "end" in params && params["start"] != "" && params["end"] != ""
            && ParseHHMM(params["start"]).None?
            ==> r == Err(ValueError(StrptimeMessage(params["start"])))
    ensures "start" in params && "end" in params && params["end"] != ""
            && ParseHHMM(params["start"]).Some? && ParseHHMM(params["end"]).None?
            ==> r == Err(ValueError(StrptimeMessage(params["end"])))
  {
    var startRaw := if "start" in params then params["start"] else "";
    var endRaw := if "end" in params then params["end"] else "";
    if startRaw == "" || endRaw == "" then Err(ValueError(MissingBoundsMessage))
    else
      match (ParseHHMM(startRaw), ParseHHMM(endRaw))
      case (None, _) => Err(ValueError(StrptimeMessage(startRaw)))
      case (Some(_), None) => Err(ValueError(StrptimeMessage(endRaw)))
      case (Some(start), Some(end)) => Ok(TimeWindow(start, end))
  }

  /** The `ValueError` message of `strptime(raw, '%H:%M')` when it fails:
      no match at all, or the text left after the match. */
  function StrptimeMessage(raw: string): string {
    match MatchClock(raw)
    case None => NoMatchMessage(Repr(raw))
    case Some(m) => "unconverted data remains: " + raw[m.end..]
  }

  /** The message when nothing matches, given the text as `repr` shows it. */
  function NoMatchMessage(shown: string): string {
    "time data " + shown + " does not match format '%H:%M'"
  }

  /** Python's `repr` of a string: single quotes unless the text holds a
      single quote and no double quote; backslashes, the chosen quote and
      control characters escaped. */
  function Repr(s: string): string {
    var quote := if '\'' in s && '"' !in s then '"' else '\'';
    [quote] + Escaped(s, quote) + [quote]
  }

  function Escaped(s: string, quote: char): string {
    if s == [] then [] else EscapedChar(s[0], quote) + Escaped(s[1..], quote)
  }

  function EscapedChar(c: char, quote: char): string {
    if c == '\\' || c == quote then ['\\', c]
    else if c == '\n' then "\\n"
    else if c == '\r' then "\\r"
    else if c == '\t' then "\\t"
    else if c < ' ' || '\U{007F}' <= c <= '\U{009F}' then
      "\\x" + [HexChar(c as int / 16), HexChar(c as int % 16)]
    else [c]
  }

  /** A character `repr` shows as itself inside `quote`s. */
  predicate Plain(c: char, quote: char) {
    c != '\\' && c != quote && ' ' <= c && !('\U{007F}' <= c <= '\U{009F}')
  }

  /** Text of plain characters is shown as it is. */
  lemma {:induction false} EscapedPlain(s: string, quote: char)
    requires forall i | 0 <= i < |s| :: Plain(s[i], quote)
    ensures Escaped(s, quote) == s
  {
    if s != [] {
      EscapedPlain(s[1..], quote);
    }
  }

  /** The minute `6` is read alone, so `"09:60"` leaves `0` over. */
  lemma MinuteSixtyLeavesDigit()
    ensures StrptimeMessage("09:60") == "unconverted data remains: 0"
  {
    var s := "09:60";
    assert HourWidth(s) == 2 by {
      assert s[..2] == "09";
      TwoDigitsValue("09");
    }
    assert MinuteWidth(s, 3) == 1;
    assert s[4..] == "0";
  }

  /** A letter after the minute is left over. */
  lemma TrailingLetterLeftOver()
    ensures StrptimeMessage("9:5x") == "unconverted data remains: x"
  {
    var s := "9:5x";
    assert HourWidth(s) == 1 by {
      assert !AllDigits(s[..2]) by { assert s[..2][1] == ':'; }
    }
    assert MinuteWidth(s, 2) == 1;
    assert s[3..] == "x";
  }

  /** Unmatched text of plain characters and no single quote is shown in
      single quotes. */
  lemma UnmatchedSingleQuoted(s: string)
    requires MatchClock(s).None?
    requires forall i | 0 <= i < |s| :: Plain(s[i], '\'')
    ensures StrptimeMessage(s) == NoMatchMessage("'" + s + "'")
  {
    EscapedPlain(s, '\'');
  }

  /** Unmatched text holding a single quote, and otherwise plain characters
      and no double quote, is shown in double quotes. */
  lemma UnmatchedDoubleQuoted(s: string)
    requires MatchClock(s).None?
    requires '\'' in s
    requires forall i | 0 <= i < |s| :: Plain(s[i], '"')
    ensures StrptimeMessage(s) == NoMatchMessage("\"" + s + "\"")
  {
    EscapedPlain(s, '"');
  }

  /** An hour of 24 matches nothing: two digits read 24, and one digit is
      not followed by the colon. */
  lemma HourTwentyFourUnmatched()
    ensures MatchClock("24:00").None?
  {
    var s := "24:00";
    assert s[..2] == "24";
    TwoDigitsValue("24");
  }

  /** So `"24:00"` is reported whole, in single quotes. */
  lemma HourTwentyFourMessage()
    ensures StrptimeMessage("24:00") == NoMatchMessage("'24:00'")
  {
    HourTwentyFourUnmatched();
    UnmatchedSingleQuoted("24:00");
  }

  /** A quote where the colon belongs matches nothing, and the quote makes
      `repr` use double quotes. */
  lemma QuoteForColonUnmatched()
    ensures MatchClock("9'00").None?
    ensures StrptimeMessage("9'00") == NoMatchMessage("\"9'00\"")
  {
    var s := "9'00";
    assert s[1] == '\'';
    UnmatchedDoubleQuoted(s);
  }

  /** The builders the factory registers, by constraint type. */
  const Builders: map<string, map<string, string> -> Result<Constraint>> :=
    map[TimeWindowType := BuildTimeWindow]

  /** `ConstraintFactory.build`: an unregistered type is refused. */
  function Build(definition: ConstraintDefinition): (r: Result<Constraint>)
    ensures definition.kind != TimeWindowType
            ==> r == Err(ValueError("Unsupported constraint type: " + definition.kind))
    ensures definition.kind == TimeWindowType ==> r == BuildTimeWindow(definition.params)
  {
    if definition.kind !in Builders then Err(ValueError("Unsupported constraint type: " + definition.kind))
    else Builders[definition.kind](definition.params)
  }

  /** A definition builds and its constraint grants in `context`. */
  predicate Grants(definition: ConstraintDefinition, context: SessionContext) {
    Build(definition).Ok? && Build(definition).value.Evaluate(context).granted
  }

  predicate AllGrant(definitions: seq<ConstraintDefinition>, context: SessionContext) {
    forall i | 0 <= i < |definitions| :: Grants(definitions[i], context)
  }

  /** `AccessControlEngine._evaluate_role_constraints`: builds and evaluates
      the constraints in declared order, stopping at the first one that fails
      to build or denies. It grants, with no reason, exactly when every
      constraint grants; an empty list grants. */
  function EvaluateConstraints(definitions: seq<ConstraintDefinition>, context: SessionContext)
    : (r: Result<AuthorizationDecision>)
    ensures r.Ok? && r.value.granted <==> AllGrant(definitions, context)
    ensures r.Ok? && r.value.granted ==> r.value.reason == None
    decreases |definitions|
  {
    if definitions == [] then Ok(AuthorizationDecision(granted := true))
    else
      var evaluator :- Build(definitions[0]);
      var decision := evaluator.Evaluate(context);
      if !decision.granted then Ok(decision)
      else
        var rest := EvaluateConstraints(definitions[1..], context);
        assert AllGrant(definitions, context) <==> AllGrant(definitions[1..], context) by {
          assert forall i | 1 <= i < |definitions| :: definitions[i] == definitions[1..][i - 1];
        }
        rest
  }

  /** Index of the first definition that fails to build or denies, or the
      length of the list when every one grants. */
  function FirstNonGranting(definitions: seq<ConstraintDefinition>, context: SessionContext): (i: nat)
    ensures i <= |definitions| && AllGrant(definitions[..i], context)
    ensures i < |definitions| ==> !Grants(definitions[i], context)
    decreases |definitions|
  {
    if definitions == [] || !Grants(definitions[0], context) then 0
    else
      var j := FirstNonGranting(definitions[1..], context);
      AllGrantCons(definitions, j, context);
      1 + j
  }

  /** A granting head followed by a granting run of the tail is a granting
      run of the whole list. */
  lemma AllGrantCons(definitions: seq<ConstraintDefinition>, j: nat, context: SessionContext)
    requires 0 < |definitions| && j < |definitions|
    requires Grants(definitions[0], context) && AllGrant(definitions[1..][..j], context)
    ensures AllGrant(definitions[..1 + j], context)
  {
    var run := definitions[..1 + j];
    forall k | 0 <= k < |run| ensures Grants(run[k], context) {
      if k > 0 {
        assert run[k] == definitions[1..][..j][k - 1];
      }
    }
  }

  /** Evaluation stops at the first constraint that does not grant and passes
      on its outcome unchanged: its build error, or its denying decision. */
  lemma {:induction false} EvaluateConstraintsStopsAtFirst(definitions: seq<ConstraintDefinition>, context: SessionContext)
    ensures var i := FirstNonGranting(definitions, context);
      EvaluateConstraints(definitions, context)
      == if i == |definitions| then Ok(AuthorizationDecision(granted := true))
         else if Build(definitions[i]).Err? then Err(Build(definitions[i]).error)
         else Ok(Build(definitions[i]).value.Evaluate(context))
    decreases |definitions|
  {
    if definitions != [] && Grants(definitions[0], context) {
      EvaluateConstraintsStopsAtFirst(definitions[1..], context);
      var j := FirstNonGranting(definitions[1..], context);
      assert j < |definitions[1..]| ==> definitions[1..][j] == definitions[j + 1];
    }
  }

  function LacksReason(roleLabel: string, code: string): string {
    "Role '" + roleLabel + "' lacks '" + code + "'."
  }

  function UnknownRole(name: string): Error {
    KeyError("Unknown role '" + name + "'")
  }

  /** The access-control engine; its role lookup is fixed at construction. */
  datatype Engine = Engine(roles: map<string, RoleDefinition>) {

    /** `get_role`. */
    function GetRole(name: string): (r: Result<RoleDefinition>)
      ensures r.Ok? <==> name in roles
      ensures r.Ok? ==> r.value == roles[name]
      ensures r.Err? ==> r.error == UnknownRole(name)
    {
      if name !in roles then Err(UnknownRole(name)) else Ok(roles[name])
    }

    /** `is_operation_allowed`: an unknown role raises; a code outside the
        role's permissions is denied without evaluating any constraint;
        otherwise the constraints decide, their decision passed on unchanged. */
    function IsOperationAllowed(roleName: string, code: string, context: SessionContext)
      : (r: Result<AuthorizationDecision>)
      ensures roleName !in roles ==> r == Err(UnknownRole(roleName))
      ensures roleName in roles && !roles[roleName].Allows(code)
              ==> r == Ok(AuthorizationDecision(false, Some(LacksReason(roles[roleName].displayLabel, code))))
      ensures roleName in roles && roles[roleName].Allows(code)
              ==> r == EvaluateConstraints(roles[roleName].constraints, context)
      ensures r.Ok? && r.value.granted
              <==> roleName in roles && code in roles[roleName].permissions
                   && AllGrant(roles[roleName].constraints, context)
    {
      var role :- GetRole(roleName);
      if !role.Allows(code) then
        Ok(AuthorizationDecision(false, Some(LacksReason(role.displayLabel, code))))
      else
        var decision :- EvaluateConstraints(role.constraints, context);
        if !decision.granted then Ok(decision) else Ok(AuthorizationDecision(granted := true))
    }

    /** `permitted_operations`: nothing when a constraint denies, otherwise
        every permission of the role, each once, in ascending order. */
    function PermittedOperations(roleName: string, context: SessionContext): (r: Result<seq<string>>)
      ensures roleName !in roles ==> r == Err(UnknownRole(roleName))
      ensures r.Ok? ==> roleName in roles
      ensures r.Ok? && !AllGrant(roles[roleName].constraints, context) ==> r.value == []
      ensures roleName in roles && EvaluateConstraints(roles[roleName].constraints, context).Err?
              ==> r == Err(EvaluateConstraints(roles[roleName].constraints, context).error)
      ensures roleName in roles && EvaluateConstraints(roles[roleName].constraints, context).Ok?
              && !EvaluateConstraints(roles[roleName].constraints, context).value.granted
              ==> r == Ok([])
      ensures roleName in roles && AllGrant(roles[roleName].constraints, context)
              ==> r.Ok? && StrictlyAscending(r.value)
                  && forall c :: c in r.value <==> c in roles[roleName].permissions
    {
      var role :- GetRole(roleName);
      var decision :- EvaluateConstraints(role.constraints, context);
      if !decision.granted then Ok([]) else Ok(Sorted(role.permissions))
    }
  }

  /** `AccessControlEngine(roles)`: `get_role` knows exactly the defined
      names, and finds each under the last definition that bears it. */
  function NewEngine(definitions: seq<RoleDefinition>): (engine: Engine)
    ensures forall name :: engine.GetRole(name).Ok? <==> exists i | 0 <= i < |definitions| :: definitions[i].name == name
    ensures forall i | 0 <= i < |definitions| ::
              (forall j | i < j < |definitions| :: definitions[j].name != definitions[i].name)
              ==> engine.GetRole(definitions[i].name) == Ok(definitions[i])
  {
    Engine(BuildRoleLookup(definitions))
  }

  /** The listing and the single decision agree: a code is listed exactly
      when `is_operation_allowed` grants it. */
  lemma PermittedIffAllowed(engine: Engine, roleName: string, code: string, context: SessionContext)
    ensures (engine.PermittedOperations(roleName, context).Ok?
             && code in engine.PermittedOperations(roleName, context).value)
            <==> (engine.IsOperationAllowed(roleName, code, context).Ok?
                  && engine.IsOperationAllowed(roleName, code, context).value.granted)
  {
  }

  /** The business-hours window `09:00`-`17:00`: both ends admitted, one
      second past the end and the evening refused, with the reason naming the window. */
  lemma BusinessHoursWindow(context: SessionContext)
    ensures var built := Build(ConstraintDefinition(TimeWindowType, map["start" := "09:00", "end" := "17:00"]));
      && built == Ok(TimeWindow(9 * MicrosPerHour, 17 * MicrosPerHour))
      && (built.value.Evaluate(context).granted <==> 9 * MicrosPerHour <= context.asOf <= 17 * MicrosPerHour)
      && (context.asOf == 17 * MicrosPerHour + 1_000_000 ==> !built.value.Evaluate(context).granted)
      && (context.asOf == 20 * MicrosPerHour ==>
            built.value.Evaluate(context).reason == Some(WindowReason(9 * MicrosPerHour, 17 * MicrosPerHour)))
  {
    var params := map["start" := "09:00", "end" := "17:00"];
    assert params["start"] == "09:00" && params["end"] == "17:00";
    BusinessHoursBounds();
  }

  lemma BusinessHoursBounds()
    ensures ParseHHMM("09:00") == Some(9 * MicrosPerHour)
    ensures ParseHHMM("17:00") == Some(17 * MicrosPerHour)
  {
    assert "09:00" == Pad2(9) + ":" + Pad2(0);
    assert "17:00" == Pad2(17) + ":" + Pad2(0);
    ParseClock(9, 0);
    ParseClock(17, 0);
  }
}

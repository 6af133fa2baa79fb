/** The proactive password policy: eight independent rules whose violations
    are all collected, in a fixed order, rather than stopping at the first. */
module PasswordPolicy {
  import opened Text
  import Numbers

  const DefaultSpecialCharacters: string := "!@#$%*&"

  predicate IsLower(c: char) { 'a' <= c <= 'z' }
  predicate IsUpper(c: char) { 'A' <= c <= 'Z' }

  /** The rules, in the order `validate` checks them. */
  datatype Rule = Whitespace | Length | Lowercase | Uppercase | Digit | Special | Username | Blacklist

  function Rank(rule: Rule): nat {
    match rule
    case Whitespace => 0
    case Length => 1
    case Lowercase => 2
    case Uppercase => 3
    case Digit => 4
    case Special => 5
    case Username => 6
    case Blacklist => 7
  }

  /** The rule checked just before `rule`. */
  function Previous(rule: Rule): (p: Rule)
    requires rule != Whitespace
    ensures Rank(p) + 1 == Rank(rule)
  {
    match rule
    case Length => Whitespace
    case Lowercase => Length
    case Uppercase => Lowercase
    case Digit => Uppercase
    case Special => Digit
    case Username => Special
    case Blacklist => Username
  }

  /** Ranks tell rules apart. */
  lemma RankInjective(a: Rule, b: Rule)
    requires Rank(a) == Rank(b)
    ensures a == b
  {
  }

  /** Strictly increasing checking order, hence no rule twice. */
  predicate InCheckingOrder(rules: seq<Rule>) {
    forall i, j | 0 <= i < j < |rules| :: Rank(rules[i]) < Rank(rules[j])
  }

  /** Every rule in `rules` is checked no later than `last`. */
  predicate NotAfter(rules: seq<Rule>, last: Rule) {
    forall i | 0 <= i < |rules| :: Rank(rules[i]) <= Rank(last)
  }

  /** Appending a rule checked after all of `rules` keeps the order. */
  lemma InCheckingOrderSnoc(rules: seq<Rule>, rule: Rule)
    requires InCheckingOrder(rules)
    requires forall i | 0 <= i < |rules| :: Rank(rules[i]) < Rank(rule)
    ensures InCheckingOrder(rules + [rule])
  {
    var r := rules + [rule];
    forall i, j | 0 <= i < j < |r| ensures Rank(r[i]) < Rank(r[j]) {
      if j == |rules| {
        assert r[i] == rules[i];
      } else {
        assert r[i] == rules[i] && r[j] == rules[j];
      }
    }
  }

  /** The fixed violation messages. */
  const WhitespaceMessage: string := "Password cannot start or end with whitespace."
  const LowercaseMessage: string := "Password must include at least one lowercase letter."
  const UppercaseMessage: string := "Password must include at least one uppercase letter."
  const DigitMessage: string := "Password must include at least one digit."
  const UsernameMessage: string := "Password cannot match the username."
  const BlacklistMessage: string := "Password appears on the weak password blacklist."

  datatype PasswordCheckResult = PasswordCheckResult(isValid: bool, violations: seq<string>)

  /** `_load_weak_passwords` given an explicit collection: the non-blank
      entries, stripped and lower-cased. */
  function LoadWeakPasswords(entries: seq<string>): (weak: set<string>)
    ensures forall i | 0 <= i < |entries| && Strip(entries[i]) != [] :: ToLower(Strip(entries[i])) in weak
    ensures forall w | w in weak :: exists i | 0 <= i < |entries| :: Strip(entries[i]) != [] && w == ToLower(Strip(entries[i]))
    ensures forall w | w in weak :: w != [] && Strip(w) == w && ToLower(w) == w
  {
    var weak := set i | 0 <= i < |entries| && Strip(entries[i]) != [] :: ToLower(Strip(entries[i]));
    forall w | w in weak ensures w != [] && Strip(w) == w && ToLower(w) == w {
      var i :| 0 <= i < |entries| && Strip(entries[i]) != [] && w == ToLower(Strip(entries[i]));
      LowerKeepsStripped(Strip(entries[i]));
      LowerIdempotent(Strip(entries[i]));
    }
    weak
  }

  lemma LowerKeepsStripped(s: string)
    requires s != [] && Strip(s) == s
    ensures Strip(ToLower(s)) == ToLower(s) && ToLower(s) != []
  {
    var l := ToLower(s);
    assert !IsSpace(s[0]) && !IsSpace(s[|s| - 1]);
    assert !IsSpace(l[0]) && !IsSpace(l[|l| - 1]);
    StripUnchanged(l);
  }

  lemma LowerIdempotent(s: string)
    ensures ToLower(ToLower(s)) == ToLower(s)
  {
  }

  /** Starts or ends with whitespace. */
  predicate EdgeWhitespace(s: string) {
    s != [] && (IsSpace(s[0]) || IsSpace(s[|s| - 1]))
  }

  /** `any(c.islower() for c in s)`, and its siblings for the other classes. */
  predicate HasLower(s: string) { exists i | 0 <= i < |s| :: IsLower(s[i]) }
  predicate HasUpper(s: string) { exists i | 0 <= i < |s| :: IsUpper(s[i]) }
  predicate HasDigit(s: string) { exists i | 0 <= i < |s| :: Numbers.IsDigit(s[i]) }
  predicate HasAnyOf(s: string, chars: string) { exists i | 0 <= i < |s| :: s[i] in chars }

  /** A configured `PasswordPolicy`; its settings never change after construction. */
  datatype Policy = Policy(minLength: int, maxLength: int, specialCharacters: string, weakPasswords: set<string>) {

    /** Whether `password` breaks `rule`, by the test `validate` makes for it.
        The username rule applies only to a non-empty username; username and
        blacklist compare lower-cased text, and the password is not stripped
        for either. */
    predicate Violated(username: string, password: string, rule: Rule) {
      match rule
      case Whitespace => |password| != |Strip(password)|
      case Length => |password| < minLength || |password| > maxLength
      case Lowercase => !HasLower(password)
      case Uppercase => !HasUpper(password)
      case Digit => !HasDigit(password)
      case Special => !HasAnyOf(password, specialCharacters)
      case Username => username != [] && ToLower(password) == ToLower(username)
      case Blacklist => ToLower(password) in weakPasswords
    }

    /** The whitespace rule fires exactly when the password starts or ends
        with whitespace. */
    lemma WhitespaceRule(username: string, password: string)
      ensures Violated(username, password, Whitespace) <==> EdgeWhitespace(password)
    {
      StripChangesLength(password);
    }

    function LengthMessage(): string {
      "Password must be between " + Numbers.IntToString(minLength) + " and "
      + Numbers.IntToString(maxLength) + " characters."
    }

    function SpecialMessage(): string {
      "Password must include at least one special character from " + specialCharacters + "."
    }

    /** The message `validate` appends when `rule` is broken. */
    function Message(rule: Rule): string {
      match rule
      case Whitespace => WhitespaceMessage
      case Length => LengthMessage()
      case Lowercase => LowercaseMessage
      case Uppercase => UppercaseMessage
      case Digit => DigitMessage
      case Special => SpecialMessage()
      case Username => UsernameMessage
      case Blacklist => BlacklistMessage
    }

    /** The message of each rule, in the same order. */
    function Messages(rules: seq<Rule>): seq<string> {
      if rules == [] then [] else Messages(rules[..|rules| - 1]) + [Message(rules[|rules| - 1])]
    }

    lemma {:induction false} MessagesSpec(rules: seq<Rule>)
      ensures |Messages(rules)| == |rules|
      ensures forall k | 0 <= k < |rules| :: Messages(rules)[k] == Message(rules[k])
    {
      MessagesLength(rules);
      forall k | 0 <= k < |rules| ensures Messages(rules)[k] == Message(rules[k]) {
        MessageAt(rules, k);
      }
    }

    lemma {:induction false} MessagesLength(rules: seq<Rule>)
      ensures |Messages(rules)| == |rules|
    {
      if rules != [] {
        MessagesLength(rules[..|rules| - 1]);
      }
    }

    lemma {:induction false} MessageAt(rules: seq<Rule>, k: int)
      requires 0 <= k < |rules|
      ensures |Messages(rules)| == |rules| && Messages(rules)[k] == Message(rules[k])
    {
      var init := rules[..|rules| - 1];
      MessagesLength(rules);
      MessagesLength(init);
      if k < |init| {
        MessageAt(init, k);
        assert rules[k] == init[k];
      }
    }

    /** Appending a rule appends its message. */
    lemma MessagesSnoc(rules: seq<Rule>, rule: Rule)
      ensures Messages(rules + [rule]) == Messages(rules) + [Message(rule)]
    {
      assert (rules + [rule])[..|rules|] == rules;
    }

    /** `rule` alone when `password` breaks it, nothing otherwise. */
    function Picked(username: string, password: string, rule: Rule): seq<Rule> {
      if Violated(username, password, rule) then [rule] else []
    }

    /** The rules up to and including `last` that `password` breaks, in
        checking order. */
    function BrokenUpTo(username: string, password: string, last: Rule): seq<Rule>
      decreases Rank(last)
    {
      if last == Whitespace then Picked(username, password, last)
      else BrokenUpTo(username, password, Previous(last)) + Picked(username, password, last)
    }

    /** Every rule `password` breaks, in checking order. */
    function Broken(username: string, password: string): seq<Rule> {
      BrokenUpTo(username, password, Blacklist)
    }

    /** The message of `rule` when `broken`, nothing otherwise. */
    function MessageIf(broken: bool, rule: Rule): seq<string> {
      if broken then [Message(rule)] else []
    }

    /** `validate`: checks all eight rules in order and appends one message
        per broken rule; valid exactly when nothing was appended. */
    method Validate(username: string, password: string) returns (result: PasswordCheckResult)
      ensures result.violations == Messages(Broken(username, password))
      ensures result.isValid <==> result.violations == []
    {
      var violations: seq<string> := [];
      var trimmed := Strip(password);
      violations := Report(username, password, violations, |password| != |trimmed|, Whitespace);
      assert violations == MessageIf(Violated(username, password, Whitespace), Whitespace);
      violations := Report(username, password, violations, |password| < minLength || |password| > maxLength, Length);
      violations := Report(username, password, violations, !HasLower(password), Lowercase);
      violations := Report(username, password, violations, !HasUpper(password), Uppercase);
      violations := Report(username, password, violations, !HasDigit(password), Digit);
      violations := Report(username, password, violations, !HasAnyOf(password, specialCharacters), Special);
      violations := Report(username, password, violations, username != [] && ToLower(password) == ToLower(username), Username);
      violations := Report(username, password, violations, ToLower(password) in weakPasswords, Blacklist);
      BrokenMessages(username, password);
      result := PasswordCheckResult(violations == [], violations);
    }

    /** One check of `validate`: when the rule is broken, append its message. */
    method Report(ghost username: string, ghost password: string, violations: seq<string>, broken: bool, rule: Rule)
      returns (reported: seq<string>)
      requires broken == Violated(username, password, rule)
      ensures reported == violations + MessageIf(Violated(username, password, rule), rule)
    {
      if broken {
        reported := violations + [Message(rule)];
      } else {
        reported := violations;
      }
    }

    /** The messages of the broken rules, one rule at a time. */
    lemma BrokenMessages(username: string, password: string)
      ensures Messages(Broken(username, password))
              == MessageIf(Violated(username, password, Whitespace), Whitespace)
                 + MessageIf(Violated(username, password, Length), Length)
                 + MessageIf(Violated(username, password, Lowercase), Lowercase)
                 + MessageIf(Violated(username, password, Uppercase), Uppercase)
                 + MessageIf(Violated(username, password, Digit), Digit)
                 + MessageIf(Violated(username, password, Special), Special)
                 + MessageIf(Violated(username, password, Username), Username)
                 + MessageIf(Violated(username, password, Blacklist), Blacklist)
    {
      assert Messages(BrokenUpTo(username, password, Whitespace))
             == MessageIf(Violated(username, password, Whitespace), Whitespace);
      MessagesStep(username, password, Length);
      MessagesStep(username, password, Lowercase);
      MessagesStep(username, password, Uppercase);
      MessagesStep(username, password, Digit);
      MessagesStep(username, password, Special);
      MessagesStep(username, password, Username);
      MessagesStep(username, password, Blacklist);
    }

    /** Checking one more rule appends its message when it is broken. */
    lemma MessagesStep(username: string, password: string, rule: Rule)
      requires rule != Whitespace
      ensures Messages(BrokenUpTo(username, password, rule))
              == Messages(BrokenUpTo(username, password, Previous(rule)))
                 + MessageIf(Violated(username, password, rule), rule)
    {
      var rules := BrokenUpTo(username, password, Previous(rule));
      if Violated(username, password, rule) {
        MessagesSnoc(rules, rule);
      } else {
        assert BrokenUpTo(username, password, rule) == rules;
      }
    }

    /** A rule up to `last` is reported exactly when it is broken. */
    lemma {:induction false} BrokenUpToHas(username: string, password: string, last: Rule, r: Rule)
      ensures r in BrokenUpTo(username, password, last) <==> Rank(r) <= Rank(last) && Violated(username, password, r)
      decreases Rank(last)
    {
      if Rank(r) == Rank(last) {
        RankInjective(r, last);
      }
      if last != Whitespace {
        BrokenUpToHas(username, password, Previous(last), r);
      }
    }

    /** The rules up to `last` are reported in checking order, none after
        `last`, and at most one per rule. */
    lemma {:induction false} BrokenUpToInOrder(username: string, password: string, last: Rule)
      ensures InCheckingOrder(BrokenUpTo(username, password, last))
      ensures NotAfter(BrokenUpTo(username, password, last), last)
      ensures |BrokenUpTo(username, password, last)| <= Rank(last) + 1
      decreases Rank(last)
    {
      if last != Whitespace {
        var before := BrokenUpTo(username, password, Previous(last));
        BrokenUpToInOrder(username, password, Previous(last));
        if Violated(username, password, last) {
          InCheckingOrderSnoc(before, last);
        }
      }
    }

    /** Each rule is reported exactly when it is broken. */
    lemma BrokenExactly(username: string, password: string)
      ensures forall r :: r in Broken(username, password) <==> Violated(username, password, r)
    {
      forall r ensures r in Broken(username, password) <==> Violated(username, password, r) {
        BrokenUpToHas(username, password, Blacklist, r);
        assert Rank(r) <= Rank(Blacklist);
      }
    }

    /** Broken rules are reported at most once each and in checking order, so
        there are never more than eight violations. */
    lemma BrokenInOrder(username: string, password: string)
      ensures InCheckingOrder(Broken(username, password))
      ensures |Messages(Broken(username, password))| <= 8
    {
      BrokenUpToInOrder(username, password, Blacklist);
      MessagesSpec(Broken(username, password));
    }

    /** A password is valid exactly when it breaks no rule. */
    lemma ValidExactly(username: string, password: string)
      ensures Messages(Broken(username, password)) == [] <==> forall r :: !Violated(username, password, r)
    {
      BrokenExactly(username, password);
      MessagesSpec(Broken(username, password));
    }
  }

  /** `PasswordPolicy(min_length=..., max_length=..., special_characters=...,
      weak_passwords=entries)`. */
  function NewPolicy(minLength: int, maxLength: int, specialCharacters: string, weakPasswords: seq<string>)
    : (policy: Policy)
    ensures policy.minLength == minLength && policy.maxLength == maxLength
    ensures policy.specialCharacters == specialCharacters
    ensures forall username, password :: policy.Violated(username, password, Blacklist)
              <==> exists i | 0 <= i < |weakPasswords| ::
                     Strip(weakPasswords[i]) != [] && ToLower(password) == ToLower(Strip(weakPasswords[i]))
  {
    Policy(minLength, maxLength, specialCharacters, LoadWeakPasswords(weakPasswords))
  }

  /** Stripping changes a password's length exactly when it starts or ends
      with whitespace. */
  lemma StripChangesLength(password: string)
    ensures |password| != |Strip(password)| <==> EdgeWhitespace(password)
  {
    var r := Strip(password);
    StripSlice(password);
    if !EdgeWhitespace(password) {
      StripUnchanged(password);
    }
    if |r| == |password| && password != [] {
      var k :| 0 <= k <= k + |r| <= |password| && password[k..k + |r|] == r
               && AllSpace(password[..k]) && AllSpace(password[k + |r|..]);
      assert k == 0 && r == password;
    }
  }

  /** The policy the tests configure: default bounds and special characters,
      with three weak passwords. */
  const SamplePolicy: Policy := Policy(8, 12, DefaultSpecialCharacters, {"password", "letmein", "12345678"})

  /** The sample policy is what `PasswordPolicy(weak_passwords={"password",
      "letmein", "12345678"})` builds with the default bounds. */
  lemma SamplePolicyLoaded()
    ensures NewPolicy(8, 12, DefaultSpecialCharacters, ["password", "letmein", "12345678"]) == SamplePolicy
  {
    PlainWord("password");
    PlainWord("letmein");
    PlainWord("12345678");
    LoadPlainThree("password", "letmein", "12345678");
  }

  /** Three entries already stripped and lowercased load as they are. */
  lemma LoadPlainThree(a: string, b: string, c: string)
    requires a != [] && Strip(a) == a && ToLower(a) == a
    requires b != [] && Strip(b) == b && ToLower(b) == b
    requires c != [] && Strip(c) == c && ToLower(c) == c
    ensures LoadWeakPasswords([a, b, c]) == {a, b, c}
  {
    var entries := [a, b, c];
    assert entries[0] == a && entries[1] == b && entries[2] == c;
    LoadPlainEntries(entries);
    ThreeListed(a, b, c);
  }

  /** The values listed at positions 0, 1 and 2 of `[a, b, c]`. */
  lemma ThreeListed(a: string, b: string, c: string)
    ensures (set i | 0 <= i < |[a, b, c]| :: [a, b, c][i]) == {a, b, c}
  {
    var entries := [a, b, c];
    var listed := set i | 0 <= i < |entries| :: entries[i];
    assert entries[0] in listed && entries[1] in listed && entries[2] in listed;
    forall w | w in listed ensures w in {a, b, c} {
      var i :| 0 <= i < |entries| && w == entries[i];
    }
  }

  /** Entries already stripped and lowercased load as they are. */
  lemma LoadPlainEntries(entries: seq<string>)
    requires forall i | 0 <= i < |entries| :: entries[i] != [] && Strip(entries[i]) == entries[i] && ToLower(entries[i]) == entries[i]
    ensures LoadWeakPasswords(entries) == set i | 0 <= i < |entries| :: entries[i]
  {
    var weak := LoadWeakPasswords(entries);
    forall w | w in weak ensures w in set i | 0 <= i < |entries| :: entries[i] {
      var i :| 0 <= i < |entries| && Strip(entries[i]) != [] && w == ToLower(Strip(entries[i]));
    }
  }

  /** A non-empty word of lowercase letters and digits strips and lowers to itself. */
  lemma PlainWord(word: string)
    requires word != [] && forall k | 0 <= k < |word| :: 'a' <= word[k] <= 'z' || '0' <= word[k] <= '9'
    ensures Strip(word) == word && ToLower(word) == word
  {
    StripUnchanged(word);
  }

  /** Which rules `"abcdefgh"` breaks for `"alice"` under the sample policy. */
  lemma LowercaseOnlyBreaks()
    ensures var p, u := "abcdefgh", "alice";
            !SamplePolicy.Violated(u, p, Whitespace) && !SamplePolicy.Violated(u, p, Length)
            && !SamplePolicy.Violated(u, p, Lowercase) && SamplePolicy.Violated(u, p, Uppercase)
            && SamplePolicy.Violated(u, p, Digit) && SamplePolicy.Violated(u, p, Special)
            && !SamplePolicy.Violated(u, p, Username) && !SamplePolicy.Violated(u, p, Blacklist)
  {
    var p := "abcdefgh";
    assert forall i | 0 <= i < |p| :: 'a' <= p[i] <= 'h';
    StripUnchanged(p);
    assert IsLower(p[0]);
    assert ToLower(p) == p;
    assert p[0] != "password"[0] && p[0] != "12345678"[0];
  }

  /** Checking does not stop at the first failure: `"abcdefgh"` is reported
      for its missing uppercase letter, digit and special character together. */
  lemma CharacterClassesReportedTogether()
    ensures SamplePolicy.Broken("alice", "abcdefgh") == [Uppercase, Digit, Special]
  {
    LowercaseOnlyBreaks();
  }

  /** `"Valid@123"` breaks no rule for `"alice"`. */
  lemma SamplePasswordValid()
    ensures SamplePolicy.Broken("alice", "Valid@123") == []
  {
    var p := "Valid@123";
    assert !SamplePolicy.Violated("alice", p, Whitespace) by {
      StripUnchanged(p);
    }
    assert IsLower(p[1]) && IsUpper(p[0]) && Numbers.IsDigit(p[6]) && p[5] in DefaultSpecialCharacters;
    assert |ToLower(p)| == 9;
  }

  /** The username rule ignores case: `"Alice"` matches `"alice"`. */
  lemma UsernameMatchIgnoresCase()
    ensures Username in SamplePolicy.Broken("alice", "Alice")
  {
    SamplePolicy.BrokenExactly("alice", "Alice");
    assert ToLower("Alice") == ToLower("alice");
  }
}

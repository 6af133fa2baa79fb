/** The few Python `str` operations the core relies on, over `string`:
    `strip`, `lower`, `split`, `join` and `splitlines`. */
module Text {

  /** Python's `str.isspace()`: exactly the characters `str.strip()` removes. */
  predicate IsSpace(c: char) {
    || c == ' '
    || '\t' <= c <= '\r'
    || '\U{001C}' <= c <= '\U{001F}'
    || c == '\U{0085}' || c == '\U{00A0}' || c == '\U{1680}'
    || '\U{2000}' <= c <= '\U{200A}'
    || c == '\U{2028}' || c == '\U{2029}' || c == '\U{202F}' || c == '\U{205F}' || c == '\U{3000}'
  }

  /** The line boundaries of Python's `str.splitlines()`. */
  predicate IsLineBreak(c: char) {
    || '\n' <= c <= '\r'
    || '\U{001C}' <= c <= '\U{001E}'
    || c == '\U{0085}' || c == '\U{2028}' || c == '\U{2029}'
  }

  predicate AllSpace(s: string) {
    forall i | 0 <= i < |s| :: IsSpace(s[i])
  }

  predicate NoLineBreak(s: string) {
    forall i | 0 <= i < |s| :: !IsLineBreak(s[i])
  }

  /** The index of the first non-whitespace character of `s` at or after
      `i`, or `|s|` when there is none. */
  function StartOfText(s: string, i: nat): (k: nat)
    requires i <= |s|
    ensures i <= k <= |s|
    ensures forall j | i <= j < k :: IsSpace(s[j])
    ensures k == |s| || !IsSpace(s[k])
    decreases |s| - i
  {
    if i < |s| && IsSpace(s[i]) then StartOfText(s, i + 1) else i
  }

  /** One past the last non-whitespace character of `s[i..j]`, or `i` when
      there is none. */
  function EndOfText(s: string, i: nat, j: nat): (k: nat)
    requires i <= j <= |s|
    ensures i <= k <= j
    ensures forall m | k <= m < j :: IsSpace(s[m])
    ensures k == i || !IsSpace(s[k - 1])
    decreases j
  {
    if i < j && IsSpace(s[j - 1]) then EndOfText(s, i, j - 1) else j
  }

  /** Python's `str.strip()`: the result neither starts nor ends with
      whitespace, and it is empty exactly when `s` is all whitespace. */
  function Strip(s: string): (r: string)
    ensures |r| <= |s|
    ensures r == [] || (!IsSpace(r[0]) && !IsSpace(r[|r| - 1]))
    ensures r == [] <==> AllSpace(s)
  {
    var start := StartOfText(s, 0);
    s[start..EndOfText(s, start, |s|)]
  }

  /** `str.strip()` only cuts whitespace away on either side: the result is
      the slice of `s` between two all-whitespace ends. */
  lemma StripSlice(s: string)
    ensures exists k :: 0 <= k <= k + |Strip(s)| <= |s| && s[k..k + |Strip(s)|] == Strip(s)
                        && AllSpace(s[..k]) && AllSpace(s[k + |Strip(s)|..])
  {
    var k := StartOfText(s, 0);
    var e := EndOfText(s, k, |s|);
    assert Strip(s) == s[k..e];
    assert 0 <= k <= k + |Strip(s)| <= |s| && s[k..k + |Strip(s)|] == Strip(s)
           && AllSpace(s[..k]) && AllSpace(s[k + |Strip(s)|..]);
  }

  lemma StripIdempotent(s: string)
    ensures Strip(Strip(s)) == Strip(s)
  {
    var r := Strip(s);
    if r != [] {
      assert StartOfText(r, 0) == 0;
      assert EndOfText(r, 0, |r|) == |r|;
      assert r[0..|r|] == r;
    }
  }

  /** A string with no whitespace at either end is its own strip. */
  lemma StripUnchanged(s: string)
    requires s == [] || (!IsSpace(s[0]) && !IsSpace(s[|s| - 1]))
    ensures Strip(s) == s
  {
    if s != [] {
      assert StartOfText(s, 0) == 0;
      assert EndOfText(s, 0, |s|) == |s|;
      assert s[0..|s|] == s;
    }
  }

  /** ASCII `str.lower()` on one character. */
  function LowerChar(c: char): char {
    if 'A' <= c <= 'Z' then (c as int + 32) as char else c
  }

  /** Python's `str.lower()`, restricted to ASCII letters. */
  function ToLower(s: string): (r: string)
    ensures |r| == |s|
    ensures forall i | 0 <= i < |s| :: r[i] == LowerChar(s[i])
  {
    seq(|s|, i requires 0 <= i < |s| => LowerChar(s[i]))
  }

  /** Python's `str.rstrip(chars)` with the single character `c`: the
      longest prefix of `s` that is `s` less a run of trailing `c`. */
  function RStrip(s: string, c: char): (r: string)
    ensures |r| <= |s| && r == s[..|r|]
    ensures r == [] || r[|r| - 1] != c
    ensures forall i | |r| <= i < |s| :: s[i] == c
    decreases |s|
  {
    if s != [] && s[|s| - 1] == c then RStrip(s[..|s| - 1], c) else s
  }

  /** `sep.join(parts)`. */
  function Join(parts: seq<string>, sep: string): string {
    if parts == [] then []
    else if |parts| == 1 then parts[0]
    else parts[0] + sep + Join(parts[1..], sep)
  }

  /** The position of the first `c` in `s`. */
  function IndexOf(s: string, c: char): (i: nat)
    requires c in s
    ensures i < |s| && s[i] == c && c !in s[..i]
  {
    if s[0] == c then 0
    else
      var i := 1 + IndexOf(s[1..], c);
      assert s[..i] == [s[0]] + s[1..][..i - 1];
      i
  }

  lemma IndexOfAfter(x: string, c: char, y: string)
    requires c !in x
    ensures c in x + [c] + y && IndexOf(x + [c] + y, c) == |x|
  {
    var s := x + [c] + y;
    assert s[|x|] == c;
    forall m | 0 <= m < |x| ensures s[m] != c { assert s[m] == x[m]; }
    var i := IndexOf(s, c);
  }

  /** Python's `str.split(sep, maxsplit)` with a one-character separator: it
      cuts at the first `maxsplit` separators and leaves the rest whole. */
  function SplitN(s: string, sep: char, maxsplit: nat): (parts: seq<string>)
    ensures 1 <= |parts| <= maxsplit + 1
    decreases maxsplit
  {
    if maxsplit == 0 || sep !in s then [s]
    else
      var i := IndexOf(s, sep);
      [s[..i]] + SplitN(s[i + 1..], sep, maxsplit - 1)
  }

  /** `str.split(sep)`, which has no limit: a string holds no more separators
      than characters. */
  function Split(s: string, sep: char): (parts: seq<string>)
    ensures |parts| >= 1
  {
    SplitN(s, sep, |s|)
  }

  /** Splitting at the first separator peels off the text before it. */
  lemma SplitNAt(x: string, sep: char, y: string, maxsplit: nat)
    requires sep !in x && maxsplit > 0
    ensures SplitN(x + [sep] + y, sep, maxsplit) == [x] + SplitN(y, sep, maxsplit - 1)
  {
    var s := x + [sep] + y;
    IndexOfAfter(x, sep, y);
    assert s[..|x|] == x;
    assert s[|x| + 1..] == y;
  }

  /** Joining the pieces of `s.split(sep, maxsplit)` with `sep` gives `s` back. */
  lemma {:induction false} JoinSplitN(s: string, sep: char, maxsplit: nat)
    ensures Join(SplitN(s, sep, maxsplit), [sep]) == s
    decreases maxsplit
  {
    if maxsplit > 0 && sep in s {
      var i := IndexOf(s, sep);
      var head, rest := s[..i], s[i + 1..];
      var tail := SplitN(rest, sep, maxsplit - 1);
      calc {
        Join(SplitN(s, sep, maxsplit), [sep]);
        Join([head] + tail, [sep]);
        { JoinCons(head, tail, [sep]); }
        head + [sep] + Join(tail, [sep]);
        { JoinSplitN(rest, sep, maxsplit - 1); }
        head + [sep] + rest;
        { Reassemble(s, i); }
        s;
      }
    }
  }

  lemma JoinThree(parts: seq<string>, sep: string)
    requires |parts| == 3
    ensures Join(parts, sep) == parts[0] + sep + parts[1] + sep + parts[2]
  {
    assert Join(parts[1..], sep) == parts[1] + sep + parts[2] by {
      assert parts[1..][1..] == [parts[2]];
    }
    AppendAssociative(parts[0] + sep, parts[1] + sep, parts[2]);
  }

  /** A string is the text before position `i`, the character there, and
      the text after it. */
  lemma Reassemble(s: string, i: nat)
    requires i < |s|
    ensures s[..i] + [s[i]] + s[i + 1..] == s
  {
  }

  /** Only the last piece of `s.split(sep, maxsplit)` may hold a separator. */
  lemma {:induction false} SplitNPieces(s: string, sep: char, maxsplit: nat)
    ensures forall k | 0 <= k < |SplitN(s, sep, maxsplit)| - 1 :: sep !in SplitN(s, sep, maxsplit)[k]
    decreases maxsplit
  {
    if maxsplit > 0 && sep in s {
      var i := IndexOf(s, sep);
      var tail := SplitN(s[i + 1..], sep, maxsplit - 1);
      SplitNPieces(s[i + 1..], sep, maxsplit - 1);
      var parts := SplitN(s, sep, maxsplit);
      assert parts == [s[..i]] + tail;
      forall k | 0 <= k < |parts| - 1 ensures sep !in parts[k] {
        if k > 0 { assert parts[k] == tail[k - 1]; }
      }
    }
  }

  lemma JoinCons(x: string, parts: seq<string>, sep: string)
    requires parts != []
    ensures Join([x] + parts, sep) == x + sep + Join(parts, sep)
  {
    assert ([x] + parts)[1..] == parts;
  }

  /** A limit of at least `|s|` is no limit. */
  lemma {:induction false} SplitNUnlimited(s: string, sep: char, maxsplit: nat)
    requires maxsplit >= |s|
    ensures SplitN(s, sep, maxsplit) == Split(s, sep)
    decreases |s|
  {
    if sep in s {
      var i := IndexOf(s, sep);
      SplitNUnlimited(s[i + 1..], sep, maxsplit - 1);
      SplitNUnlimited(s[i + 1..], sep, |s| - 1);
    }
  }

  /** The same for an unlimited split. */
  lemma SplitAt(x: string, sep: char, y: string)
    requires sep !in x
    ensures Split(x + [sep] + y, sep) == [x] + Split(y, sep)
  {
    var n := |x + [sep] + y|;
    calc {
      Split(x + [sep] + y, sep);
      SplitN(x + [sep] + y, sep, n);
      { SplitNAt(x, sep, y, n); }
      [x] + SplitN(y, sep, n - 1);
      { SplitNUnlimited(y, sep, n - 1); }
      [x] + Split(y, sep);
    }
  }

  /** The pieces of `s.split(sep)` hold no separator, and joining them with
      `sep` gives `s` back. */
  lemma {:induction false} JoinSplit(s: string, sep: char)
    ensures forall k | 0 <= k < |Split(s, sep)| :: sep !in Split(s, sep)[k]
    ensures Join(Split(s, sep), [sep]) == s
    decreases |s|
  {
    if sep in s {
      var i := IndexOf(s, sep);
      var rest := s[i + 1..];
      assert s == s[..i] + [sep] + rest;
      SplitAt(s[..i], sep, rest);
      JoinSplit(rest, sep);
      var parts := Split(s, sep);
      assert parts[1..] == Split(rest, sep);
      assert Join(parts, [sep]) == s[..i] + [sep] + Join(Split(rest, sep), [sep]);
    }
  }

  /** Splitting undoes joining when no piece holds the separator. */
  lemma {:induction false} SplitJoin(parts: seq<string>, sep: char)
    requires |parts| >= 1
    requires forall k | 0 <= k < |parts| :: sep !in parts[k]
    ensures Split(Join(parts, [sep]), sep) == parts
    decreases |parts|
  {
    if |parts| > 1 {
      SplitAt(parts[0], sep, Join(parts[1..], [sep]));
      SplitJoin(parts[1..], sep);
      assert [parts[0]] + parts[1..] == parts;
    }
  }

  /** Gluing boundary-free pieces with a boundary-free separator makes no boundary. */
  lemma {:induction false} JoinNoLineBreak(parts: seq<string>, sep: string)
    requires NoLineBreak(sep)
    requires forall k | 0 <= k < |parts| :: NoLineBreak(parts[k])
    ensures NoLineBreak(Join(parts, sep))
    decreases |parts|
  {
    if |parts| > 1 {
      JoinNoLineBreak(parts[1..], sep);
      NoLineBreakAppend(parts[0], sep);
      NoLineBreakAppend(parts[0] + sep, Join(parts[1..], sep));
    }
  }

  lemma NoLineBreakAppend(a: string, b: string)
    requires NoLineBreak(a) && NoLineBreak(b)
    ensures NoLineBreak(a + b)
  {
    forall i | 0 <= i < |a + b| ensures !IsLineBreak((a + b)[i]) {
      if i >= |a| { assert (a + b)[i] == b[i - |a|]; }
    }
  }

  /** Index of the first line boundary in `s` at or after `j`, or `|s|`. */
  function LineEnd(s: string, j: nat): (i: nat)
    requires j <= |s|
    ensures j <= i <= |s| && (i < |s| ==> IsLineBreak(s[i]))
    ensures forall m | j <= m < i :: !IsLineBreak(s[m])
    decreases |s| - j
  {
    if j == |s| || IsLineBreak(s[j]) then j else LineEnd(s, j + 1)
  }

  /** Width of the boundary at `i`: `"\r\n"` counts as one boundary. */
  function BreakWidth(s: string, i: nat): nat
    requires i < |s|
  {
    if s[i] == '\r' && i + 1 < |s| && s[i + 1] == '\n' then 2 else 1
  }

  /** Python's `str.splitlines()`: the text between boundaries, with no
      final empty line after a trailing boundary. */
  function SplitLines(s: string): (lines: seq<string>)
    ensures forall k | 0 <= k < |lines| :: NoLineBreak(lines[k])
    decreases |s|
  {
    if s == [] then []
    else
      var i := LineEnd(s, 0);
      if i == |s| then [s]
      else [s[..i]] + SplitLines(s[i + BreakWidth(s, i)..])
  }

  /** Text that ends on a `"\n"` splits independently of what follows it. */
  lemma {:induction false} SplitLinesAppend(s: string, t: string)
    requires s == [] || s[|s| - 1] == '\n'
    ensures SplitLines(s + t) == SplitLines(s) + SplitLines(t)
    decreases |s|
  {
    if s == [] {
      assert s + t == t;
    } else {
      var i := LineEnd(s, 0);
      assert i < |s| && (i + 1 == |s| ==> s[i] == '\n') by {
        LineEndAtMost(s, |s| - 1);
      }
      var rest := FirstLine(s, t);
      SplitLinesAppend(rest, t);
      AppendAssociative([s[..i]], SplitLines(rest), SplitLines(t));
    }
  }

  /** When the first boundary of `s` lies wholly inside `s`, the first line
      of `s + t` is that of `s`, and the rest of `s` follows it in both. */
  lemma FirstLine(s: string, t: string) returns (rest: string)
    requires LineEnd(s, 0) < |s|
    requires !(s[LineEnd(s, 0)] == '\r' && LineEnd(s, 0) + 1 == |s|)
    ensures |rest| < |s| && (rest == [] || rest[|rest| - 1] == s[|s| - 1])
    ensures SplitLines(s) == [s[..LineEnd(s, 0)]] + SplitLines(rest)
    ensures SplitLines(s + t) == [s[..LineEnd(s, 0)]] + SplitLines(rest + t)
  {
    var i := LineEnd(s, 0);
    LineEndPrefix(s, t, 0);
    var w := BreakWidth(s, i);
    rest := s[i + w..];
    assert BreakWidth(s + t, i) == w;
    assert (s + t)[..i] == s[..i];
    assert (s + t)[i + w..] == rest + t;
  }

  /** No boundary is passed over: the first one is at or before any other. */
  lemma LineEndAtMost(s: string, k: nat)
    requires k < |s| && IsLineBreak(s[k])
    ensures LineEnd(s, 0) <= k
  {
  }

  lemma AppendAssociative<T>(a: seq<T>, b: seq<T>, c: seq<T>)
    ensures a + (b + c) == (a + b) + c
  {
  }

  /** A non-empty sequence is its head before its tail. */
  lemma HeadTail<T>(s: seq<T>)
    requires s != []
    ensures [s[0]] + s[1..] == s
  {
  }

  /** Text after a boundary does not move the boundary. */
  lemma LineEndPrefix(s: string, t: string, j: nat)
    requires j <= |s| && LineEnd(s, j) < |s|
    ensures LineEnd(s + t, j) == LineEnd(s, j)
  {
    var i := LineEnd(s, j);
    assert (s + t)[i] == s[i];
    forall m | j <= m < i ensures !IsLineBreak((s + t)[m]) {
      assert (s + t)[m] == s[m];
    }
  }

  /** The first boundary after a line with none inside is where it ends. */
  lemma LineEndOfLine(line: string, t: string)
    requires NoLineBreak(line) && t != [] && IsLineBreak(t[0])
    ensures LineEnd(line + t, 0) == |line|
  {
    var s := line + t;
    assert s[|line|] == t[0];
    forall m | 0 <= m < |line| ensures !IsLineBreak(s[m]) {
      assert s[m] == line[m];
    }
  }

  /** A line with no boundary inside, followed by `"\n"`, is one line. */
  lemma SplitLinesOfLine(line: string)
    requires NoLineBreak(line)
    ensures SplitLines(line + "\n") == [line]
  {
    var s := line + "\n";
    LineEndOfLine(line, "\n");
    assert BreakWidth(s, |line|) == 1;
    assert s[..|line|] == line;
    assert s[|line| + 1..] == [];
  }

  /** Terminating a text that does not end in `"\n"` adds at most one empty line. */
  lemma {:induction false} SplitLinesTerminate(s: string)
    requires s != [] && s[|s| - 1] != '\n'
    ensures SplitLines(s + "\n") == SplitLines(s)
         || SplitLines(s + "\n") == SplitLines(s) + [""]
    decreases |s|
  {
    var i := LineEnd(s, 0);
    if i == |s| {
      SplitLinesOfLine(s);
    } else if s[i] == '\r' && i + 1 == |s| {
      SplitLinesCarriageReturn(s);
    } else {
      var rest := FirstLine(s, "\n");
      if rest == [] {
        assert rest + "\n" == "\n";
        assert SplitLines("\n") == [""] by {
          assert LineEnd("\n", 0) == 0;
          assert "\n"[..0] == "";
        }
      } else {
        SplitLinesTerminate(rest);
      }
    }
  }

  /** A `"\n"` after a final `"\r"` joins it into one `"\r\n"` boundary. */
  lemma SplitLinesCarriageReturn(s: string)
    requires LineEnd(s, 0) + 1 == |s| && s[|s| - 1] == '\r'
    ensures SplitLines(s + "\n") == SplitLines(s) == [s[..|s| - 1]]
  {
    var i := |s| - 1;
    var sn := s + "\n";
    LineEndPrefix(s, "\n", 0);
    assert sn[i] == '\r' && sn[i + 1] == '\n';
    assert BreakWidth(sn, i) == 2 && BreakWidth(s, i) == 1;
    assert sn[..i] == s[..i];
    assert sn[i + 2..] == [] && s[i + 1..] == [];
    assert SplitLines(s) == [s[..i]] + SplitLines([]);
    assert SplitLines(sn) == [s[..i]] + SplitLines([]);
  }
}

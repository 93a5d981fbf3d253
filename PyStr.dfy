/**
 * The handful of Python string operations the emulator driver relies on:
 * `sub in s`, `s.replace("\r\r", "\r")`, `s.strip()`, `s.splitlines()`,
 * `sep.join(parts)` and `int(s)`.
 *
 * The driver works on the raw bytes read from the emulator's terminal, so the
 * byte-string meanings are modelled: whitespace is the six ASCII blanks, a line
 * break is `\n`, `\r` or the pair `\r\n`, and an integer is an optionally
 * signed run of ASCII decimal digits.
 */
module PyStr {
  import opened Wrappers

  predicate IsSpace(c: char) {
    c == ' ' || c == '\t' || c == '\n' || c == '\r' || c == '\U{0B}' || c == '\U{0C}'
  }

  predicate IsLineBreak(c: char) {
    c == '\n' || c == '\r'
  }

  predicate NoLineBreak(s: string) {
    forall k :: 0 <= k < |s| ==> !IsLineBreak(s[k])
  }

  predicate HasNonSpace(s: string) {
    exists k :: 0 <= k < |s| && !IsSpace(s[k])
  }

  predicate IsDigit(c: char) {
    '0' <= c <= '9'
  }

  predicate AllDigits(s: string) {
    forall k :: 0 <= k < |s| ==> IsDigit(s[k])
  }

  /** Python truthiness of an optional string: neither None nor "". */
  predicate Truthy(s: Option<string>) {
    s.Some? && s.value != ""
  }

  /** Python's `sub in s`. */
  predicate Contains(s: string, sub: string) {
    exists i :: 0 <= i <= |s| && sub <= s[i..]
  }

  /** A text found in `b` is found in every text that ends with `b`. */
  lemma ContainsSuffix(a: string, b: string)
    ensures Contains(a + b, b)
  {
    assert b <= (a + b)[|a|..];
  }

  /** Appending never hides a text that was already there. */
  lemma ContainsExtended(a: string, b: string, sub: string)
    requires Contains(a, sub)
    ensures Contains(a + b, sub)
  {
    var i :| 0 <= i <= |a| && sub <= a[i..];
    assert (a + b)[i..] == a[i..] + b;
  }

  // ---------------------------------------------------------------------------
  // s.replace("\r\r", "\r")
  // ---------------------------------------------------------------------------

  /** `s.replace("\r\r", "\r")`: pairs of carriage returns are found left to
      right without overlapping, and each pair becomes one. */
  function CollapseDoubleCr(s: string): (r: string)
    ensures |r| <= |s|
    decreases |s|
  {
    if |s| >= 2 && s[0] == '\r' && s[1] == '\r' then "\r" + CollapseDoubleCr(s[2..])
    else if s == [] then []
    else [s[0]] + CollapseDoubleCr(s[1..])
  }

  lemma {:induction false} CollapseShortens(s: string)
    requires Contains(s, "\r\r")
    ensures |CollapseDoubleCr(s)| < |s|
    decreases |s|
  {
    var i :| 0 <= i <= |s| && "\r\r" <= s[i..];
    if |s| >= 2 && s[0] == '\r' && s[1] == '\r' {
    } else {
      assert i > 0;
      assert "\r\r" <= s[1..][i - 1..];
      CollapseShortens(s[1..]);
    }
  }

  lemma {:induction false} CollapseChangesOnlyPairs(s: string)
    requires CollapseDoubleCr(s) != s
    ensures Contains(s, "\r\r")
    decreases |s|
  {
    if |s| >= 2 && s[0] == '\r' && s[1] == '\r' {
      assert "\r\r" <= s[0..];
    } else {
      assert CollapseDoubleCr(s[1..]) != s[1..];
      CollapseChangesOnlyPairs(s[1..]);
      var i :| 0 <= i <= |s[1..]| && "\r\r" <= s[1..][i..];
      assert s[1..][i..] == s[i + 1..];
    }
  }

  /** The replacement changes a text exactly when the text holds "\r\r". */
  lemma CollapseFixedPoints(s: string)
    ensures CollapseDoubleCr(s) == s <==> !Contains(s, "\r\r")
  {
    if Contains(s, "\r\r") {
      CollapseShortens(s);
    } else if CollapseDoubleCr(s) != s {
      CollapseChangesOnlyPairs(s);
    }
  }

  /** A text that does not end in '\r' cannot start a pair with what follows,
      so the replacement can be done on the two parts separately. */
  lemma {:induction false} CollapseConcat(a: string, b: string)
    requires a == [] || a[|a| - 1] != '\r'
    ensures CollapseDoubleCr(a + b) == CollapseDoubleCr(a) + CollapseDoubleCr(b)
    decreases |a|
  {
    if a == [] {
      assert a + b == b;
    } else if |a| >= 2 && a[0] == '\r' && a[1] == '\r' {
      CollapseConcat(a[2..], b);
      CollapseConcatStep(a, b);
    } else {
      CollapseConcat(a[1..], b);
      CollapseConcatStep(a, b);
    }
  }

  /** How many characters the replacement consumes at the front of a text. */
  function CollapseSkip(s: string): nat {
    if |s| >= 2 && s[0] == '\r' && s[1] == '\r' then 2 else 1
  }

  /** One step of the replacement: the first character stays, and the
      second goes too when the two form a pair. */
  lemma CollapseAt(s: string)
    requires s != []
    ensures CollapseSkip(s) <= |s|
    ensures CollapseDoubleCr(s) == [s[0]] + CollapseDoubleCr(s[CollapseSkip(s)..])
  {
  }

  /** The inductive step of `CollapseConcat`: the front of `a + b` is
      consumed exactly as the front of `a`. */
  lemma CollapseConcatStep(a: string, b: string)
    requires a != [] && a[|a| - 1] != '\r'
    requires CollapseDoubleCr(a[CollapseSkip(a)..] + b)
          == CollapseDoubleCr(a[CollapseSkip(a)..]) + CollapseDoubleCr(b)
    ensures CollapseDoubleCr(a + b) == CollapseDoubleCr(a) + CollapseDoubleCr(b)
  {
    var n := CollapseSkip(a);
    CollapseAt(a);
    CollapseAt(a + b);
    DropConcat(a, b, n);
    ConcatAssoc([a[0]], CollapseDoubleCr(a[n..]), CollapseDoubleCr(b));
  }

  lemma DropConcat<T>(a: seq<T>, b: seq<T>, n: nat)
    requires n <= |a|
    ensures (a + b)[n..] == a[n..] + b
  {
  }

  lemma ConcatAssoc<T>(x: seq<T>, y: seq<T>, z: seq<T>)
    ensures x + (y + z) == (x + y) + z
  {
  }

  // ---------------------------------------------------------------------------
  // s.strip()
  // ---------------------------------------------------------------------------

  /** `s.lstrip()`: the longest suffix that does not start with whitespace. */
  function StripLeft(s: string): (r: string)
    ensures |r| <= |s|
    ensures forall k :: 0 <= k < |s| - |r| ==> IsSpace(s[k])
    ensures r == [] || !IsSpace(r[0])
    decreases |s|
  {
    if s != [] && IsSpace(s[0]) then StripLeft(s[1..]) else s
  }

  /** `s.rstrip()`: the longest prefix that does not end with whitespace. */
  function StripRight(s: string): (r: string)
    ensures |r| <= |s|
    ensures forall k :: |r| <= k < |s| ==> IsSpace(s[k])
    ensures r == [] || !IsSpace(r[|r| - 1])
    decreases |s|
  {
    if s != [] && IsSpace(s[|s| - 1]) then StripRight(s[..|s| - 1]) else s
  }

  /** What `lstrip` keeps is the end of the text. */
  lemma {:induction false} StripLeftIsSuffix(s: string)
    ensures StripLeft(s) == s[|s| - |StripLeft(s)|..]
    decreases |s|
  {
    if s != [] && IsSpace(s[0]) {
      StripLeftIsSuffix(s[1..]);
    }
  }

  /** What `rstrip` keeps is the start of the text. */
  lemma {:induction false} StripRightIsPrefix(s: string)
    ensures StripRight(s) == s[..|StripRight(s)|]
    decreases |s|
  {
    if s != [] && IsSpace(s[|s| - 1]) {
      StripRightIsPrefix(s[..|s| - 1]);
    }
  }

  /** `s.strip()`. */
  function Strip(s: string): (r: string)
    ensures |r| <= |s|
    ensures r == [] || (!IsSpace(r[0]) && !IsSpace(r[|r| - 1]))
    ensures r == [] <==> !HasNonSpace(s)
    ensures s == [] || (!IsSpace(s[0]) && !IsSpace(s[|s| - 1])) ==> r == s
  {
    StripBothEnds(s);
    StripKeepsNonBlank(s);
    StripRight(StripLeft(s))
  }

  /** What is left after stripping both ends starts and ends with a non-blank,
      and it comes from a non-blank text. */
  lemma StripBothEnds(s: string)
    ensures var r := StripRight(StripLeft(s));
            && (r == [] || (!IsSpace(r[0]) && !IsSpace(r[|r| - 1])))
            && (r != [] ==> HasNonSpace(s))
  {
    var l := StripLeft(s);
    var r := StripRight(l);
    if r != [] {
      StripLeftIsSuffix(s);
      StripRightIsPrefix(l);
      assert r[0] == l[0];
      assert l[0] == s[|s| - |l|];
    }
  }

  /** A text with a non-blank character keeps it through both strips. */
  lemma StripKeepsNonBlank(s: string)
    ensures HasNonSpace(s) ==> StripRight(StripLeft(s)) != []
  {
    if HasNonSpace(s) {
      var l := StripLeft(s);
      var k :| 0 <= k < |s| && !IsSpace(s[k]);
      var j := k - (|s| - |l|);
      StripLeftAt(s, j);
      assert j < |StripRight(l)|;
    }
  }

  /** One character of what `lstrip` keeps, at its place in the text. */
  lemma StripLeftAt(s: string, j: int)
    requires 0 <= j < |StripLeft(s)|
    ensures StripLeft(s)[j] == s[|s| - |StripLeft(s)| + j]
  {
    StripLeftIsSuffix(s);
  }

  /** `strip` keeps the middle of the text: what it removes is a run of blanks
      at each end and nothing else. With the non-blank ends of `Strip`'s
      result, this fixes the result to the text without its outer blanks. */
  lemma StripIsMiddle(s: string)
    ensures var i := |s| - |StripLeft(s)|;
            var j := i + |Strip(s)|;
            && j <= |s|
            && Strip(s) == s[i..j]
            && (forall k :: 0 <= k < i ==> IsSpace(s[k]))
            && (forall k :: j <= k < |s| ==> IsSpace(s[k]))
  {
    assert Strip(s) == StripRight(StripLeft(s));
    StripMiddleSlice(s);
    StripTrailingBlanks(s);
  }

  lemma StripMiddleSlice(s: string)
    ensures var l := StripLeft(s);
            var r := StripRight(l);
            r == s[|s| - |l|..|s| - |l| + |r|]
  {
    var l := StripLeft(s);
    var r := StripRight(l);
    var i := |s| - |l|;
    StripLeftIsSuffix(s);
    StripRightIsPrefix(l);
    assert s[i..][..|r|] == s[i..i + |r|];
  }

  lemma StripTrailingBlanks(s: string)
    ensures var l := StripLeft(s);
            var r := StripRight(l);
            forall k :: |s| - |l| + |r| <= k < |s| ==> IsSpace(s[k])
  {
    var l := StripLeft(s);
    var r := StripRight(l);
    var i := |s| - |l|;
    forall k | i + |r| <= k < |s|
      ensures IsSpace(s[k])
    {
      StripLeftAt(s, k - i);
    }
  }

  /** Stripping the end of `y + p` only reaches into `y` when `p` is blank. */
  lemma {:induction false} StripRightAppend(y: string, p: string)
    ensures HasNonSpace(p) ==> StripRight(y + p) == y + StripRight(p)
    ensures !HasNonSpace(p) ==> StripRight(y + p) == StripRight(y)
    decreases |p|
  {
    if p == [] {
      assert y + p == y;
    } else {
      var q := p[..|p| - 1];
      assert (y + p)[..|y + p| - 1] == y + q;
      if IsSpace(p[|p| - 1]) {
        StripRightAppend(y, q);
        if HasNonSpace(p) {
          var k :| 0 <= k < |p| && !IsSpace(p[k]);
          assert q[k] == p[k];
        }
        if HasNonSpace(q) {
          var k :| 0 <= k < |q| && !IsSpace(q[k]);
          assert p[k] == q[k];
        }
      } else {
        assert !IsSpace(p[|p| - 1]);
      }
    }
  }

  // ---------------------------------------------------------------------------
  // s.splitlines() and sep.join(parts)
  // ---------------------------------------------------------------------------

  /** Index of the first line break in `s`, or `|s|` if there is none. */
  function LineEnd(s: string): (i: nat)
    ensures i <= |s|
    ensures forall k :: 0 <= k < i ==> !IsLineBreak(s[k])
    ensures i < |s| ==> IsLineBreak(s[i])
    decreases |s|
  {
    if s == [] || IsLineBreak(s[0]) then 0 else 1 + LineEnd(s[1..])
  }

  /** `s.splitlines()`: the lines of `s` without their breaks; a break at the
      very end does not start another line. */
  function SplitLines(s: string): (lines: seq<string>)
    ensures forall k :: 0 <= k < |lines| ==> NoLineBreak(lines[k])
    ensures lines == [] <==> s == []
    ensures |lines| <= |s|
    decreases |s|
  {
    if s == [] then []
    else
      var i := LineEnd(s);
      if i == |s| then [s]
      else
        var next := if s[i] == '\r' && i + 1 < |s| && s[i + 1] == '\n' then i + 2 else i + 1;
        [s[..i]] + SplitLines(s[next..])
  }

  /** A non-empty text without a break is a single line. */
  lemma SplitSingleLine(line: string)
    requires line != [] && NoLineBreak(line)
    ensures SplitLines(line) == [line]
  {
    assert LineEnd(line) == |line|;
  }

  /** `sep.join(parts)`. */
  function Join(sep: string, parts: seq<string>): string
    decreases |parts|
  {
    if parts == [] then ""
    else if |parts| == 1 then parts[0]
    else parts[0] + sep + Join(sep, parts[1..])
  }

  /** A join of two or more parts: the first part, the separator, the rest. */
  lemma JoinCons(sep: string, parts: seq<string>)
    requires |parts| >= 2
    ensures Join(sep, parts) == parts[0] + (sep + Join(sep, parts[1..]))
  {
  }

  predicate IsLineEnding(eol: string) {
    eol == "\n" || eol == "\r\n" || eol == "\r"
  }

  /** A text whose first line is `line` and that goes on after a break. */
  lemma SplitLinesCons(line: string, eol: string, rest: string)
    requires NoLineBreak(line) && IsLineEnding(eol)
    requires eol == "\r" && rest != [] ==> rest[0] != '\n'
    ensures SplitLines(line + eol + rest) == [line] + SplitLines(rest)
  {
    var s := line + eol + rest;
    var i := LineEnd(s);
    assert s[|line|] == eol[0];
    assert i == |line|;
    assert s[..i] == line;
    if eol == "\r\n" {
      assert s[i + 2..] == rest;
    } else {
      assert s[i + 1..] == rest;
    }
  }

  /** Splitting undoes joining with a line ending, as long as no line holds a
      break and the last line is not empty (a trailing break is dropped). */
  lemma {:induction false} SplitLinesJoin(eol: string, lines: seq<string>)
    requires IsLineEnding(eol)
    requires lines != [] && lines[|lines| - 1] != ""
    requires forall k :: 0 <= k < |lines| ==> NoLineBreak(lines[k])
    ensures SplitLines(Join(eol, lines)) == lines
    decreases |lines|
  {
    if |lines| == 1 {
      assert LineEnd(lines[0]) == |lines[0]|;
    } else {
      var rest := Join(eol, lines[1..]);
      JoinStart(eol, lines[1..]);
      SplitLinesCons(lines[0], eol, rest);
      SplitLinesJoin(eol, lines[1..]);
      assert lines == [lines[0]] + lines[1..];
    }
  }

  /** A join whose last part is not empty is not empty, and it starts either
      with its first part's first character or with the separator. */
  lemma {:induction false} JoinStart(sep: string, parts: seq<string>)
    requires sep != [] && parts != [] && parts[|parts| - 1] != ""
    ensures Join(sep, parts) != []
    ensures parts[0] != [] ==> Join(sep, parts)[0] == parts[0][0]
    ensures parts[0] == [] ==> Join(sep, parts)[0] == sep[0]
    decreases |parts|
  {
    if |parts| > 1 {
      JoinStart(sep, parts[1..]);
    }
  }

  /** The first part always opens the join. */
  lemma {:induction false} JoinPrefix(sep: string, parts: seq<string>)
    requires parts != []
    ensures parts[0] <= Join(sep, parts)
  {
    if |parts| > 1 {
      assert Join(sep, parts) == parts[0] + (sep + Join(sep, parts[1..]));
    }
  }

  /** Joining `xs + [y]` is joining `xs` and then adding the separator and `y`. */
  lemma {:induction false} JoinSnoc(sep: string, xs: seq<string>, y: string)
    requires xs != []
    ensures Join(sep, xs + [y]) == Join(sep, xs) + sep + y
    decreases |xs|
  {
    if |xs| == 1 {
      assert xs + [y] == [xs[0], y];
    } else {
      assert (xs + [y])[1..] == xs[1..] + [y];
      JoinSnoc(sep, xs[1..], y);
    }
  }

  // ---------------------------------------------------------------------------
  // s.split(c) for a one-character separator
  // ---------------------------------------------------------------------------

  /** Index of the first `c` in `s`, or `|s|` if there is none. */
  function IndexOf(s: string, c: char): (i: nat)
    ensures i <= |s|
    ensures forall k :: 0 <= k < i ==> s[k] != c
    ensures i < |s| ==> s[i] == c
    decreases |s|
  {
    if s == [] || s[0] == c then 0 else 1 + IndexOf(s[1..], c)
  }

  /** `s.split(c)`: the pieces between the occurrences of `c`. */
  function Split(s: string, c: char): (parts: seq<string>)
    ensures parts != []
    ensures forall k :: 0 <= k < |parts| ==> c !in parts[k]
    decreases |s|
  {
    var i := IndexOf(s, c);
    if i == |s| then [s] else [s[..i]] + Split(s[i + 1..], c)
  }

  /** Joining with a one-character separator loses nothing when no part holds
      that character: splitting on it gives the parts back. */
  lemma {:induction false} SplitJoin(c: char, parts: seq<string>)
    requires parts != []
    requires forall k :: 0 <= k < |parts| ==> c !in parts[k]
    ensures Split(Join([c], parts), c) == parts
    decreases |parts|
  {
    var s := Join([c], parts);
    if |parts| == 1 {
      assert IndexOf(s, c) == |s|;
    } else {
      var rest := Join([c], parts[1..]);
      assert s == parts[0] + [c] + rest;
      assert s[|parts[0]|] == c;
      assert s[..|parts[0]|] == parts[0];
      assert IndexOf(s, c) == |parts[0]|;
      assert s[|parts[0]| + 1..] == rest;
      SplitJoin(c, parts[1..]);
      assert parts == [parts[0]] + parts[1..];
    }
  }

  // ---------------------------------------------------------------------------
  // int(s) and the decimal text a shell prints for a number
  // ---------------------------------------------------------------------------

  function DigitValue(c: char): nat
    requires IsDigit(c)
  {
    c as int - '0' as int
  }

  function DigitChar(d: nat): char
    requires d < 10
  {
    ('0' as int + d) as char
  }

  /** The value of a run of decimal digits, most significant first. */
  function DigitsValue(ds: string): nat
    requires AllDigits(ds)
    decreases |ds|
  {
    if ds == [] then 0 else 10 * DigitsValue(ds[..|ds| - 1]) + DigitValue(ds[|ds| - 1])
  }

  /** `int(s)`: surrounding whitespace, an optional sign, then at least one
      decimal digit and nothing else; anything else is a ValueError (None). */
  function ParseInt(s: string): Option<int> {
    var t := Strip(s);
    var unsigned := if t != [] && (t[0] == '+' || t[0] == '-') then t[1..] else t;
    if unsigned == [] || !AllDigits(unsigned) then None
    else
      var magnitude: int := DigitsValue(unsigned);
      Some(if t[0] == '-' then -magnitude else magnitude)
  }

  /** Decimal digits of `n`, without leading zeros. */
  function ShowNat(n: nat): (s: string)
    ensures s != [] && AllDigits(s)
    ensures s[0] != '0' || n == 0
    decreases n
  {
    if n < 10 then [DigitChar(n)] else ShowNat(n / 10) + [DigitChar(n % 10)]
  }

  /** Decimal text of `n` as `str(n)` or a shell's `echo` gives it. */
  function ShowInt(n: int): (s: string)
    ensures s != [] && !IsSpace(s[0]) && !IsSpace(s[|s| - 1])
    ensures NoLineBreak(s)
  {
    if n < 0 then "-" + ShowNat(-n) else ShowNat(n)
  }

  lemma {:induction false} ShowNatValue(n: nat)
    ensures DigitsValue(ShowNat(n)) == n
    decreases n
  {
    if n >= 10 {
      var s := ShowNat(n);
      assert s[..|s| - 1] == ShowNat(n / 10);
      ShowNatValue(n / 10);
    }
  }

  /** `int` reads a run of digits as its value. */
  lemma ParseDigits(ds: string)
    requires ds != [] && AllDigits(ds)
    ensures ParseInt(ds) == Some(DigitsValue(ds))
  {
    assert Strip(ds) == ds by {
      assert IsDigit(ds[0]) && IsDigit(ds[|ds| - 1]);
    }
  }

  /** `int` reads a minus sign followed by a run of digits as the negated value. */
  lemma ParseNegative(ds: string)
    requires ds != [] && AllDigits(ds)
    ensures ParseInt("-" + ds) == Some(-(DigitsValue(ds) as int))
  {
    var s := "-" + ds;
    assert Strip(s) == s by {
      assert IsDigit(s[|s| - 1]);
    }
    assert s[1..] == ds;
  }

  /** `int` reads back what the decimal text of a number says. */
  lemma ParseShowInt(n: int)
    ensures ParseInt(ShowInt(n)) == Some(n)
  {
    if n < 0 {
      ParseShowNegative(-n);
    } else {
      ParseShowNat(n);
    }
  }

  lemma ParseShowNat(n: nat)
    ensures ParseInt(ShowNat(n)) == Some(n)
  {
    ShowNatValue(n);
    ParseDigits(ShowNat(n));
  }

  lemma ParseShowNegative(n: nat)
    ensures ParseInt("-" + ShowNat(n)) == Some(-(n as int))
  {
    ShowNatValue(n);
    ParseNegative(ShowNat(n));
  }

  /** A text without a single digit never parses as an integer. */
  lemma ParseIntNeedsDigit(s: string)
    requires forall k :: 0 <= k < |s| ==> !IsDigit(s[k])
    ensures ParseInt(s) == None
  {
    var l := StripLeft(s);
    var t := Strip(s);
    assert t == StripRight(l);
    StripLeftIsSuffix(s);
    StripRightIsPrefix(l);
    if t != [] {
      var unsigned := if t[0] == '+' || t[0] == '-' then t[1..] else t;
      if unsigned != [] {
        var j := |t| - |unsigned|;
        assert unsigned[0] == t[j] == l[j] == s[|s| - |l| + j];
      }
    }
  }
}

/** The few Python `str` operations the assembler relies on: `strip`, `lower`,
    `startswith`, `split(sep)`, `split(sep, 1)` and `split(None, 1)`, and `int()`
    on ASCII digit strings. */
module PyStr {

  import opened Wrappers

  /** `c.isspace()`: the characters Python's `strip()` and `split()` treat as
      whitespace (including the four ASCII separators 0x1C..0x1F). */
  predicate IsSpace(c: char)
  {
    var n := c as int;
    (0x09 <= n <= 0x0D) || (0x1C <= n <= 0x20) || n == 0x85 || n == 0xA0 || n == 0x1680
    || (0x2000 <= n <= 0x200A) || n == 0x2028 || n == 0x2029 || n == 0x202F || n == 0x205F
    || n == 0x3000
  }

  /** Every character of s is whitespace. */
  predicate AllSpace(s: string)
  {
    forall i :: 0 <= i < |s| ==> IsSpace(s[i])
  }

  /** The number of whitespace characters s starts with. */
  function Lead(s: string): (n: nat)
    ensures n <= |s|
  {
    if |s| > 0 && IsSpace(s[0]) then 1 + Lead(s[1..]) else 0
  }

  /** The number of whitespace characters s ends with. */
  function Trail(s: string): (n: nat)
    ensures n <= |s|
  {
    if |s| > 0 && IsSpace(s[|s| - 1]) then 1 + Trail(s[..|s| - 1]) else 0
  }

  /** `Lead` counts exactly the leading run of whitespace. */
  lemma {:induction false} LeadSpec(s: string)
    ensures forall i :: 0 <= i < Lead(s) ==> IsSpace(s[i])
    ensures Lead(s) < |s| ==> !IsSpace(s[Lead(s)])
  {
    if |s| > 0 && IsSpace(s[0]) {
      var t := s[1..];
      LeadSpec(t);
      forall i | 1 <= i < Lead(s)
        ensures IsSpace(s[i])
      {
        assert s[i] == t[i - 1];
      }
      if Lead(s) < |s| {
        assert s[Lead(s)] == t[Lead(t)];
      }
    }
  }

  /** `Trail` counts exactly the trailing run of whitespace. */
  lemma {:induction false} TrailSpec(s: string)
    ensures forall i :: |s| - Trail(s) <= i < |s| ==> IsSpace(s[i])
    ensures Trail(s) < |s| ==> !IsSpace(s[|s| - Trail(s) - 1])
  {
    if |s| > 0 && IsSpace(s[|s| - 1]) {
      var t := s[..|s| - 1];
      TrailSpec(t);
      forall i | |s| - Trail(s) <= i < |s| - 1
        ensures IsSpace(s[i])
      {
        assert s[i] == t[i];
      }
      if Trail(s) < |s| {
        assert s[|s| - Trail(s) - 1] == t[|t| - Trail(t) - 1];
      }
    }
  }

  /** Unless s is all whitespace, the leading and trailing runs are apart. */
  lemma LeadTrail(s: string)
    requires Lead(s) < |s|
    ensures Lead(s) + Trail(s) < |s|
  {
    LeadSpec(s);
    TrailSpec(s);
  }

  /** `s.lstrip()`. */
  function LStrip(s: string): string
  {
    s[Lead(s)..]
  }

  /** `s.strip()`. */
  function Strip(s: string): (r: string)
    ensures r == [] || (!IsSpace(r[0]) && !IsSpace(r[|r| - 1]))
  {
    if Lead(s) == |s| then []
    else
      LeadTrail(s);
      LeadSpec(s);
      TrailSpec(s);
      s[Lead(s)..|s| - Trail(s)]
  }

  lemma {:induction false} LeadSpaces(w: string, s: string)
    requires AllSpace(w)
    ensures Lead(w + s) == |w| + Lead(s)
  {
    if |w| > 0 {
      assert (w + s)[0] == w[0];
      assert (w + s)[1..] == w[1..] + s;
      LeadSpaces(w[1..], s);
    } else {
      assert w + s == s;
    }
  }

  lemma {:induction false} TrailSpaces(s: string, w: string)
    requires AllSpace(w)
    ensures Trail(s + w) == |w| + Trail(s)
  {
    if |w| > 0 {
      var w' := w[..|w| - 1];
      assert (s + w)[|s + w| - 1] == w[|w| - 1];
      assert (s + w)[..|s + w| - 1] == s + w';
      TrailSpaces(s, w');
    } else {
      assert s + w == s;
    }
  }

  /** Text after a non-blank s does not change its leading whitespace. */
  lemma {:induction false} LeadAppend(s: string, w: string)
    requires Lead(s) < |s|
    ensures Lead(s + w) == Lead(s)
  {
    assert (s + w)[0] == s[0];
    if IsSpace(s[0]) {
      assert (s + w)[1..] == s[1..] + w;
      LeadAppend(s[1..], w);
    }
  }

  /** Text before a non-blank s does not change its trailing whitespace. */
  lemma {:induction false} TrailPrepend(w: string, s: string)
    requires Trail(s) < |s|
    ensures Trail(w + s) == Trail(s)
  {
    assert (w + s)[|w + s| - 1] == s[|s| - 1];
    if IsSpace(s[|s| - 1]) {
      assert (w + s)[..|w + s| - 1] == w + s[..|s| - 1];
      TrailPrepend(w, s[..|s| - 1]);
    }
  }

  lemma AllSpaceLead(s: string)
    requires AllSpace(s)
    ensures Lead(s) == |s|
  {
    LeadSpaces(s, []);
    assert s + [] == s;
  }

  /** Whitespace around a string does not change what `strip()` gives. */
  lemma StripPadded(w1: string, s: string, w2: string)
    requires AllSpace(w1) && AllSpace(w2)
    ensures Strip(w1 + s + w2) == Strip(s)
  {
    StripRight(s, w2);
    StripLeft(w1, s + w2);
    assert w1 + s + w2 == w1 + (s + w2);
  }

  lemma {:induction false} StripLeft(w: string, s: string)
    requires AllSpace(w)
    ensures Strip(w + s) == Strip(s)
  {
    if w == [] {
      assert w + s == s;
    } else {
      var u := w[1..] + s;
      assert w + s == [w[0]] + u;
      StripLeft(w[1..], s);
      StripCons(w[0], u);
    }
  }

  lemma {:induction false} StripRight(s: string, w: string)
    requires AllSpace(w)
    ensures Strip(s + w) == Strip(s)
  {
    if w == [] {
      assert s + w == s;
    } else {
      var u := s + w[..|w| - 1];
      assert s + w == u + [w[|w| - 1]];
      StripRight(s, w[..|w| - 1]);
      StripSnoc(u, w[|w| - 1]);
    }
  }

  /** One leading space does not change what `strip()` gives. */
  lemma StripCons(c: char, s: string)
    requires IsSpace(c)
    ensures Strip([c] + s) == Strip(s)
  {
    var t := [c] + s;
    assert t[0] == c && t[1..] == s;
    assert Lead(t) == 1 + Lead(s);
    if Lead(s) < |s| {
      LeadTrail(s);
      TrailPrepend([c], s);
      var i, j := Lead(s), |s| - Trail(s);
      assert t[1 + i..1 + j] == s[i..j];
      StripBounds(s, i, j);
      StripBounds(t, 1 + i, 1 + j);
    }
  }

  /** One trailing space does not change what `strip()` gives. */
  lemma StripSnoc(s: string, c: char)
    requires IsSpace(c)
    ensures Strip(s + [c]) == Strip(s)
  {
    var t := s + [c];
    assert t[|t| - 1] == c && t[..|t| - 1] == s;
    assert Trail(t) == 1 + Trail(s);
    if Lead(s) < |s| {
      LeadTrail(s);
      LeadAppend(s, [c]);
      var i, j := Lead(s), |s| - Trail(s);
      assert t[i..j] == s[i..j];
      StripBounds(s, i, j);
      StripBounds(t, i, j);
    } else {
      LeadSpec(s);
      assert AllSpace(t);
      AllSpaceLead(t);
    }
  }

  /** A string with some non-space text strips to what lies between its
      leading and its trailing whitespace. */
  lemma StripBounds(s: string, i: nat, j: nat)
    requires i == Lead(s) && j == |s| - Trail(s) && i < j
    ensures Strip(s) == s[i..j]
  {
  }

  /** `strip()` is idempotent. */
  lemma StripIdempotent(s: string)
    ensures Strip(Strip(s)) == Strip(s)
  {
    var r := Strip(s);
    if r != [] {
      assert Lead(r) == 0;
      assert Trail(r) == 0;
    }
  }

  function LowerChar(c: char): char
  {
    if 'A' <= c <= 'Z' then (c as int + 32) as char else c
  }

  /** `s.lower()` on ASCII letters; every other character is kept. */
  function Lower(s: string): (r: string)
    ensures |r| == |s|
  {
    if s == [] then [] else [LowerChar(s[0])] + Lower(s[1..])
  }

  lemma {:induction false} LowerConcat(a: string, b: string)
    ensures Lower(a + b) == Lower(a) + Lower(b)
  {
    if a == [] {
      assert a + b == b;
    } else {
      assert (a + b)[0] == a[0];
      assert (a + b)[1..] == a[1..] + b;
      LowerConcat(a[1..], b);
    }
  }

  /** Lower-casing keeps whitespace and non-whitespace apart. */
  lemma LowerSpace(c: char)
    ensures IsSpace(LowerChar(c)) == IsSpace(c)
  {}

  lemma {:induction false} LowerLead(s: string)
    ensures Lead(Lower(s)) == Lead(s)
  {
    if |s| > 0 {
      LowerSpace(s[0]);
      LowerLead(s[1..]);
    }
  }

  lemma {:induction false} LowerTrail(s: string)
    ensures Trail(Lower(s)) == Trail(s)
  {
    if |s| > 0 {
      var t := s[..|s| - 1];
      assert s == t + [s[|s| - 1]];
      LowerConcat(t, [s[|s| - 1]]);
      LowerSpace(s[|s| - 1]);
      assert Lower(s)[..|s| - 1] == Lower(t);
      LowerTrail(t);
    }
  }

  lemma LowerSlices(s: string, k: nat)
    requires k <= |s|
    ensures Lower(s[..k]) == Lower(s)[..k] && Lower(s[k..]) == Lower(s)[k..]
  {
    assert s == s[..k] + s[k..];
    LowerConcat(s[..k], s[k..]);
  }

  /** Lower-casing commutes with stripping, since it maps no character to or
      from whitespace. */
  lemma LowerStrip(s: string)
    ensures Lower(Strip(s)) == Strip(Lower(s))
  {
    LowerLead(s);
    LowerTrail(s);
    if Lead(s) < |s| {
      LeadTrail(s);
      var i, j := Lead(s), |s| - Trail(s);
      LowerSlices(s, j);
      LowerSlices(s[..j], i);
      assert s[..j][i..] == s[i..j];
      assert Lower(s)[..j][i..] == Lower(s)[i..j];
    }
  }

  /** `lower()` is idempotent. */
  /** Text without upper-case letters is its own lower-case form. */
  lemma {:induction false} LowerNoUpper(s: string)
    requires forall i :: 0 <= i < |s| ==> !('A' <= s[i] <= 'Z')
    ensures Lower(s) == s
  {
    if s != [] {
      LowerNoUpper(s[1..]);
    }
  }

  lemma {:induction false} LowerIdempotent(s: string)
    ensures Lower(Lower(s)) == Lower(s)
  {
    if s != [] {
      LowerIdempotent(s[1..]);
    }
  }

  predicate StartsWith(s: string, p: string)
  {
    |p| <= |s| && s[..|p|] == p
  }

  /** Index of the first c in s, or -1 (`s.find(c)`). */
  function Find(s: string, c: char): (r: int)
    ensures -1 <= r < |s|
  {
    if s == [] then -1
    else if s[0] == c then 0
    else
      var k := Find(s[1..], c);
      if k == -1 then -1 else k + 1
  }

  /** `c in s`. */
  predicate Contains(s: string, c: char)
  {
    Find(s, c) >= 0
  }

  /** `Find` gives the first occurrence: c is there, and nowhere before it. */
  lemma {:induction false} FindSpec(s: string, c: char)
    ensures Find(s, c) >= 0 ==> s[Find(s, c)] == c
    ensures forall i :: 0 <= i < |s| && (Find(s, c) == -1 || i < Find(s, c)) ==> s[i] != c
  {
    if s != [] && s[0] != c {
      var t := s[1..];
      FindSpec(t, c);
      forall i | 0 < i < |s| && (Find(s, c) == -1 || i < Find(s, c))
        ensures s[i] != c
      {
        assert s[i] == t[i - 1];
      }
    }
  }

  /** `s.split(c)[0]`: the text before the first c. */
  function Before(s: string, c: char): string
  {
    var k := Find(s, c);
    if k == -1 then s else s[..k]
  }

  /** A text is what comes before position k, the character there, and what
      comes after it. */
  lemma Around(s: string, k: nat)
    requires k < |s|
    ensures s == s[..k] + [s[k]] + s[k + 1..]
  {
    assert s[..k] + [s[k]] + s[k + 1..] == s[..k] + s[k..];
    assert s[..k] + s[k..] == s;
  }

  /** `s.split(c, 1)[1]`, for an s that contains c: the text after the first c. */
  function After(s: string, c: char): (r: string)
    requires Contains(s, c)
    ensures s == Before(s, c) + [c] + r
  {
    var k := Find(s, c);
    FindSpec(s, c);
    Around(s, k);
    s[k + 1..]
  }

  /** A text without c has no first c. */
  lemma FindNone(s: string, c: char)
    requires forall i :: 0 <= i < |s| ==> s[i] != c
    ensures Find(s, c) == -1
  {
    FindSpec(s, c);
  }

  /** A c with none before it is the first c. */
  lemma FindFirst(s: string, c: char, k: nat)
    requires k < |s| && s[k] == c
    requires forall i :: 0 <= i < k ==> s[i] != c
    ensures Find(s, c) == k
  {
    FindSpec(s, c);
  }

  /** Nothing before the first c is a c. */
  lemma BeforeFree(s: string, c: char)
    ensures !Contains(Before(s, c), c)
  {
    var b := Before(s, c);
    FindSpec(s, c);
    forall i | 0 <= i < |b|
      ensures b[i] != c
    {
      assert b[i] == s[i];
    }
    FindNone(b, c);
  }

  /** `s.split(c)`: all pieces between occurrences of c, empty ones included. */
  function Split(s: string, c: char): (r: seq<string>)
    ensures |r| >= 1
    ensures r[0] == Before(s, c)
    decreases |s|
  {
    var k := Find(s, c);
    if k == -1 then [s] else [s[..k]] + Split(s[k + 1..], c)
  }

  /** The first c of `a + [c] + rest`, when a has none, is the one after a. */
  lemma FindAfterFree(a: string, c: char, rest: string)
    requires !Contains(a, c)
    ensures Find(a + [c] + rest, c) == |a|
  {
    var s := a + [c] + rest;
    FindSpec(a, c);
    forall i | 0 <= i < |a|
      ensures s[i] != c
    {
      assert s[i] == a[i];
    }
    assert s[|a|] == c;
    FindFirst(s, c, |a|);
  }

  /** Splitting at a first piece free of the separator. */
  lemma SplitCons(a: string, c: char, rest: string)
    requires !Contains(a, c)
    ensures Split(a + [c] + rest, c) == [a] + Split(rest, c)
  {
    var s := a + [c] + rest;
    FindAfterFree(a, c, rest);
    assert s[..|a|] == a && s[|a| + 1..] == rest;
  }

  /** A text without c is one piece. */
  lemma SplitNone(s: string, c: char)
    requires forall i :: 0 <= i < |s| ==> s[i] != c
    ensures Split(s, c) == [s]
  {
    FindSpec(s, c);
  }

  /** The pieces joined back with c. */
  function Join(parts: seq<string>, c: char): string
    requires |parts| >= 1
  {
    if |parts| == 1 then parts[0] else parts[0] + [c] + Join(parts[1..], c)
  }

  /** Number of occurrences of c in s. */
  function Count(s: string, c: char): nat
  {
    if s == [] then 0 else (if s[0] == c then 1 else 0) + Count(s[1..], c)
  }

  lemma {:induction false} CountConcat(a: string, b: string, c: char)
    ensures Count(a + b, c) == Count(a, c) + Count(b, c)
  {
    if a == [] {
      assert a + b == b;
    } else {
      assert (a + b)[0] == a[0];
      assert (a + b)[1..] == a[1..] + b;
      CountConcat(a[1..], b, c);
    }
  }

  lemma {:induction false} CountNone(s: string, c: char)
    requires forall i :: 0 <= i < |s| ==> s[i] != c
    ensures Count(s, c) == 0
  {
    if s != [] {
      var t := s[1..];
      assert forall i :: 0 <= i < |t| ==> t[i] == s[i + 1];
      CountNone(t, c);
    }
  }

  /** `c.join(s.split(c)) == s`, and there is one more piece than there are
      separators. */
  lemma {:induction false} SplitJoin(s: string, c: char)
    ensures Join(Split(s, c), c) == s
    ensures |Split(s, c)| == Count(s, c) + 1
    decreases |s|
  {
    var k := Find(s, c);
    FindSpec(s, c);
    if k == -1 {
      CountNone(s, c);
    } else {
      var rest := s[k + 1..];
      SplitJoin(rest, c);
      SplitStep(s, c, k, rest);
    }
  }

  /** One separator: the pieces of s are the text before it followed by the
      pieces of what comes after. */
  lemma SplitStep(s: string, c: char, k: int, rest: string)
    requires k == Find(s, c) && k >= 0 && rest == s[k + 1..]
    requires Join(Split(rest, c), c) == rest
    requires |Split(rest, c)| == Count(rest, c) + 1
    ensures Join(Split(s, c), c) == s
    ensures |Split(s, c)| == Count(s, c) + 1
  {
    FindSpec(s, c);
    var pre := s[..k];
    SplitUnfold(s, c, k, pre, rest);
    Around(s, k);
    CountNone(pre, c);
    CountSeparator(s, c, pre, rest);
  }

  lemma SplitUnfold(s: string, c: char, k: int, pre: string, rest: string)
    requires k == Find(s, c) && k >= 0 && pre == s[..k] && rest == s[k + 1..]
    ensures Split(s, c) == [pre] + Split(rest, c)
    ensures Join(Split(s, c), c) == pre + [c] + Join(Split(rest, c), c)
  {
    var parts := Split(s, c);
    var tail := Split(rest, c);
    assert parts == [pre] + tail;
    assert parts[0] == pre;
    assert parts[1..] == tail;
  }

  lemma CountSeparator(s: string, c: char, pre: string, rest: string)
    requires s == pre + [c] + rest
    ensures Count(s, c) == Count(pre, c) + 1 + Count(rest, c)
  {
    var t := pre + [c];
    CountConcat(t, rest, c);
    CountConcat(pre, [c], c);
    assert [c][1..] == [];
  }

  /** The first whitespace-delimited word of s (`s.split(None, 1)[0]` when s
      does not start with whitespace). */
  function Word(s: string): (r: string)
    ensures |r| <= |s| && r == s[..|r|]
    ensures |r| < |s| ==> IsSpace(s[|r|])
  {
    if s == [] || IsSpace(s[0]) then [] else [s[0]] + Word(s[1..])
  }

  /** `s.split(None, 1)` for a stripped, non-empty s: the first word and what
      follows it with the separating whitespace removed ("" if nothing does). */
  function SplitWord(s: string): (r: (string, string))
  {
    var w := Word(s);
    (w, LStrip(s[|w|..]))
  }

  /** A stripped line is its first word, some whitespace, and the rest; the word
      is not empty, and there is whitespace before a non-empty rest. */
  lemma SplitWordParts(s: string)
    requires s != [] && !IsSpace(s[0])
    ensures var (w, rest) := SplitWord(s);
      w != [] && (rest == [] || !IsSpace(rest[0]))
      && exists ws :: AllSpace(ws) && s == w + ws + rest && (rest == [] || ws != [])
  {
    var w := Word(s);
    var after := s[|w|..];
    LeadSpec(after);
    var rest := LStrip(after);
    var ws := after[..Lead(after)];
    assert AllSpace(ws);
    assert rest == [] || !IsSpace(rest[0]) by {
      if rest != [] {
        assert rest[0] == after[Lead(after)];
      }
    }
    assert s == w + after;
    assert s == w + ws + rest;
    if rest != [] {
      assert after[0] == s[|w|];
      assert Lead(after) >= 1;
    }
  }

  // ---------------------------------------------------------------------
  // int() on ASCII digits
  // ---------------------------------------------------------------------

  /** The value of c as a digit in base 10 or 16, or -1 if it is not one. */
  function DigitValue(c: char, base: nat): (r: int)
    ensures -1 <= r < base || r == -1
  {
    var v :=
      if '0' <= c <= '9' then c as int - '0' as int
      else if 'a' <= c <= 'f' then c as int - 'a' as int + 10
      else if 'A' <= c <= 'F' then c as int - 'A' as int + 10
      else -1;
    if v < base then v else -1
  }

  /** Digits of the base with single underscores between them, as `int()`
      accepts them after the sign and the prefix. */
  predicate WellFormedDigits(s: string, base: nat)
  {
    |s| > 0 && DigitValue(s[0], base) >= 0 && DigitValue(s[|s| - 1], base) >= 0
    && forall i :: 0 <= i < |s| - 1 ==>
         DigitValue(s[i], base) >= 0 || (s[i] == '_' && s[i + 1] != '_')
  }

  /** The value of a digit string, most significant digit first; characters
      that are not digits (the underscores of a well-formed string) are skipped. */
  function DigitsValue(s: string, base: nat): nat
  {
    if s == [] then 0
    else
      var d := DigitValue(s[|s| - 1], base);
      var rest := DigitsValue(s[..|s| - 1], base);
      if d < 0 then rest else rest * base + d
  }

  /** `int(s, base)` for base 10 (optional sign) and base 16 (optional sign,
      optional `0x`/`0X` prefix and one underscore after it), or `None` where
      Python raises. */
  function ParseInt(s: string, base: nat): (r: Option<int>)
    requires base == 10 || base == 16
  {
    var neg := |s| > 0 && s[0] == '-';
    var body := if |s| > 0 && (s[0] == '-' || s[0] == '+') then s[1..] else s;
    var digits :=
      if base == 16 && (StartsWith(body, "0x") || StartsWith(body, "0X")) then
        (if StartsWith(body[2..], "_") then body[3..] else body[2..])
      else body;
    if WellFormedDigits(digits, base) then
      var v: int := DigitsValue(digits, base);
      Some(if neg then -v else v)
    else None
  }

  function DigitChar(d: nat): (c: char)
    requires d < 16
  {
    if d < 10 then ('0' as int + d) as char else ('a' as int + d - 10) as char
  }

  /** The shortest digit string of n in base 10 or 16 (no underscores). */
  function ToDigits(n: nat, base: nat): (r: string)
    requires base == 10 || base == 16
    ensures |r| > 0
    decreases n
  {
    var d := DigitChar(n % base);
    if n < base then [d] else ToDigits(n / base, base) + [d]
  }

  lemma DigitCharValue(d: nat, base: nat)
    requires base == 10 || base == 16
    requires d < base
    ensures DigitValue(DigitChar(d), base) == d
  {}

  /** The digits of n are all digits, and reading them back gives n. */
  lemma {:induction false} ToDigitsValue(n: nat, base: nat)
    requires base == 10 || base == 16
    ensures DigitsValue(ToDigits(n, base), base) == n
    ensures forall i :: 0 <= i < |ToDigits(n, base)| ==> DigitValue(ToDigits(n, base)[i], base) >= 0
    decreases n
  {
    var r := ToDigits(n, base);
    DigitCharValue(n % base, base);
    if n >= base {
      var q := ToDigits(n / base, base);
      ToDigitsValue(n / base, base);
      assert r == q + [DigitChar(n % base)];
      assert r[..|r| - 1] == q;
      assert n == (n / base) * base + n % base;
    }
  }

  /** Python's `str(n)`. */
  function Decimal(n: int): string
  {
    if n < 0 then "-" + ToDigits(-n, 10) else ToDigits(n, 10)
  }

  /** Python's `hex(n)` for n >= 0. */
  function Hex(n: nat): string
  {
    "0x" + ToDigits(n, 16)
  }

  /** `int(str(n)) == n` for every integer. */
  lemma ParseDecimal(n: int)
    ensures ParseInt(Decimal(n), 10) == Some(n)
  {
    var m: nat := if n < 0 then -n else n;
    var d := ToDigits(m, 10);
    ToDigitsValue(m, 10);
    if n < 0 {
      assert Decimal(n)[1..] == d;
    }
    assert DigitValue(d[0], 10) >= 0;
  }

  /** `int(hex(n), 16) == n` for every natural number. */
  lemma ParseHex(n: nat)
    ensures ParseInt(Hex(n), 16) == Some(n)
  {
    var d := ToDigits(n, 16);
    ToDigitsValue(n, 16);
    var s := Hex(n);
    assert s[2..] == d;
    assert DigitValue(d[0], 16) >= 0;
  }
}

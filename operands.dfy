/** Operand parsing of the assembler: the register table, `parse_reg`,
    `parse_imm` and `parse_memory_operand`. */
module Operands {
  import opened Wrappers
  import opened PyStr

  /** The exceptions the assembler raises, one per kind of failure. */
  datatype AsmError =
    | UnknownRegister(name: string)       // parse_reg's ValueError
    | InvalidLiteral(text: string)        // the ValueError of int()
    | InvalidMemoryOperand(text: string)  // parse_memory_operand's ValueError
    | WrongOperandCount                   // tuple unpacking of the wrong length
    | MissingOperand                      // IndexError on the operand list
    | UnknownInstruction(mnemonic: string)
    | ShiftAmountOutOfRange(amount: int)  // see ShiftWord in module Assembler

  /** A value, or the exception raised instead; `:-` propagates the
      exception as Python does. */
  datatype Result<T> = Ok(value: T) | Err(error: AsmError)
  {
    predicate IsFailure()
    {
      Err?
    }

    function PropagateFailure<U>(): Result<U>
      requires Err?
    {
      Err(error)
    }

    function Extract(): T
      requires Ok?
    {
      value
    }
  }

  /** The `REGS` dictionary, looked up by the name's length and characters:
      `$zero`, the one-character names `$0`..`$9`, and the two-character
      names (symbolic such as `$t0`, numeric such as `$10`). */
  function Regs(name: string): (r: Option<int>)
    ensures r.Some? ==> 0 <= r.value < 32
  {
    if |name| == 5 then (if name == "$zero" then Some(0) else None)
    else if |name| == 2 && name[0] == '$' then RegsOne(name[1])
    else if |name| == 3 && name[0] == '$' then RegsTwo(name[1], name[2])
    else None
  }

  /** The entries `$c` of `REGS`. */
  function RegsOne(c: char): (r: Option<int>)
    ensures r.Some? ==> 0 <= r.value < 10
  {
    match c
    case '0' => Some(0)
    case '1' => Some(1)
    case '2' => Some(2)
    case '3' => Some(3)
    case '4' => Some(4)
    case '5' => Some(5)
    case '6' => Some(6)
    case '7' => Some(7)
    case '8' => Some(8)
    case '9' => Some(9)
    case _ => None
  }

  /** The entries `$ab` of `REGS`. */
  function RegsTwo(a: char, b: char): (r: Option<int>)
    ensures r.Some? ==> 0 <= r.value < 32
  {
    match (a, b)
    case ('a', 't') => Some(1)
    case ('v', '0') => Some(2)
    case ('v', '1') => Some(3)
    case ('a', '0') => Some(4)
    case ('a', '1') => Some(5)
    case ('a', '2') => Some(6)
    case ('a', '3') => Some(7)
    case ('t', '0') => Some(8)
    case ('t', '1') => Some(9)
    case ('t', '2') => Some(10)
    case ('t', '3') => Some(11)
    case ('t', '4') => Some(12)
    case ('t', '5') => Some(13)
    case ('t', '6') => Some(14)
    case ('t', '7') => Some(15)
    case ('1', '0') => Some(10)
    case ('1', '1') => Some(11)
    case ('1', '2') => Some(12)
    case ('1', '3') => Some(13)
    case ('1', '4') => Some(14)
    case ('1', '5') => Some(15)
    case ('s', '0') => Some(16)
    case ('s', '1') => Some(17)
    case ('s', '2') => Some(18)
    case ('s', '3') => Some(19)
    case ('s', '4') => Some(20)
    case ('s', '5') => Some(21)
    case ('s', '6') => Some(22)
    case ('s', '7') => Some(23)
    case ('1', '6') => Some(16)
    case ('1', '7') => Some(17)
    case ('1', '8') => Some(18)
    case ('1', '9') => Some(19)
    case ('2', '0') => Some(20)
    case ('2', '1') => Some(21)
    case ('2', '2') => Some(22)
    case ('2', '3') => Some(23)
    case ('t', '8') => Some(24)
    case ('t', '9') => Some(25)
    case ('2', '4') => Some(24)
    case ('2', '5') => Some(25)
    case ('k', '0') => Some(26)
    case ('k', '1') => Some(27)
    case ('2', '6') => Some(26)
    case ('2', '7') => Some(27)
    case ('g', 'p') => Some(28)
    case ('2', '8') => Some(28)
    case ('s', 'p') => Some(29)
    case ('2', '9') => Some(29)
    case ('f', 'p') => Some(30)
    case ('3', '0') => Some(30)
    case ('r', 'a') => Some(31)
    case ('3', '1') => Some(31)
    case _ => None
  }

  /** Registers 0..7: the symbolic and the numeric name give the same number. */
  lemma RegisterAliasesLow()
    ensures Regs("$zero") == Regs("$0") == Some(0)
    ensures Regs("$at") == Regs("$1") == Some(1)
    ensures Regs("$v0") == Regs("$2") == Some(2)
    ensures Regs("$v1") == Regs("$3") == Some(3)
    ensures Regs("$a0") == Regs("$4") == Some(4)
    ensures Regs("$a1") == Regs("$5") == Some(5)
    ensures Regs("$a2") == Regs("$6") == Some(6)
    ensures Regs("$a3") == Regs("$7") == Some(7)
  {}

  /** Registers 8..15: the symbolic and the numeric name give the same number. */
  lemma RegisterAliasesTemps()
    ensures Regs("$t0") == Regs("$8") == Some(8)
    ensures Regs("$t1") == Regs("$9") == Some(9)
    ensures Regs("$t2") == Regs("$10") == Some(10)
    ensures Regs("$t3") == Regs("$11") == Some(11)
    ensures Regs("$t4") == Regs("$12") == Some(12)
    ensures Regs("$t5") == Regs("$13") == Some(13)
    ensures Regs("$t6") == Regs("$14") == Some(14)
    ensures Regs("$t7") == Regs("$15") == Some(15)
  {}

  /** Registers 16..23: the symbolic and the numeric name give the same number. */
  lemma RegisterAliasesSaved()
    ensures Regs("$s0") == Regs("$16") == Some(16)
    ensures Regs("$s1") == Regs("$17") == Some(17)
    ensures Regs("$s2") == Regs("$18") == Some(18)
    ensures Regs("$s3") == Regs("$19") == Some(19)
    ensures Regs("$s4") == Regs("$20") == Some(20)
    ensures Regs("$s5") == Regs("$21") == Some(21)
    ensures Regs("$s6") == Regs("$22") == Some(22)
    ensures Regs("$s7") == Regs("$23") == Some(23)
  {}

  /** Registers 24..31: the symbolic and the numeric name give the same number. */
  lemma RegisterAliasesHigh()
    ensures Regs("$t8") == Regs("$24") == Some(24)
    ensures Regs("$t9") == Regs("$25") == Some(25)
    ensures Regs("$k0") == Regs("$26") == Some(26)
    ensures Regs("$k1") == Regs("$27") == Some(27)
    ensures Regs("$gp") == Regs("$28") == Some(28)
    ensures Regs("$sp") == Regs("$29") == Some(29)
    ensures Regs("$fp") == Regs("$30") == Some(30)
    ensures Regs("$ra") == Regs("$31") == Some(31)
  {}

  /** `parse_reg`: strip, lower-case, look the name up. */
  function ParseReg(r: string): (res: Result<int>)
    ensures res.Ok? ==> 0 <= res.value < 32
    ensures res.Err? ==> res.error.UnknownRegister?
  {
    var name := Lower(Strip(r));
    match Regs(name)
    case Some(n) => Ok(n)
    case None => Err(UnknownRegister(name))
  }

  /** Whitespace around a register name is ignored. */
  lemma ParseRegPadded(w1: string, r: string, w2: string)
    requires AllSpace(w1) && AllSpace(w2)
    ensures ParseReg(w1 + r + w2) == ParseReg(r)
  {
    StripPadded(w1, r, w2);
  }

  /** Register names are case-insensitive: two spellings that lower-case to
      the same text parse the same way, error included. */
  lemma ParseRegCaseInsensitive(a: string, b: string)
    requires Lower(a) == Lower(b)
    ensures ParseReg(a) == ParseReg(b)
  {
    LowerStrip(a);
    LowerStrip(b);
  }

  /** `parse_imm`: `0x`/`0X` text is read in base 16, anything else by `int()`
      in base 10 (which takes the optional sign). */
  function ParseImm(imm: string): (r: Result<int>)
    ensures r.Err? ==> r.error.InvalidLiteral?
  {
    var s := Strip(imm);
    var v := if StartsWith(s, "0x") || StartsWith(s, "0X") then ParseInt(s, 16) else ParseInt(s, 10);
    match v
    case Some(n) => Ok(n)
    case None => Err(InvalidLiteral(s))
  }

  lemma StripPlain(s: string)
    requires s != [] && !IsSpace(s[0]) && !IsSpace(s[|s| - 1])
    ensures Strip(s) == s
  {
    assert Lead(s) == 0;
    assert Trail(s) == 0;
    assert s[0..|s|] == s;
  }

  /** `str(n)` has no surrounding whitespace and no hex prefix. */
  lemma DecimalPlain(n: int)
    ensures Strip(Decimal(n)) == Decimal(n)
    ensures !StartsWith(Decimal(n), "0x") && !StartsWith(Decimal(n), "0X")
  {
    var m: nat := if n < 0 then -n else n;
    DecimalShape(n);
    SignedDigitsPlain(if n < 0 then "-" else "", ToDigits(m, 10));
  }

  lemma SignedDigitsPlain(sign: string, d: string)
    requires sign == "" || sign == "-"
    requires d != [] && AllIn(d, Digits)
    ensures Strip(sign + d) == sign + d
    ensures !StartsWith(sign + d, "0x") && !StartsWith(sign + d, "0X")
  {
    var s := sign + d;
    assert s[|s| - 1] == d[|d| - 1];
    assert s[0] == '-' || s[0] == d[0];
    StripPlain(s);
    if |s| >= 2 && s[0] == '0' {
      assert sign == "" && s == d;
      assert InClass(d[1], Digits);
      assert s[..2][1] == s[1];
    }
  }

  /** Every integer written in decimal (`str(n)`) reads back as itself. */
  lemma ParseImmDecimal(n: int)
    ensures ParseImm(Decimal(n)) == Ok(n)
  {
    DecimalPlain(n);
    ParseDecimal(n);
  }

  /** Every natural number written in hex (`hex(n)`) reads back as itself. */
  lemma ParseImmHex(n: nat)
    ensures ParseImm(Hex(n)) == Ok(n)
  {
    var d := ToDigits(n, 16);
    ToDigitsValue(n, 16);
    var s := Hex(n);
    assert DigitValue(d[|d| - 1], 16) >= 0;
    assert s[|s| - 1] == d[|d| - 1];
    StripPlain(s);
    assert StartsWith(s, "0x");
    ParseHex(n);
  }

  /** Whitespace around an immediate is ignored. */
  lemma ParseImmPadded(w1: string, imm: string, w2: string)
    requires AllSpace(w1) && AllSpace(w2)
    ensures ParseImm(w1 + imm + w2) == ParseImm(imm)
  {
    StripPadded(w1, imm, w2);
  }

  // ---------------------------------------------------------------------
  // parse_memory_operand
  // ---------------------------------------------------------------------

  /** The character classes the memory-operand pattern uses: `\d`, the hex
      digits `[0-9a-fA-F]` and `\w`, all on ASCII. */
  datatype CharClass = Digits | HexDigits | WordChars

  predicate InClass(c: char, k: CharClass)
  {
    match k
    case Digits => '0' <= c <= '9'
    case HexDigits => '0' <= c <= '9' || 'a' <= c <= 'f' || 'A' <= c <= 'F'
    case WordChars => '0' <= c <= '9' || 'a' <= c <= 'z' || 'A' <= c <= 'Z' || c == '_'
  }

  predicate AllIn(s: string, k: CharClass)
  {
    forall i :: 0 <= i < |s| ==> InClass(s[i], k)
  }

  /** Length of the longest prefix of s in class k (what a greedy `k+` or `k*`
      consumes). */
  function Span(s: string, k: CharClass): (n: nat)
    ensures n <= |s|
  {
    if |s| > 0 && InClass(s[0], k) then 1 + Span(s[1..], k) else 0
  }

  /** A run of class-k characters followed by text that does not continue it
      is consumed exactly. */
  lemma {:induction false} SpanConcat(a: string, b: string, k: CharClass)
    requires AllIn(a, k) && (b == [] || !InClass(b[0], k))
    ensures Span(a + b, k) == |a|
  {
    if a == [] {
      assert a + b == b;
    } else {
      assert (a + b)[0] == a[0];
      assert (a + b)[1..] == a[1..] + b;
      SpanConcat(a[1..], b, k);
    }
  }

  /** The tail `\s*\(\s*(\$\w+)\s*\)` of the pattern, matched at the start
      of t; the result is group 2. Each repetition in it is followed by a
      character it cannot consume, so the greedy run is the only one that can
      lead to a match. */
  function MatchRegisterGroup(t: string): (r: Option<string>)
    ensures r.Some? ==> |r.value| >= 2 && r.value[0] == '$' && AllIn(r.value[1..], WordChars)
  {
    var i := Lead(t);
    if i < |t| && t[i] == '(' then
      var u := t[i + 1..];
      var j := Lead(u);
      if j < |u| && u[j] == '$' then
        var v := u[j + 1..];
        var w := Span(v, WordChars);
        if w > 0 then
          var x := v[w..];
          var k := Lead(x);
          if k < |x| && x[k] == ')' then
            SpanPrefix(v, WordChars);
            assert u[j..j + 1 + w][1..] == v[..w];
            Some(u[j..j + 1 + w])
          else None
        else None
      else None
    else None
  }

  lemma {:induction false} SpanPrefix(s: string, k: CharClass)
    ensures AllIn(s[..Span(s, k)], k)
  {
    if |s| > 0 && InClass(s[0], k) {
      SpanPrefix(s[1..], k);
      assert forall i :: 1 <= i < Span(s, k) ==> s[..Span(s, k)][i] == s[1..][..Span(s[1..], k)][i - 1];
    }
  }

  /** The length group 1's first alternative `-?\\d+` takes at the start of s
      (0 when it does not apply). */
  function SignedDigitsLen(s: string): nat
  {
    if |s| > 0 && s[0] == '-' then (if |s| > 1 && InClass(s[1], Digits) then 1 + Span(s[1..], Digits) else 0)
    else Span(s, Digits)
  }

  /** The length group 1's second alternative `0x[0-9a-fA-F]+` takes at the
      start of s (0 when it does not apply). */
  function HexLen(s: string): nat
  {
    if StartsWith(s, "0x") && Span(s[2..], HexDigits) > 0 then 2 + Span(s[2..], HexDigits) else 0
  }

  /** `re.match(r'(-?\\d+|0x[0-9a-fA-F]+)?\\s*\\(\\s*(\\$\\w+)\\s*\\)', s)`: the
      groups (group 1 as "" when it did not take part), or `None`. The
      alternatives of group 1 are tried in order and then the empty choice;
      the first that lets the tail match wins. Within an alternative only the
      longest run of digits can be followed by the tail. */
  function MatchMemory(s: string): Option<(string, string)>
  {
    var n1 := SignedDigitsLen(s);
    var n2 := HexLen(s);
    if 0 < n1 <= |s| && MatchRegisterGroup(s[n1..]).Some? then Some((s[..n1], MatchRegisterGroup(s[n1..]).value))
    else if 0 < n2 <= |s| && MatchRegisterGroup(s[n2..]).Some? then Some((s[..n2], MatchRegisterGroup(s[n2..]).value))
    else if MatchRegisterGroup(s).Some? then Some(("", MatchRegisterGroup(s).value))
    else None
  }

  /** `parse_memory_operand`: the (offset, register) pair of `offset($reg)`,
      with offset 0 when there is none. */
  function ParseMemoryOperand(operand: string): (r: Result<(int, int)>)
    ensures r.Ok? ==> 0 <= r.value.1 < 32
    ensures r.Err? ==> r.error.InvalidMemoryOperand? || r.error.InvalidLiteral? || r.error.UnknownRegister?
  {
    var s := Strip(operand);
    match MatchMemory(s)
    case None => Err(InvalidMemoryOperand(s))
    case Some((g1, g2)) =>
      var off := if g1 != "" then ParseImm(g1) else Ok(0);
      if off.Err? then Err(off.error)
      else
        var reg := ParseReg(g2);
        if reg.Err? then Err(reg.error) else Ok((off.value, reg.value))
  }

  /** The operand `memory(reg)` result of a register parse with a given offset. */
  function AtOffset(offset: int, reg: Result<int>): Result<(int, int)>
  {
    if reg.Ok? then Ok((offset, reg.value)) else Err(reg.error)
  }

  /** The text group 2 of the pattern can take: `$` and at least one word
      character. */
  predicate RegisterToken(reg: string)
  {
    |reg| >= 2 && reg[0] == '$' && AllIn(reg[1..], WordChars)
  }

  lemma ConcatAssoc(a: string, b: string, c: string, d: string)
    ensures a + b + c + d == a + (b + c + d)
  {}

  /** `(reg)` alone matches the tail of the pattern. */
  lemma RegisterGroupOf(reg: string)
    requires RegisterToken(reg)
    ensures MatchRegisterGroup("(" + reg + ")") == Some(reg)
  {
    var t := "(" + reg + ")";
    assert Lead(t) == 0;
    var u := t[1..];
    assert u == reg + ")";
    assert Lead(u) == 0;
    var v := u[1..];
    assert v == reg[1..] + ")";
    SpanConcat(reg[1..], ")", WordChars);
    var x := v[|reg| - 1..];
    assert x == ")";
    assert Lead(x) == 0;
    assert u[0..|reg|] == reg;
  }

  /** Without an offset, the offset is 0. */
  lemma MemoryOperandNoOffset(reg: string)
    requires RegisterToken(reg)
    ensures ParseMemoryOperand("(" + reg + ")") == AtOffset(0, ParseReg(reg))
  {
    var s := "(" + reg + ")";
    assert s[0] == '(' && s[|s| - 1] == ')';
    StripPlain(s);
    RegisterGroupOf(reg);
    assert Span(s, Digits) == 0;
    assert !StartsWith(s, "0x");
  }

  /** A stripped operand whose pattern groups are a readable offset and a
      register name. */
  lemma MemoryOperandOf(s: string, g1: string, g2: string, off: int)
    requires Strip(s) == s && MatchMemory(s) == Some((g1, g2)) && g1 != "" && ParseImm(g1) == Ok(off)
    ensures ParseMemoryOperand(s) == AtOffset(off, ParseReg(g2))
  {}

  /** An offset with no leading space, followed by `(...)`, needs no
      stripping. */
  lemma PlainThroughParen(a: string, t: string)
    requires a != [] && !IsSpace(a[0]) && t != [] && t[|t| - 1] == ')'
    ensures Strip(a + t) == a + t
  {
    var s := a + t;
    assert s[0] == a[0] && s[|s| - 1] == ')';
    StripPlain(s);
  }

  lemma SplitAt(a: string, b: string)
    ensures (a + b)[..|a|] == a && (a + b)[|a|..] == b
  {}

  lemma DigitsOf(m: nat)
    ensures AllIn(ToDigits(m, 10), Digits)
  {
    var d := ToDigits(m, 10);
    ToDigitsValue(m, 10);
    forall i | 0 <= i < |d| ensures InClass(d[i], Digits) {
      assert DigitValue(d[i], 10) >= 0;
    }
  }

  /** `str(n)` is the sign (for a negative n) followed by the digits. */
  lemma DecimalShape(n: int)
    ensures var m: nat := if n < 0 then -n else n;
      AllIn(ToDigits(m, 10), Digits)
      && Decimal(n) == (if n < 0 then "-" else "") + ToDigits(m, 10)
  {
    var m: nat := if n < 0 then -n else n;
    DigitsOf(m);
    assert n >= 0 ==> "" + ToDigits(m, 10) == ToDigits(m, 10);
  }

  /** An optional minus sign and digits, followed by text that does not
      continue them, is what the first alternative takes. */
  lemma SignedDigitsOf(sign: string, d: string, t: string)
    requires sign == "" || sign == "-"
    requires d != [] && AllIn(d, Digits) && t != [] && !InClass(t[0], Digits)
    ensures SignedDigitsLen(sign + d + t) == |sign + d|
  {
    var s := sign + d + t;
    SpanConcat(d, t, Digits);
    if sign == "-" {
      assert s[0] == '-';
      assert s[1..] == d + t;
      assert s[1] == d[0];
    } else {
      assert s == d + t;
      assert s[0] == d[0];
    }
  }

  /** A decimal offset reads back as itself. */
  lemma MemoryOperandDecimal(n: int, reg: string)
    requires RegisterToken(reg)
    ensures ParseMemoryOperand(Decimal(n) + "(" + reg + ")") == AtOffset(n, ParseReg(reg))
  {
    ConcatAssoc(Decimal(n), "(", reg, ")");
    RegisterGroupOf(reg);
    OperandDecimal(n, "(" + reg + ")", reg);
  }

  lemma OperandDecimal(n: int, t: string, g: string)
    requires t != [] && t[0] == '(' && t[|t| - 1] == ')' && MatchRegisterGroup(t) == Some(g)
    ensures ParseMemoryOperand(Decimal(n) + t) == AtOffset(n, ParseReg(g))
  {
    var d := Decimal(n);
    var s := d + t;
    DecimalPlain(n);
    assert MatchMemory(s) == Some((d, g)) by {
      var m: nat := if n < 0 then -n else n;
      DecimalShape(n);
      SignedDigitsOf(if n < 0 then "-" else "", ToDigits(m, 10), t);
      SplitAt(d, t);
    }
    PlainThroughParen(d, t);
    ParseImmDecimal(n);
    MemoryOperandOf(s, d, g, n);
  }

  lemma HexLens(n: nat, t: string)
    requires t != [] && !InClass(t[0], HexDigits)
    ensures SignedDigitsLen(Hex(n) + t) == 1
    ensures HexLen(Hex(n) + t) == |Hex(n)|
  {
    var digits := ToDigits(n, 16);
    ToDigitsValue(n, 16);
    assert AllIn(digits, HexDigits) by {
      forall i | 0 <= i < |digits| ensures InClass(digits[i], HexDigits) {
        assert DigitValue(digits[i], 16) >= 0;
      }
    }
    var s := Hex(n) + t;
    assert s[0] == '0' && s[1] == 'x';
    assert s[1..][0] == 'x';
    assert Span(s, Digits) == 1;
    assert s[2..] == digits + t;
    SpanConcat(digits, t, HexDigits);
  }

  /** The pattern's tail cannot start at a character other than whitespace
      or `(`. */
  lemma RegisterGroupNeedsParen(t: string)
    requires t != [] && !IsSpace(t[0]) && t[0] != '('
    ensures MatchRegisterGroup(t).None?
  {
    assert Lead(t) == 0;
  }

  /** When the first alternative of group 1 fails, the second is tried. */
  lemma MatchSecondAlternative(s: string, n: nat, g: string)
    requires SignedDigitsLen(s) == 1 && 1 <= |s| && MatchRegisterGroup(s[1..]).None?
    requires HexLen(s) == n && 0 < n <= |s| && MatchRegisterGroup(s[n..]) == Some(g)
    ensures MatchMemory(s) == Some((s[..n], g))
  {}

  lemma MatchMemoryHex(n: nat, t: string, g: string)
    requires t != [] && t[0] == '(' && MatchRegisterGroup(t) == Some(g)
    ensures MatchMemory(Hex(n) + t) == Some((Hex(n), g))
  {
    var h := Hex(n);
    var s := h + t;
    HexLens(n, t);
    SplitAt(h, t);
    assert s[1..][0] == 'x';
    RegisterGroupNeedsParen(s[1..]);
    MatchSecondAlternative(s, |h|, g);
  }

  /** A hex offset `0x...` reads back as itself. */
  lemma MemoryOperandHex(n: nat, reg: string)
    requires RegisterToken(reg)
    ensures ParseMemoryOperand(Hex(n) + "(" + reg + ")") == AtOffset(n, ParseReg(reg))
  {
    ConcatAssoc(Hex(n), "(", reg, ")");
    RegisterGroupOf(reg);
    OperandHex(n, "(" + reg + ")", reg);
  }

  lemma OperandHex(n: nat, t: string, g: string)
    requires t != [] && t[0] == '(' && t[|t| - 1] == ')' && MatchRegisterGroup(t) == Some(g)
    ensures ParseMemoryOperand(Hex(n) + t) == AtOffset(n, ParseReg(g))
  {
    var h := Hex(n);
    var s := h + t;
    MatchMemoryHex(n, t, g);
    PlainThroughParen(h, t);
    ParseImmHex(n);
    MemoryOperandOf(s, h, g, n);
  }
}

/** What the field that number writes looks like, character by character. */
module NumberField {
  import opened Number
  import opened Powers

  // ---------- the only numeral ----------

  /** A digit below base, in the case that SMALL asks for. */
  ghost predicate IsSymbol(c: char, base: nat, small: bool) {
    && ('0' <= c <= '9' || (if small then 'a' <= c <= 'z' else 'A' <= c <= 'Z'))
    && DigitOf(c) < base
  }

  ghost predicate AllSymbols(s: string, base: nat, small: bool) {
    forall k | 0 <= k < |s| :: IsSymbol(s[k], base, small)
  }

  /** s is how u is written in base, without superfluous zeros. */
  ghost predicate IsNumeral(s: string, u: nat, base: nat, small: bool) {
    |s| > 0 && AllSymbols(s, base, small) && (s[0] == '0' ==> |s| == 1) && Value(s, base) == u
  }

  lemma {:induction false} NoZeroInFront(s: string, base: nat, small: bool)
    requires base > 0 && AllSymbols(s, base, small) && |s| > 0 && s[0] != '0'
    ensures Value(s, base) > 0
  {
    if |s| > 1 {
      NoZeroInFront(s[..|s| - 1], base, small);
      MulGrows(Value(s[..|s| - 1], base), base);
    } else {
      assert s[..0] == "";
    }
  }

  lemma SameQuotient(p: nat, c: nat, q: nat, d: nat, base: nat)
    requires c < base && d < base && p * base + c == q * base + d
    ensures p == q && c == d
  {
    DivUnique(p * base + c, base, p, c);
    DivUnique(p * base + c, base, q, d);
  }

  lemma {:induction false} SameValueSameDigits(s: string, t: string, base: nat, small: bool)
    requires base > 0 && AllSymbols(s, base, small) && AllSymbols(t, base, small)
    requires (s != "" ==> s[0] != '0') && (t != "" ==> t[0] != '0') && Value(s, base) == Value(t, base)
    ensures s == t
    decreases |s|
  {
    if s == "" || t == "" {
      if s != "" {
        NoZeroInFront(s, base, small);
      }
      if t != "" {
        NoZeroInFront(t, base, small);
      }
    } else {
      var s', c := s[..|s| - 1], s[|s| - 1];
      var t', d := t[..|t| - 1], t[|t| - 1];
      SameQuotient(Value(s', base), DigitOf(c), Value(t', base), DigitOf(d), base);
      assert IsSymbol(c, base, small) && IsSymbol(d, base, small);
      SameValueSameDigits(s', t', base, small);
      assert s == s' + [c] && t == t' + [d];
    }
  }

  /** A number has one numeral. */
  lemma NumeralUnique(s: string, t: string, u: nat, base: nat, small: bool)
    requires base > 0 && IsNumeral(s, u, base, small) && IsNumeral(t, u, base, small)
    ensures s == t
  {
    if s[0] != '0' {
      NoZeroInFront(s, base, small);
    }
    if t[0] != '0' {
      NoZeroInFront(t, base, small);
    }
    if s[0] == '0' || t[0] == '0' {
      assert "0"[..0] == "" && Value("0", base) == 0;
      assert s == "0" || t == "0";
    } else {
      SameValueSameDigits(s, t, base, small);
    }
  }

  lemma {:induction false} LowDigitsAre(u: nat, base: nat, small: bool)
    requires 2 <= base <= 36
    ensures AllSymbols(LowDigits(u, base, small), base, small)
    ensures var s := LowDigits(u, base, small); u > 0 ==> s != "" && s[|s| - 1] != '0'
    decreases u
  {
    if u > 0 {
      var q, d := LowDigitsSplit(u, base, small);
      LowDigitsAre(q, base, small);
      assert IsSymbol(Symbol(d, small), base, small);
    }
  }

  /** And Numeral gives it. */
  lemma NumeralIs(u: nat, base: nat, small: bool)
    requires 2 <= base <= 36
    ensures IsNumeral(Numeral(u, base, small), u, base, small)
  {
    NumeralReadBack(u, base, small);
    LowDigitsAre(u, base, small);
    var low := LowDigits(u, base, small);
    if u > 0 {
      ReversedSymbols(low, base, small);
      ReversedAt(low, 0);
    } else {
      assert IsSymbol('0', base, small);
    }
  }

  lemma ReversedSymbols(s: string, base: nat, small: bool)
    requires AllSymbols(s, base, small)
    ensures AllSymbols(Reversed(s), base, small)
  {
    forall k | 0 <= k < |s| ensures IsSymbol(Reversed(s)[k], base, small) {
      ReversedAt(s, k);
    }
  }

  // ---------- the field ----------

  ghost predicate Only(s: string, c: char) { forall k | 0 <= k < |s| :: s[k] == c }

  lemma {:induction false} RepeatIs(c: char, n: int)
    ensures Only(Repeat(c, n), c)
  {
    if n > 0 {
      RepeatIs(c, n - 1);
    }
  }

  /** The parts of a string that is put together from six others. */
  lemma Parts(l: string, sign: string, prefix: string, z: string, digits: string, r: string)
    ensures var out := l + sign + prefix + z + digits + r;
      var p := |l|; var a := p + |sign| + |prefix| + |z|; var b := a + |digits|;
      && out[p..p + |sign|] == sign && out[p + |sign|..p + |sign| + |prefix|] == prefix
      && out[p + |sign| + |prefix|..a] == z && out[a..b] == digits && out[..p] == l && out[b..] == r
  {
    PartsInFront(l, sign, prefix, z + digits + r);
    PartsBehind(l + sign + prefix, z, digits, r);
    assert l + sign + prefix + z + digits + r == l + sign + prefix + (z + digits + r);
  }

  lemma PartsInFront(l: string, x: string, y: string, rest: string)
    ensures var out := l + x + y + rest;
      out[..|l|] == l && out[|l|..|l| + |x|] == x && out[|l| + |x|..|l| + |x| + |y|] == y
  {
  }

  lemma PartsBehind(start: string, x: string, y: string, r: string)
    ensures var out := start + x + y + r; var n := |start|;
      out[n..n + |x|] == x && out[n + |x|..n + |x| + |y|] == y && out[n + |x| + |y|..] == r
  {
  }

  /** What comes on the left, as zeros in the middle, and on the right. */
  lemma LaidIsParts(sign: string, prefix: string, zeros: int, digits: string, pad: int, f: Flags)
    returns (l: string, z: string, r: string)
    ensures Only(l, ' ') && Only(z, '0') && Only(r, ' ')
    ensures Laid(sign + prefix, Repeat('0', zeros) + digits, pad, f) == l + sign + prefix + z + digits + r
    ensures |l| + (|z| - Max(zeros, 0)) + |r| == Max(pad, 0)
    ensures if f.left then |l| == 0 && |z| == Max(zeros, 0)
      else |r| == 0 && if f.zeropad then |l| == 0 else |z| == Max(zeros, 0)
  {
    RepeatIs('0', zeros);
    RepeatIs('0', pad);
    RepeatIs(' ', pad);
    if f.left {
      l, z, r := "", Repeat('0', zeros), Repeat(' ', pad);
      FrontFirst(sign, prefix, "", z, digits, r);
    } else if f.zeropad {
      l, z, r := "", Repeat('0', pad) + Repeat('0', zeros), "";
      FrontFirst(sign, prefix, Repeat('0', pad), Repeat('0', zeros), digits, "");
    } else {
      l, z, r := Repeat(' ', pad), Repeat('0', zeros), "";
      BlanksFirst(l, sign, prefix, z, digits);
    }
  }

  lemma FrontFirst(sign: string, prefix: string, y: string, z: string, digits: string, r: string)
    ensures "" + sign + prefix + (y + z) + digits + r == sign + prefix + y + (z + digits) + r
  {
    Regroup(sign + prefix, y, z, digits);
    assert "" + sign == sign;
  }

  lemma BlanksFirst(l: string, sign: string, prefix: string, z: string, digits: string)
    ensures l + sign + prefix + z + digits + "" == l + (sign + prefix) + (z + digits)
  {
    Regroup(l + sign + prefix, "", z, digits);
    assert l + (sign + prefix) == l + sign + prefix;
    assert l + sign + prefix + "" == l + sign + prefix;
  }

  lemma Regroup(a: string, b: string, c: string, d: string)
    ensures a + b + (c + d) == a + (b + c) + d
  {
  }

  /** Out holds, from position p on: sign, prefix, zeros, and from a up to b the numeral of u, which
      with the zeros that precision asks for takes at least precision characters. Blanks fill the
      field on the right with LEFT, else on the left, unless ZEROPAD is given without LEFT: then
      zeros behind the prefix do. */
  ghost predicate Field(out: string, sign: string, prefix: string, u: nat, base: nat, size: int, precision: int, f: Flags,
                        p: int, a: int, b: int) {
    && 0 <= p && p + |sign| + |prefix| <= a <= b <= |out|
    && out[p..p + |sign|] == sign && out[p + |sign|..p + |sign| + |prefix|] == prefix
    && Only(out[p + |sign| + |prefix|..a], '0') && IsNumeral(out[a..b], u, base, f.small)
    && Only(out[..p], ' ') && Only(out[b..], ' ')
    && |out| == Max(size, |sign| + |prefix| + Max(precision, b - a))
    && (f.left ==> p == 0) && (!f.left ==> b == |out|) && (!f.left && f.zeropad ==> p == 0)
    && (f.left || !f.zeropad ==> a == p + |sign| + |prefix| + Max(precision - (b - a), 0))
  }

  lemma LaidIsField(out: string, sign: string, prefix: string, digits: string, u: nat, base: nat, size: int,
                    precision: int, f: Flags) returns (p: int, a: int, b: int)
    requires IsNumeral(digits, u, base, f.small)
    requires var zeros := precision - |digits|; var pad := size - |sign| - |prefix| - Max(zeros, 0) - |digits|;
      out == Laid(sign + prefix, Repeat('0', zeros) + digits, pad, f)
    ensures Field(out, sign, prefix, u, base, size, precision, f, p, a, b)
  {
    var zeros := precision - |digits|;
    var pad := size - |sign| - |prefix| - Max(zeros, 0) - |digits|;
    var l, z, r := LaidIsParts(sign, prefix, zeros, digits, pad, f);
    p := |l|;
    a := p + |sign| + |prefix| + |z|;
    b := a + |digits|;
    PartsAreField(out, l, sign, prefix, z, digits, r, u, base, size, precision, f, p, a, b);
  }

  lemma PartsAreField(out: string, l: string, sign: string, prefix: string, z: string, digits: string, r: string,
                      u: nat, base: nat, size: int, precision: int, f: Flags, p: int, a: int, b: int)
    requires p == |l| && a == p + |sign| + |prefix| + |z| && b == a + |digits|
    requires out == l + sign + prefix + z + digits + r
    requires Only(l, ' ') && Only(z, '0') && Only(r, ' ') && IsNumeral(digits, u, base, f.small)
    requires var zeros := Max(precision - |digits|, 0);
      && |l| + (|z| - zeros) + |r| == Max(size - |sign| - |prefix| - zeros - |digits|, 0)
      && if f.left then |l| == 0 && |z| == zeros else |r| == 0 && if f.zeropad then |l| == 0 else |z| == zeros
    ensures Field(out, sign, prefix, u, base, size, precision, f, p, a, b)
  {
    Parts(l, sign, prefix, z, digits, r);
  }

  /** number writes this field, with these signs and prefixes. */
  lemma FieldIs(num: int, base: int, size: int, precision: int, f: Flags) returns (p: int, a: int, b: int)
    requires -0x8000_0000 <= num < 0x8000_0000 && 2 <= base <= 36
    ensures
      var sign := if f.sign && num < 0 then "-" else if f.plus then "+" else if f.space then " " else "";
      var prefix := if !f.special then "" else if base == 8 then "0" else if base != 16 then ""
                    else if f.small then "0x" else "0X";
      var u: nat := if num >= 0 then num else if f.sign then -num else num + 0x1_0000_0000;
      Field(Formatted(num, base, size, precision, f), sign, prefix, u, base, size, precision, f, p, a, b)
  {
    var sign, prefix, digits := SignOf(num, f), BasePrefix(base, f), Numeral(Magnitude(num, f), base, f.small);
    NumeralIs(Magnitude(num, f), base, f.small);
    p, a, b := LaidIsField(Formatted(num, base, size, precision, f), sign, prefix, digits, Magnitude(num, f), base, size, precision, f);
    assert prefix == if !f.special then "" else if base == 8 then "0" else if base != 16 then "" else if f.small then "0x" else "0X";
  }

  /** With ZEROPAD everything behind sign and prefix reads back as the number. */
  lemma ZeroPaddedReadBack(num: int, base: int, size: int, precision: int, f: Flags)
    requires -0x8000_0000 <= num < 0x8000_0000 && 2 <= base <= 36 && f.zeropad && !f.left
    ensures var out := Formatted(num, base, size, precision, f);
      var front := (if (f.sign && num < 0) || f.plus || f.space then 1 else 0)
                   + (if f.special && base == 8 then 1 else if f.special && base == 16 then 2 else 0);
      && front <= |out|
      && Value(out[front..], base) == if num >= 0 then num else if f.sign then -num else num + 0x1_0000_0000
  {
    var p, a, b := FieldIs(num, base, size, precision, f);
    var out := Formatted(num, base, size, precision, f);
    var n := (if (f.sign && num < 0) || f.plus || f.space then 1 else 0)
             + (if f.special && base == 8 then 1 else if f.special && base == 16 then 2 else 0);
    ZerosReadBack(out, n, a, base);
  }

  lemma ZerosReadBack(s: string, n: int, a: int, base: nat)
    requires 0 <= n <= a <= |s| && Only(s[n..a], '0')
    ensures Value(s[n..], base) == Value(s[a..|s|], base)
  {
    RepeatIs('0', a - n);
    assert s[n..a] == Repeat('0', a - n);
    assert s[n..] == Repeat('0', a - n) + s[a..|s|];
    ValueOfZeros(a - n, s[a..|s|], base);
  }
}

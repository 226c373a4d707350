/** Number formatting in kernel/printk.c: number and skip_atoi. */
module Number {
  import opened Common
  import opened Powers

  const UPPER: string := "0123456789ABCDEFGHIJKLMNOPQRSTUVWXYZ"
  const LOWER: string := "0123456789abcdefghijklmnopqrstuvwxyz"

  /** The bits of the type argument. */
  datatype Flags = Flags(zeropad: bool, sign: bool, plus: bool, space: bool, left: bool, special: bool, small: bool)

  /** The digit that a character stands for, in either case, or 36. */
  function DigitOf(c: char): (d: nat)
    ensures d <= 36
  {
    if '0' <= c <= '9' then (c - '0') as int
    else if 'A' <= c <= 'Z' then (c - 'A') as int + 10
    else if 'a' <= c <= 'z' then (c - 'a') as int + 10
    else 36
  }

  function Symbol(d: nat, small: bool): (c: char)
    requires d < 36
    ensures DigitOf(c) == d
  {
    if d < 10 then '0' + d as char else if small then 'a' + (d - 10) as char else 'A' + (d - 10) as char
  }

  lemma SymbolsListed(d: nat)
    requires d < 36
    ensures UPPER[d] == Symbol(d, false) && LOWER[d] == Symbol(d, true)
  {
  }

  function Reversed<T>(s: seq<T>): (r: seq<T>)
    ensures |r| == |s|
  {
    if s == [] then [] else Reversed(s[1..]) + [s[0]]
  }

  lemma {:induction false} ReversedAt<T>(s: seq<T>, k: nat)
    requires k < |s|
    ensures Reversed(s)[k] == s[|s| - 1 - k]
  {
    if k < |s| - 1 {
      ReversedAt(s[1..], k);
    }
  }

  function Repeat(c: char, n: int): (s: string)
    ensures |s| == if n > 0 then n else 0
  {
    if n <= 0 then "" else Repeat(c, n - 1) + [c]
  }

  /** Digits of u from the lowest; none for 0. */
  function LowDigits(u: nat, base: nat, small: bool): string
    requires 2 <= base <= 36
    decreases u
  {
    if u == 0 then ""
    else
      HalvesAtLeast(u, base);
      [Symbol(u % base, small)] + LowDigits(u / base, base, small)
  }

  /** The numeral for u, highest digit first. */
  function Numeral(u: nat, base: nat, small: bool): (s: string)
    requires 2 <= base <= 36
    ensures |s| > 0
  {
    if u == 0 then "0" else Reversed(LowDigits(u, base, small))
  }

  /** What a numeral stands for. */
  ghost function Value(s: string, base: nat): nat {
    if s == [] then 0 else Value(s[..|s| - 1], base) * base + DigitOf(s[|s| - 1])
  }

  // ---------- what number writes ----------

  function Unsigned(num: int): nat
    requires -0x8000_0000 <= num < 0x8000_0000
  {
    if num < 0 then num + WORD else num
  }

  /** The digits' value: the magnitude with SIGN, and the unsigned value without it. Negating
      -2^31 wraps around to itself, which is 2^31 to the unsigned division that follows. */
  function Magnitude(num: int, f: Flags): nat
    requires -0x8000_0000 <= num < 0x8000_0000
  {
    if f.sign && num < 0 then -num else Unsigned(num)
  }

  function SignOf(num: int, f: Flags): string {
    if f.sign && num < 0 then "-" else if f.plus then "+" else if f.space then " " else ""
  }

  /** 0x or 0 in front; digits[33] is the letter x in the case of the digits. */
  function BasePrefix(base: int, f: Flags): string {
    if !f.special then ""
    else if base == 8 then "0"
    else if base == 16 then ['0', Symbol(33, f.small)]
    else ""
  }

  /** Sign, prefix and digits; the digits have zeros in front up to the precision. */
  function Core(num: int, base: int, precision: int, f: Flags): (string, string)
    requires -0x8000_0000 <= num < 0x8000_0000 && 2 <= base <= 36
  {
    var digits := Numeral(Magnitude(num, f), base, f.small);
    (SignOf(num, f) + BasePrefix(base, f), Repeat('0', precision - |digits|) + digits)
  }

  /** The field: padded on the right with LEFT, else with zeros inside or blanks in front. */
  function Formatted(num: int, base: int, size: int, precision: int, f: Flags): string
    requires -0x8000_0000 <= num < 0x8000_0000 && 2 <= base <= 36
  {
    var (front, body) := Core(num, base, precision, f);
    Laid(front, body, size - |front| - |body|, f)
  }

  function Laid(front: string, body: string, pad: int, f: Flags): (s: string)
    ensures |s| == Max(pad, 0) + |front| + |body|
  {
    if f.left then front + body + Repeat(' ', pad)
    else if f.zeropad then front + Repeat('0', pad) + body
    else Repeat(' ', pad) + front + body
  }

  function Max(a: int, b: int): int { if a >= b then a else b }

  /** The output is as long as the field, or longer if sign, prefix and digits need more. */
  lemma FormattedLength(num: int, base: int, size: int, precision: int, f: Flags)
    requires -0x8000_0000 <= num < 0x8000_0000 && 2 <= base <= 36
    ensures |Formatted(num, base, size, precision, f)|
      == Max(size, |SignOf(num, f)| + |BasePrefix(base, f)| + Max(precision, |Numeral(Magnitude(num, f), base, f.small)|))
  {
  }

  lemma ReversedStep(s: string, c: char, base: nat)
    ensures Value(Reversed([c] + s), base) == Value(Reversed(s), base) * base + DigitOf(c)
  {
  }

  lemma QuotientRest(u: nat, base: nat)
    requires base > 0
    ensures u / base * base + u % base == u && u % base < base
  {
  }

  lemma LowDigitsSplit(u: nat, base: nat, small: bool) returns (q: nat, d: nat)
    requires u > 0 && 2 <= base <= 36
    ensures q < u && d < base && u == q * base + d
    ensures LowDigits(u, base, small) == [Symbol(d, small)] + LowDigits(q, base, small)
  {
    q, d := u / base, u % base;
    QuotientRest(u, base);
  }

  lemma {:induction false} LowDigitsReadBack(u: nat, base: nat, small: bool)
    requires 2 <= base <= 36
    ensures Value(Reversed(LowDigits(u, base, small)), base) == u
    decreases u
  {
    if u > 0 {
      var q, d := LowDigitsSplit(u, base, small);
      LowDigitsReadBack(q, base, small);
      ReversedStep(LowDigits(q, base, small), Symbol(d, small), base);
    }
  }

  /** A numeral read back in its base gives the number, in upper and in lower case. */
  lemma NumeralReadBack(u: nat, base: nat, small: bool)
    requires 2 <= base <= 36
    ensures Value(Numeral(u, base, small), base) == u
  {
    LowDigitsReadBack(u, base, small);
    if u == 0 {
      assert "0"[..0] == "";
    }
  }

  lemma {:induction false} ValueOfZeros(n: int, s: string, base: nat)
    ensures Value(Repeat('0', n) + s, base) == Value(s, base)
    decreases |s|, Max(n, 0)
  {
    var t := Repeat('0', n) + s;
    if s != "" {
      assert t[..|t| - 1] == Repeat('0', n) + s[..|s| - 1];
      ValueOfZeros(n, s[..|s| - 1], base);
    } else if n > 0 {
      ValueOfZeros(n - 1, s, base);
      assert t == Repeat('0', n - 1) + ['0'];
      assert t[..|t| - 1] == Repeat('0', n - 1);
      assert Repeat('0', n - 1) + s == Repeat('0', n - 1);
    } else {
      assert t == "";
    }
  }

  /** With SIGN, sign and digits read back as the number itself, -2^31 included; without SIGN the
      digits read back as its unsigned value. Precision does not change either. */
  lemma FormattedReadBack(num: int, base: int, precision: int, f: Flags)
    requires -0x8000_0000 <= num < 0x8000_0000 && 2 <= base <= 36
    ensures var (front, body) := Core(num, base, precision, f);
      && (f.sign ==> num == if |front| > 0 && front[0] == '-' then 0 - Value(body, base) else Value(body, base))
      && (!f.sign ==> Value(body, base) == Unsigned(num))
  {
    var digits := Numeral(Magnitude(num, f), base, f.small);
    NumeralReadBack(Magnitude(num, f), base, f.small);
    ValueOfZeros(precision - |digits|, digits, base);
    FrontShowsSign(num, base, f);
  }

  lemma FrontShowsSign(num: int, base: int, f: Flags)
    ensures var front := SignOf(num, f) + BasePrefix(base, f);
      |front| > 0 && front[0] == '-' <==> f.sign && num < 0
  {
  }

  // ---------- the code ----------

  /** do_div: the quotient stays in n, and the remainder, the next digit, is the result. */
  method DoDiv(n: nat, base: nat, ghost small: bool) returns (q: nat, r: nat)
    requires n > 0 && 2 <= base <= 36
    ensures r < base && 2 * q <= n
    ensures LowDigits(n, base, small) == [Symbol(r, small)] + LowDigits(q, base, small)
  {
    q, r := n / base, n % base;
    HalvesAtLeast(n, base);
  }

  lemma HalvesAtLeast(n: nat, base: nat)
    requires base >= 2
    ensures 2 * (n / base) <= n
  {
    QuotientRest(n, base);
    assert n / base * base >= n / base * 2;
  }

  /** A look into the digit table for upper or lower case. */
  method DigitAt(d: nat, small: bool) returns (c: char)
    requires d < 36
    ensures c == Symbol(d, small)
  {
    var digits := if small then LOWER else UPPER;
    SymbolsListed(d);
    c := digits[d];
  }

  /** The digits of num, lowest first. At most 32 characters go into tmp. */
  method StoreDigits(tmp: array<char>, num: nat, base: nat, small: bool) returns (i: nat)
    requires tmp.Length == 36 && num < WORD && 2 <= base <= 36
    modifies tmp
    ensures i <= 32 && Reversed(tmp[..i]) == Numeral(num, base, small)
  {
    if num == 0 {
      tmp[0] := '0';
      i := 1;
      assert tmp[..i][1..] == [];
    } else {
      i := DigitLoop(tmp, num, base, small);
    }
  }

  /** One round of the digit loop: the remainder's digit goes into tmp and the quotient stays. */
  method StoreDigit(tmp: array<char>, i: nat, n: nat, base: nat, small: bool) returns (q: nat)
    requires i < tmp.Length && n > 0 && 2 <= base <= 36
    modifies tmp
    ensures 2 * q <= n && tmp[..i + 1] + LowDigits(q, base, small) == old(tmp[..i]) + LowDigits(n, base, small)
  {
    var r;
    q, r := DoDiv(n, base, small);
    tmp[i] := DigitAt(r, small);
    assert tmp[..i + 1] == old(tmp[..i]) + [Symbol(r, small)];
  }

  method DigitLoop(tmp: array<char>, num: nat, base: nat, small: bool) returns (i: nat)
    requires tmp.Length == 36 && num < WORD && 2 <= base <= 36
    modifies tmp
    ensures i <= 32 && tmp[..i] == LowDigits(num, base, small)
  {
    var n: nat := num;
    i := 0;
    Word();
    assert tmp[..0] == [];
    while n != 0
      invariant i <= 32 && n < Pow2(32 - i)
      invariant tmp[..i] + LowDigits(n, base, small) == LowDigits(num, base, small)
      decreases n
    {
      n := StoreDigit(tmp, i, n, base, small);
      i := i + 1;
    }
    assert tmp[..i] + LowDigits(0, base, small) == tmp[..i];
  }

  lemma Word()
    ensures Pow2(32) == WORD
  {
    assert Pow2(4) == 16;
    Pow2Sum(4, 4);
    Pow2Sum(8, 8);
    Pow2Sum(16, 16);
  }

  ghost predicate Untouched(now: string, before: string, from: nat) {
    |now| == |before| && forall k | from <= k < |now| :: now[k] == before[k]
  }

  /** Puts c as often as n says, counting n down. Its last test takes n one below where the loop ends. */
  method Fill(buf: array<char>, str: nat, c: char, n: int) returns (end: nat, rest: int)
    requires str + Max(n, 0) <= buf.Length
    modifies buf
    ensures end == str + Max(n, 0) && rest == (if n > 0 then 0 else n) - 1
    ensures buf[..end] == old(buf[..str]) + Repeat(c, n) && Untouched(buf[..], old(buf[..]), end)
  {
    end := str;
    rest := n;
    while rest > 0
      invariant end == str + Max(n, 0) - Max(rest, 0) && rest <= n && (n > 0 ==> rest >= 0)
      invariant n <= 0 ==> rest == n
      invariant buf[..end] == old(buf[..str]) + Repeat(c, n - Max(rest, 0)) && Untouched(buf[..], old(buf[..]), end)
      decreases rest
    {
      ghost var done := buf[..end];
      buf[end] := c;
      assert buf[..end + 1] == done + [c];
      end := end + 1;
      rest := rest - 1;
    }
    rest := rest - 1;
  }

  /** Characters put one by one. */
  method Put(buf: array<char>, str: nat, s: string) returns (end: nat)
    requires str + |s| <= buf.Length
    modifies buf
    ensures end == str + |s|
    ensures buf[..end] == old(buf[..str]) + s && Untouched(buf[..], old(buf[..]), end)
  {
    end := str;
    for k := 0 to |s|
      invariant end == str + k
      invariant buf[..end] == old(buf[..str]) + s[..k] && Untouched(buf[..], old(buf[..]), end)
    {
      ghost var done := buf[..end];
      buf[end] := s[k];
      assert buf[..end + 1] == done + [s[k]];
      end := end + 1;
    }
    assert s[..|s|] == s;
  }

  /** The digits come out of tmp from the last one stored to the first. */
  method PutBackwards(buf: array<char>, str: nat, tmp: array<char>, n: nat) returns (end: nat)
    requires tmp != buf && n <= tmp.Length && str + n <= buf.Length
    modifies buf
    ensures end == str + n
    ensures buf[..end] == old(buf[..str]) + Reversed(tmp[..n]) && Untouched(buf[..], old(buf[..]), end)
  {
    ghost var r := Reversed(tmp[..n]);
    end := str;
    var i := n;
    while i > 0
      invariant 0 <= i <= n && end == str + n - i
      invariant buf[..end] == old(buf[..str]) + r[..n - i] && Untouched(buf[..], old(buf[..]), end)
    {
      i := i - 1;
      ghost var done := buf[..end];
      ReversedAt(tmp[..n], n - 1 - i);
      buf[end] := tmp[i];
      assert buf[..end + 1] == done + [r[n - 1 - i]];
      end := end + 1;
    }
    assert r[..n] == r;
  }

  /** number. With a base out of range it writes nothing and returns a null pointer. */
  method FormatNumber(buf: array<char>, str: nat, num: int, base: int, size: int, precision: int, type_: Flags)
    returns (ok: bool, end: nat)
    requires -0x8000_0000 <= num < 0x8000_0000 && str <= buf.Length
    requires 2 <= base <= 36 ==> str + |Formatted(num, base, size, precision, type_)| <= buf.Length
    modifies buf
    ensures ok <==> 2 <= base <= 36
    ensures !ok ==> buf[..] == old(buf[..])
    ensures ok ==> var out := Formatted(num, base, size, precision, type_);
      end == str + |out| && buf[..end] == old(buf[..str]) + out && Untouched(buf[..], old(buf[..]), end)
  {
    if base < 2 || base > 36 {
      return false, 0;
    }
    var tmp := new char[36];
    var sign, rest := Reserve(num, base, size, type_);
    var i := StoreDigits(tmp, Magnitude(num, type_), base, type_.small);
    var precision_ := if i > precision then i else precision;
    FormattedIs(num, base, size, precision, type_, i, precision_);
    end := PutField(buf, str, sign, BasePrefix(base, type_), tmp, i, precision_, rest - precision_, type_);
    ok := true;
  }

  /** The sign, and what sign and prefix leave of the field. */
  method Reserve(num: int, base: int, size: int, type_: Flags) returns (sign: string, rest: int)
    ensures sign == SignOf(num, type_) && rest == size - |sign| - |BasePrefix(base, type_)|
  {
    sign := if type_.sign && num < 0 then "-" else if type_.plus then "+" else if type_.space then " " else "";
    rest := if sign != "" then size - 1 else size;
    if type_.special {
      if base == 16 {
        rest := rest - 2;
      } else if base == 8 {
        rest := rest - 1;
      }
    }
  }

  lemma FormattedIs(num: int, base: int, size: int, precision: int, f: Flags, i: nat, precision': int)
    requires -0x8000_0000 <= num < 0x8000_0000 && 2 <= base <= 36
    requires i == |Numeral(Magnitude(num, f), base, f.small)| && precision' == Max(i, precision)
    ensures Formatted(num, base, size, precision, f)
      == Laid(SignOf(num, f) + BasePrefix(base, f), Repeat('0', precision' - i) + Numeral(Magnitude(num, f), base, f.small),
         size - |SignOf(num, f)| - |BasePrefix(base, f)| - precision', f)
  {
  }

  /** The second half of number: size is what is left of the field for padding. LEFT switches
      ZEROPAD off. */
  method PutField(buf: array<char>, str: nat, sign: string, prefix: string, tmp: array<char>, i: nat,
    precision: nat, size: int, type_: Flags) returns (end: nat)
    requires tmp != buf && i <= tmp.Length && i <= precision
    requires str + Max(size, 0) + |sign| + |prefix| + precision <= buf.Length
    modifies buf
    ensures var out := Laid(sign + prefix, Repeat('0', precision - i) + Reversed(tmp[..i]), size, type_);
      end == str + |out| && buf[..end] == old(buf[..str]) + out && Untouched(buf[..], old(buf[..]), end)
  {
    var rest;
    end, rest := PutFront(buf, str, sign, prefix, size, type_);
    end := PutDigits(buf, end, tmp, i, precision, rest);
    ghost var front, body := sign + prefix, Repeat('0', precision - i) + Reversed(tmp[..i]);
    ghost var start := old(buf[..str]);
    assert Repeat(' ', rest) == if type_.left then Repeat(' ', size) else "";
    assert buf[..end] == start + Before(front, size, type_) + (body + Repeat(' ', rest));
    LaidIs(start, front, body, size, type_);
  }

  /** What comes out before the digits. */
  ghost function Before(front: string, pad: int, f: Flags): (s: string)
    ensures |s| == |front| + if f.left then 0 else Max(pad, 0)
  {
    if f.left then front else if f.zeropad then front + Repeat('0', pad) else Repeat(' ', pad) + front
  }

  lemma LaidIs(start: string, front: string, body: string, pad: int, f: Flags)
    ensures start + Before(front, pad, f) + (body + if f.left then Repeat(' ', pad) else "") == start + Laid(front, body, pad, f)
  {
  }

  /** The padding in front, sign and prefix, and the zeros of ZEROPAD. */
  method PutFront(buf: array<char>, str: nat, sign: string, prefix: string, size: int, type_: Flags)
    returns (end: nat, rest: int)
    requires str + Max(size, 0) + |sign| + |prefix| <= buf.Length
    modifies buf
    ensures end == str + |Before(sign + prefix, size, type_)| <= buf.Length
    ensures buf[..end] == old(buf[..str]) + Before(sign + prefix, size, type_)
    ensures Untouched(buf[..], old(buf[..]), end)
    ensures if type_.left then rest == size else rest <= 0
  {
    var zeropad := type_.zeropad && !type_.left;
    var c := if zeropad then '0' else ' ';
    rest := size;
    end := str;
    if !zeropad && !type_.left {
      end, rest := Fill(buf, end, ' ', rest);
    }
    end := Put(buf, end, sign);
    end := Put(buf, end, prefix);
    if !type_.left {
      end, rest := Fill(buf, end, c, rest);
    }
  }

  /** The last three loops of number. */
  method PutDigits(buf: array<char>, str: nat, tmp: array<char>, i: nat, precision: nat, size: int) returns (end: nat)
    requires tmp != buf && i <= tmp.Length && i <= precision && str + precision + Max(size, 0) <= buf.Length
    modifies buf
    ensures end == str + precision + Max(size, 0)
    ensures buf[..end] == old(buf[..str]) + (Repeat('0', precision - i) + Reversed(tmp[..i]) + Repeat(' ', size))
    ensures Untouched(buf[..], old(buf[..]), end)
  {
    var spent;
    end, spent := Fill(buf, str, '0', precision - i);
    end := PutBackwards(buf, end, tmp, i);
    end, spent := Fill(buf, end, ' ', size);
  }

  // ---------- skip_atoi ----------

  predicate IsDigit(c: char) { '0' <= c <= '9' }

  /** Where the run of digits from p on ends. */
  function RunEnd(s: string, p: nat): (e: nat)
    requires p <= |s|
    ensures p <= e <= |s| && (e < |s| ==> !IsDigit(s[e]))
    ensures forall k | p <= k < e :: IsDigit(s[k])
    decreases |s| - p
  {
    if p < |s| && IsDigit(s[p]) then RunEnd(s, p + 1) else p
  }

  lemma ValueStep(s: string, p: nat, q: nat)
    requires p <= q < |s|
    ensures Value(s[p..q + 1], 10) == Value(s[p..q], 10) * 10 + DigitOf(s[q])
  {
    assert s[p..q + 1][..q - p] == s[p..q];
  }

  /** What 32-bit signed arithmetic makes of x. */
  function Int32(x: int): (r: int)
    ensures -0x8000_0000 <= r < 0x8000_0000
    ensures -0x8000_0000 <= x < 0x8000_0000 ==> r == x
  {
    var u := x % WORD;
    if u < 0x8000_0000 then u else u - WORD
  }

  lemma Wraps(x: int) returns (k: int)
    ensures x == Int32(x) + k * WORD
  {
    k := if x % WORD < 0x8000_0000 then x / WORD else x / WORD + 1;
  }

  lemma WrapsAlike(x: int, y: int, k: int)
    requires x == y + k * WORD
    ensures Int32(x) == Int32(y)
  {
  }

  /** Wrapping around early and again makes no difference in the end. */
  lemma WrapStep(v: int, code: int)
    ensures Int32(Int32(Int32(Int32(v) * 10) + code) - 48) == Int32(v * 10 + (code - 48))
  {
    var a := Int32(v);
    var b := Int32(a * 10);
    var c := Int32(b + code);
    var i := Wraps(v);
    var j := Wraps(a * 10);
    var k := Wraps(b + code);
    WrapsAlike(v * 10 + (code - 48), c - 48, 10 * i + j + k);
  }

  /** skip_atoi on a string that ends in a non-digit, as one that ends in NUL does. The character code
      is added before that of '0' is taken off, each in 32 bits; the value comes out modulo 2^32. */
  method SkipAtoi(s: string, p: nat) returns (i: int, end: nat)
    requires p < |s| && !IsDigit(s[|s| - 1])
    ensures end == RunEnd(s, p) && i == Int32(Value(s[p..end], 10))
  {
    i := 0;
    end := p;
    assert s[p..p] == "";
    while IsDigit(s[end])
      invariant p <= end < |s| && RunEnd(s, end) == RunEnd(s, p)
      invariant i == Int32(Value(s[p..end], 10))
      decreases |s| - end
    {
      ValueStep(s, p, end);
      WrapStep(Value(s[p..end], 10), s[end] as int);
      i := Int32(Int32(i * 10) + s[end] as int);
      i := Int32(i - '0' as int);
      end := end + 1;
    }
  }

  lemma {:induction false} DecimalDigits(u: nat, small: bool, k: nat)
    requires k < |LowDigits(u, 10, small)|
    ensures IsDigit(LowDigits(u, 10, small)[k])
    decreases u
  {
    if k > 0 {
      DecimalDigits(u / 10, small, k - 1);
    }
  }

  ghost predicate AllDigits(s: string) { forall k | 0 <= k < |s| :: IsDigit(s[k]) }

  lemma NumeralAllDigits(u: nat, small: bool)
    ensures AllDigits(Numeral(u, 10, small))
  {
    if u > 0 {
      var low := LowDigits(u, 10, small);
      forall k | 0 <= k < |low| ensures IsDigit(Reversed(low)[k]) {
        ReversedAt(low, k);
        DecimalDigits(u, small, |low| - 1 - k);
      }
    }
  }

  lemma RunEndsAfter(digits: string, rest: string)
    requires AllDigits(digits) && rest != "" && !IsDigit(rest[0])
    ensures RunEnd(digits + rest, 0) == |digits| && (digits + rest)[..|digits|] == digits
  {
  }

  lemma PlainFormat(num: int, f: Flags)
    requires 0 <= num < 0x8000_0000 && !f.plus && !f.space
    ensures Formatted(num, 10, 0, 0, f) == Numeral(num, 10, f.small)
  {
  }

  /** What number writes for a non-negative int in base 10, without sign, padding or precision, is
      just what skip_atoi reads back, up to whatever non-digit follows. */
  lemma AtoiReadsNumber(num: int, f: Flags, rest: string)
    requires 0 <= num < 0x8000_0000 && rest != "" && !IsDigit(rest[0]) && !f.plus && !f.space
    ensures var out := Formatted(num, 10, 0, 0, f);
      RunEnd(out + rest, 0) == |out| && Int32(Value((out + rest)[..|out|], 10)) == num
  {
    PlainFormat(num, f);
    NumeralAllDigits(num, f.small);
    NumeralReadBack(num, 10, f.small);
    RunEndsAfter(Numeral(num, 10, f.small), rest);
  }
}

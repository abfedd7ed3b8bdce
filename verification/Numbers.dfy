/** Integer text as Rust's `Display`, `str::parse` and `from_str_radix` print and read it. */
module Numbers {
  import opened Prelude

  type Byte = x: int | 0 <= x < 0x100
  type U32 = x: int | 0 <= x < 0x1_0000_0000
  type I16 = x: int | -0x8000 <= x < 0x8000
  type I32 = x: int | -0x8000_0000 <= x < 0x8000_0000
  type I64 = x: int | -0x8000_0000_0000_0000 <= x < 0x8000_0000_0000_0000

  const NOT_A_DIGIT: nat := 99

  /** `char::to_digit`: both cases of hexadecimal letters are digits. */
  function DigitValue(c: char): nat {
    if '0' <= c <= '9' then c as int - '0' as int
    else if 'a' <= c <= 'f' then 10 + (c as int - 'a' as int)
    else if 'A' <= c <= 'F' then 10 + (c as int - 'A' as int)
    else NOT_A_DIGIT
  }

  /** The lower-case digit, the table HEX_BYTES_LOWER. */
  function DigitChar(d: nat): (c: char)
    requires d < 16
    ensures DigitValue(c) == d && IsLowerHex(c)
  {
    if d < 10 then (d + '0' as int) as char else (d - 10 + 'a' as int) as char
  }

  predicate IsLowerHex(c: char) {
    '0' <= c <= '9' || 'a' <= c <= 'f'
  }

  /** `to_lowercase` on ASCII text. */
  function Lower(s: string): (r: string)
    ensures |r| == |s|
  {
    seq(|s|, i requires 0 <= i < |s| => if 'A' <= s[i] <= 'Z' then (s[i] as int + 32) as char else s[i])
  }

  predicate IsDecimalText(s: string) {
    forall c :: c in s ==> c == '-' || '0' <= c <= '9'
  }

  function Digits(n: nat, base: nat): (s: string)
    requires 2 <= base <= 16
    ensures s != [] && forall c :: c in s ==> IsLowerHex(c) && DigitValue(c) < base
  {
    if n < base then [DigitChar(n)]
    else
      QuotientSmaller(n, base);
      Digits(n / base, base) + [DigitChar(n % base)]
  }

  lemma QuotientSmaller(n: nat, base: nat)
    requires 2 <= base <= n
    ensures 0 <= n / base < n
  {
    assert n / base * 2 <= n / base * base <= n;
  }

  function ParseDigits(s: string, base: nat): Option<nat>
    requires 2 <= base <= 16
  {
    if s == [] then Some(0)
    else
      var last := DigitValue(s[|s| - 1]);
      match ParseDigits(s[..|s| - 1], base)
      case None => None
      case Some(n) => if last < base then Some(n * base + last) else None
  }

  lemma {:induction false} ParseDigitsOfDigits(n: nat, base: nat)
    requires 2 <= base <= 16
    ensures ParseDigits(Digits(n, base), base) == Some(n)
  {
    if n < base {
      ParseDigitsSnoc([], DigitChar(n), base);
      assert [] + [DigitChar(n)] == [DigitChar(n)];
    } else {
      var q, d := n / base, n % base;
      QuotientRemainder(n, base);
      QuotientSmaller(n, base);
      ParseDigitsOfDigits(q, base);
      OneMoreDigit(Digits(q, base), q, d, base);
    }
  }

  lemma OneMoreDigit(s: string, q: nat, d: nat, base: nat)
    requires 2 <= base <= 16 && d < base && ParseDigits(s, base) == Some(q)
    ensures ParseDigits(s + [DigitChar(d)], base) == Some(q * base + d)
  {
    ParseDigitsSnoc(s, DigitChar(d), base);
  }

  lemma ParseDigitsSnoc(s: string, c: char, base: nat)
    requires 2 <= base <= 16 && DigitValue(c) < base
    ensures ParseDigits(s + [c], base) ==
            match ParseDigits(s, base)
            case None => None
            case Some(n) => Some(n * base + DigitValue(c))
  {
    assert (s + [c])[..|s|] == s;
  }

  lemma QuotientRemainder(n: nat, base: nat)
    requires base > 0
    ensures n / base * base + n % base == n && n % base < base
  {
  }

  function ShowInt(n: int): (s: string)
    ensures s != [] && IsDecimalText(s)
  {
    if n < 0 then ['-'] + Digits(-n, 10) else Digits(n, 10)
  }

  /** `str::parse` for an integer type with range [lo, hi]; a minus sign needs a signed type. */
  function ParseInt(s: string, lo: int, hi: int): Option<int> {
    if s == [] then None
    else
      var signed := s[0] == '+' || (s[0] == '-' && lo < 0);
      var digits := if signed then s[1..] else s;
      if digits == [] then None
      else
        match ParseDigits(digits, 10)
        case None => None
        case Some(n) =>
          var m: int := n;
          var v := if s[0] == '-' && signed then -m else m;
          if lo <= v <= hi then Some(v) else None
  }

  function ParseI32(s: string): Option<int> {
    ParseInt(s, -0x8000_0000, 0x7FFF_FFFF)
  }

  lemma ParseUnsigned(s: string, n: nat, lo: int, hi: int)
    requires s != [] && DigitValue(s[0]) < 10 && ParseDigits(s, 10) == Some(n) && lo <= n <= hi
    ensures ParseInt(s, lo, hi) == Some(n)
  {
  }

  lemma ParseNegative(s: string, n: int, lo: int, hi: int)
    requires s != [] && n >= 0 && ParseDigits(s, 10) == Some(n) && lo < 0 && lo <= -n <= hi
    ensures ParseInt(['-'] + s, lo, hi) == Some(-n)
  {
    assert (['-'] + s)[1..] == s;
  }

  /** Every integer prints to a text that reads back as itself in any type that holds it. */
  lemma ParseIntOfShowInt(n: int, lo: int, hi: int)
    requires lo <= n <= hi
    ensures ParseInt(ShowInt(n), lo, hi) == Some(n)
  {
    var m := if n < 0 then -n else n;
    ParseDigitsOfDigits(m, 10);
    if n < 0 {
      ParseNegative(Digits(m, 10), m, lo, hi);
    } else {
      assert Digits(m, 10)[0] in Digits(m, 10);
      ParseUnsigned(Digits(m, 10), m, lo, hi);
    }
  }

  // ---------------------------------------------------------------- which texts are numbers

  /** The digits one by one. */
  lemma DigitTable(d: nat, c: char)
    requires d < 16
    ensures DigitChar(d) == "0123456789abcdef"[d]
    ensures DigitValue("0123456789abcdef"[d]) == d == DigitValue("0123456789ABCDEF"[d])
    ensures DigitValue(c) < 16 <==> c in "0123456789abcdefABCDEF"
  {
  }

  function Zeros(k: nat): string {
    if k == 0 then "" else Zeros(k - 1) + ['0']
  }

  lemma {:induction false} ParseZeros(k: nat)
    ensures ParseDigits(Zeros(k), 10) == Some(0)
  {
    if k > 0 {
      ParseZeros(k - 1);
      ParseDigitsSnoc(Zeros(k - 1), '0', 10);
    }
  }

  lemma {:induction false} ParseBehindZeros(k: nat, t: string)
    ensures ParseDigits(Zeros(k) + t, 10) == ParseDigits(t, 10)
    decreases |t|
  {
    if t == "" {
      ParseZeros(k);
      assert Zeros(k) + t == Zeros(k);
    } else {
      var n := |t| - 1;
      var all := Zeros(k) + t;
      assert all[..|all| - 1] == Zeros(k) + t[..n] && all[|all| - 1] == t[n];
      ParseBehindZeros(k, t[..n]);
    }
  }

  predicate IsDigits(s: string) {
    s != "" && forall i :: 0 <= i < |s| ==> '0' <= s[i] <= '9'
  }

  lemma {:induction false} DigitsParse(s: string)
    ensures ParseDigits(s, 10).Some? <==> s == "" || IsDigits(s)
    decreases |s|
  {
    if s != "" {
      DigitsParse(s[..|s| - 1]);
      assert s == s[..|s| - 1] + [s[|s| - 1]];
    }
  }

  lemma DecimalDigit(c: char)
    requires '0' <= c <= '9'
    ensures DigitValue(c) < 10 && c == DigitChar(DigitValue(c))
  {
  }

  predicate IsNumber(s: string, k: nat, n: nat) {
    ParseDigits(s, 10) == Some(n) && s == Zeros(k) + Digits(n, 10)
  }

  lemma OneDigit(c: char)
    requires '0' <= c <= '9'
    ensures IsNumber([c], 0, DigitValue(c))
  {
    DecimalDigit(c);
    ParseDigitsSnoc("", c, 10);
    PrependNothing([c]);
    assert ParseDigits("", 10) == Some(0);
  }

  lemma NextDigit(init: string, c: char, k: nat, m: nat)
    requires '0' <= c <= '9' && IsNumber(init, k, m)
    ensures IsNumber(init + [c], if m == 0 then k + 1 else k, m * 10 + DigitValue(c))
  {
    ParseDigitsSnoc(init, c, 10);
    OneMoreThanNumber(k, m, c);
  }

  /** A text of decimal digits is its number, printed, behind some zeros. */
  lemma {:induction false} DigitsAreNumber(s: string) returns (k: nat, n: nat)
    requires IsDigits(s)
    ensures IsNumber(s, k, n)
    decreases |s|
  {
    var last := |s| - 1;
    var init, c := s[..last], s[last];
    assert s == init + [c] && '0' <= c <= '9';
    if init == "" {
      OneDigit(c);
      k, n := 0, DigitValue(c);
      assert s == [c];
    } else {
      var m;
      k, m := DigitsAreNumber(init);
      NextDigit(init, c, k, m);
      k, n := if m == 0 then k + 1 else k, m * 10 + DigitValue(c);
    }
  }

  lemma OneMoreThanNumber(k: nat, m: nat, c: char)
    requires '0' <= c <= '9'
    ensures Zeros(k) + Digits(m, 10) + [c]
            == Zeros(if m == 0 then k + 1 else k) + Digits(m * 10 + DigitValue(c), 10)
  {
    DecimalDigit(c);
    if m == 0 {
      assert Digits(0, 10) == ['0'] && Digits(DigitValue(c), 10) == [c];
    } else {
      MoreDigits(m, DigitValue(c));
      Regroup(Zeros(k), Digits(m, 10), [c]);
    }
  }

  lemma Regroup(a: string, b: string, c: string)
    ensures a + b + c == a + (b + c)
  {
  }

  lemma MoreDigits(m: nat, d: nat)
    requires m > 0 && d < 10
    ensures Digits(m * 10 + d, 10) == Digits(m, 10) + [DigitChar(d)]
  {
    var n := m * 10 + d;
    assert n >= 10 && n / 10 == m && n % 10 == d;
  }

  /** What may stand before the digits of `v`. */
  predicate IsSign(sign: string, v: int, signed: bool) {
    (sign == "" && v >= 0) || (sign == "+" && v >= 0) || (sign == "-" && signed && v <= 0)
  }

  function Abs(v: int): nat {
    if v < 0 then -v else v
  }

  ghost predicate Denotes(s: string, signed: bool, v: int) {
    exists sign: string, k: nat :: IsSign(sign, v, signed) && s == sign + (Zeros(k) + Digits(Abs(v), 10))
  }

  lemma ParsesBehindSign(sign: string, digits: string, lo: int, hi: int, v: int)
    requires lo <= 0 <= hi && IsDigits(digits) && IsSign(sign, v, lo < 0) && ParseDigits(digits, 10) == Some(Abs(v))
    ensures ParseInt(sign + digits, lo, hi) == if lo <= v <= hi then Some(v) else None
  {
    var s := sign + digits;
    if sign == "" {
      assert s == digits;
    } else {
      assert s[0] == sign[0] && s[1..] == digits;
    }
  }

  lemma ZerosAreDigits(k: nat, n: nat)
    ensures IsDigits(Zeros(k) + Digits(n, 10)) && ParseDigits(Zeros(k) + Digits(n, 10), 10) == Some(n)
  {
    ParseDigitsOfDigits(n, 10);
    ParseBehindZeros(k, Digits(n, 10));
    DigitsParse(Zeros(k) + Digits(n, 10));
  }

  /**
   * Exactly these texts parse: a plus sign, a minus sign where the type has one, or none, then zeros, then the
   * number as it is printed; and the number has to fit.
   */
  lemma ParseIntIff(s: string, lo: int, hi: int, v: int)
    requires lo <= 0 <= hi
    ensures ParseInt(s, lo, hi) == Some(v) <==> lo <= v <= hi && Denotes(s, lo < 0, v)
  {
    if Denotes(s, lo < 0, v) {
      var sign: string, k: nat :| IsSign(sign, v, lo < 0) && s == sign + (Zeros(k) + Digits(Abs(v), 10));
      ZerosAreDigits(k, Abs(v));
      ParsesBehindSign(sign, Zeros(k) + Digits(Abs(v), 10), lo, hi, v);
    }
    if ParseInt(s, lo, hi) == Some(v) {
      ParsedDenotes(s, lo, hi, v);
    }
  }

  lemma ParsedDenotes(s: string, lo: int, hi: int, v: int)
    requires lo <= 0 <= hi && ParseInt(s, lo, hi) == Some(v)
    ensures lo <= v <= hi && Denotes(s, lo < 0, v)
  {
    var signed := s[0] == '+' || (s[0] == '-' && lo < 0);
    var sign, digits := if signed then [s[0]] else "", if signed then s[1..] else s;
    assert s == sign + digits;
    DigitsParse(digits);
    var k, n := DigitsAreNumber(digits);
    assert Abs(v) == n;
    assert IsSign(sign, v, lo < 0);
  }

  // ---------------------------------------------------------------- bytes as hexadecimal text

  function HexOf(bytes: seq<Byte>): string {
    if bytes == [] then "" else [DigitChar(bytes[0] / 16), DigitChar(bytes[0] % 16)] + HexOf(bytes[1..])
  }

  method BytesToHex(bytes: seq<Byte>) returns (into: string)
    ensures into == HexOf(bytes)
  {
    into := "";
    for i := 0 to |bytes|
      invariant into + HexOf(bytes[i..]) == HexOf(bytes)
    {
      var high, low := bytes[i] / 16, bytes[i] % 16;
      assert bytes[i..][0] == bytes[i] && bytes[i..][1..] == bytes[i + 1..];
      var grown := into + [DigitChar(high)] + [DigitChar(low)];
      assert grown + HexOf(bytes[i + 1..]) == into + HexOf(bytes[i..]);
      into := grown;
    }
    assert into + "" == into;
  }

  lemma {:induction false} HexOfIsLowerHex(bytes: seq<Byte>)
    ensures |HexOf(bytes)| == 2 * |bytes|
    ensures forall c :: c in HexOf(bytes) ==> IsLowerHex(c)
  {
    if bytes != [] {
      HexOfIsLowerHex(bytes[1..]);
    }
  }
}

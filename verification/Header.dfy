/** The 12-byte header between host and application server: four command bytes, then the length as hex text. */
module Header {
  import opened Prelude
  import opened Numbers

  /** `to_be_bytes`. */
  function BigEndian(n: U32): (b: seq<Byte>)
    ensures |b| == 4
  {
    [n / 0x100_0000, n / 0x1_0000 % 0x100, n / 0x100 % 0x100, n % 0x100]
  }

  /** `from_be_bytes`. */
  function FromBigEndian(b: seq<Byte>): (n: U32)
    requires |b| == 4
  {
    var b0: int, b1: int, b2: int, b3: int := b[0], b[1], b[2], b[3];
    b0 * 0x100_0000 + b1 * 0x1_0000 + b2 * 0x100 + b3
  }

  lemma BigEndianRoundTrip(n: U32)
    ensures FromBigEndian(BigEndian(n)) == n
  {
    var x, y, z := n / 0x100, n / 0x1_0000, n / 0x100_0000;
    assert n == x * 0x100 + n % 0x100;
    assert x / 0x100 == y && x == y * 0x100 + x % 0x100;
    assert y / 0x100 == z && y == z * 0x100 + y % 0x100;
  }

  lemma FromBigEndianRoundTrip(b: seq<Byte>)
    requires |b| == 4
    ensures BigEndian(FromBigEndian(b)) == b
  {
    var b0: int, b1: int, b2: int, b3: int := b[0], b[1], b[2], b[3];
    var n := FromBigEndian(b);
    assert n / 0x100_0000 == b0;
    assert n / 0x1_0000 == b0 * 0x100 + b1;
    assert n / 0x100 == b0 * 0x1_0000 + b1 * 0x100 + b2;
  }

  /** The low byte of each character, first one on top. */
  function Pack(a: char, b: char, c: char, d: char): (n: U32) {
    (a as int % 0x100) * 0x100_0000 + (b as int % 0x100) * 0x1_0000 + (c as int % 0x100) * 0x100 + d as int % 0x100
  }

  /** The bytes on the wire for a packed command are its characters, truncated to bytes. */
  lemma PackInverts(a: char, b: char, c: char, d: char)
    ensures BigEndian(Pack(a, b, c, d)) == [a as int % 0x100, b as int % 0x100, c as int % 0x100, d as int % 0x100]
  {
    FromBigEndianRoundTrip([a as int % 0x100, b as int % 0x100, c as int % 0x100, d as int % 0x100]);
  }

  datatype Status = Good | Fail

  function StatusFromBytes(bytes: seq<Byte>): Option<Status>
    requires |bytes| == 4
  {
    var n := FromBigEndian(bytes);
    if n == Pack('G', 'O', 'O', 'D') then Some(Good)
    else if n == Pack('F', 'A', 'I', 'L') then Some(Fail)
    else None
  }

  function Bytes(s: string): (b: seq<Byte>)
    ensures |b| == |s|
  {
    seq(|s|, i requires 0 <= i < |s| => s[i] as int % 0x100)
  }

  /** The two words, letter by letter, are the only ones accepted. */
  lemma StatusIff(bytes: seq<Byte>)
    requires |bytes| == 4
    ensures StatusFromBytes(bytes) == Some(Good) <==> bytes == Bytes("GOOD")
    ensures StatusFromBytes(bytes) == Some(Fail) <==> bytes == Bytes("FAIL")
  {
    FromBigEndianRoundTrip(bytes);
    PackInverts('G', 'O', 'O', 'D');
    PackInverts('F', 'A', 'I', 'L');
    BigEndianRoundTrip(Pack('G', 'O', 'O', 'D'));
    BigEndianRoundTrip(Pack('F', 'A', 'I', 'L'));
    assert Bytes("GOOD") == BigEndian(Pack('G', 'O', 'O', 'D'));
    assert Bytes("FAIL") == BigEndian(Pack('F', 'A', 'I', 'L'));
  }

  // ---------------------------------------------------------------- the length

  function Pow2(n: nat): (p: nat)
    ensures p > 0
  {
    if n == 0 then 1 else 2 * Pow2(n - 1)
  }

  /** The last `k` hexadecimal digits of a number. */
  function HexText(n: nat, k: nat): (s: string)
    ensures |s| == k && forall c :: c in s ==> IsLowerHex(c)
    decreases k
  {
    if k == 0 then "" else HexText(n / 16, k - 1) + [DigitChar(n % 16)]
  }

  lemma {:induction false} ParseHexText(n: nat, k: nat)
    requires n < Pow2(4 * k)
    ensures ParseDigits(HexText(n, k), 16) == Some(n)
    decreases k
  {
    if k > 0 {
      FourMore(4 * k - 4);
      var p := Pow2(4 * (k - 1));
      assert n < 16 * p && n / 16 < p;
      ParseHexText(n / 16, k - 1);
      ParseDigitsSnoc(HexText(n / 16, k - 1), DigitChar(n % 16), 16);
      assert n / 16 * 16 + n % 16 == n;
    }
  }

  lemma FourMore(n: nat)
    ensures Pow2(n + 4) == 16 * Pow2(n)
  {
    assert Pow2(n + 4) == 2 * Pow2(n + 3) && Pow2(n + 3) == 2 * Pow2(n + 2) && Pow2(n + 2) == 2 * Pow2(n + 1);
  }

  /** `n >> k`. */
  function Shr(n: nat, k: nat): nat {
    if k == 0 then n else Shr(n, k - 1) / 2
  }

  lemma ShrFour(n: nat, k: nat)
    ensures Shr(n, k + 4) == Shr(n, k) / 16
  {
    assert Shr(n, k + 4) == Shr(n, k + 3) / 2 && Shr(n, k + 3) == Shr(n, k + 2) / 2;
    assert Shr(n, k + 2) == Shr(n, k + 1) / 2;
  }

  lemma {:induction false} ShrFront(n: nat, j: nat)
    ensures Shr(n / 16, 4 * j) == Shr(n, 4 * j + 4)
    decreases j
  {
    ShrFour(n, 4 * j);
    if j > 0 {
      ShrFour(n / 16, 4 * j - 4);
      ShrFront(n, j - 1);
    } else {
      ShrFour(n, 0);
    }
  }

  /** The digits from the left are the nibbles from the top. */
  lemma {:induction false} HexTextAt(n: nat, k: nat, i: nat)
    requires i < k
    ensures HexText(n, k)[i] == DigitChar(Shr(n, 4 * (k - 1 - i)) % 16)
    decreases k
  {
    if i < k - 1 {
      HexTextAt(n / 16, k - 1, i);
      ShrFront(n, k - 2 - i);
    }
  }

  /** The header for a command and a payload length. */
  function HeaderOf(cmd: U32, payloadLen: U32): (h: seq<Byte>)
    ensures |h| == 12
  {
    BigEndian(cmd) + Bytes(HexText(payloadLen, 8))
  }

  /** The second loop of `encode_header`: one hex digit for each four bits, from the top. */
  method EncodeLength(into: array<Byte>, payloadLen: U32)
    requires into.Length == 12
    modifies into
    ensures forall i :: 0 <= i < 4 ==> into[i] == old(into[i])
    ensures forall i :: 4 <= i < 12 ==> into[i] == DigitChar(Shr(payloadLen, 4 * (11 - i)) % 16) as int
  {
    var idx, shift := 4, 28;
    while idx < 12
      invariant 4 <= idx <= 12 && shift == 4 * (11 - idx)
      invariant forall i :: 0 <= i < 4 ==> into[i] == old(into[i])
      invariant forall i :: 4 <= i < idx ==> into[i] == DigitChar(Shr(payloadLen, 4 * (11 - i)) % 16) as int
    {
      var sel := Shr(payloadLen, shift) % 16;
      into[idx] := DigitChar(sel) as int;
      shift := shift - 4;
      idx := idx + 1;
    }
  }

  /** Nibbles from the top are the hex text. */
  lemma NibblesAreText(b: seq<Byte>, n: U32)
    requires |b| == 8 && forall i :: 0 <= i < 8 ==> b[i] == DigitChar(Shr(n, 4 * (7 - i)) % 16) as int
    ensures b == Bytes(HexText(n, 8))
  {
    forall i | 0 <= i < 8 ensures b[i] == Bytes(HexText(n, 8))[i] {
      NibbleAt(n, i);
    }
  }

  lemma NibbleAt(n: U32, i: nat)
    requires i < 8
    ensures Bytes(HexText(n, 8))[i] == DigitChar(Shr(n, 4 * (7 - i)) % 16) as int
  {
    HexTextAt(n, 8, i);
    ByteAt(HexText(n, 8), i);
  }

  lemma ByteAt(text: string, i: nat)
    requires i < |text| && forall c :: c in text ==> IsLowerHex(c)
    ensures Bytes(text)[i] == text[i] as int
  {
    assert text[i] in text;
  }

  /** `encode_header`: fills all twelve bytes. */
  method EncodeHeader(into: array<Byte>, cmd: U32, payloadLen: U32)
    requires into.Length == 12
    modifies into
    ensures into[..] == HeaderOf(cmd, payloadLen)
  {
    var idx := 0;
    var commandBytes := BigEndian(cmd);
    while idx < 4
      invariant 0 <= idx <= 4 && forall i :: 0 <= i < idx ==> into[i] == commandBytes[i]
    {
      into[idx] := commandBytes[idx];
      idx := idx + 1;
    }
    EncodeLength(into, payloadLen);
    assert into[..4] == commandBytes;
    NibblesAreText(into[4..], payloadLen);
    assert into[..] == into[..4] + into[4..];
  }

  function Chars(b: seq<Byte>): (s: string)
    ensures |s| == |b|
  {
    seq(|b|, i requires 0 <= i < |b| => b[i] as char)
  }

  /** `u32::from_str_radix(_, 16)`: one plus sign may come first, and the number has to fit. */
  function FromHex(s: string): Option<U32> {
    var digits := if s != "" && s[0] == '+' then s[1..] else s;
    if digits == "" then None
    else
      match ParseDigits(digits, 16)
      case None => None
      case Some(n) => if n < 0x1_0000_0000 then Some(n) else None
  }

  /** The layout in which `read_response` takes a header apart. */
  function DecodeHeader(h: seq<Byte>): (U32, Option<U32>)
    requires |h| == 12
  {
    (FromBigEndian(h[..4]), FromHex(Chars(h[4..])))
  }

  /** Decoding an encoded header gives back the command and the length, for all 32-bit values. */
  lemma HeaderRoundTrip(cmd: U32, payloadLen: U32)
    ensures DecodeHeader(HeaderOf(cmd, payloadLen)) == (cmd, Some(payloadLen))
  {
    var h, text := HeaderOf(cmd, payloadLen), HexText(payloadLen, 8);
    assert h[..4] == BigEndian(cmd) && h[4..] == Bytes(text);
    BigEndianRoundTrip(cmd);
    CharsOfBytes(text);
    LengthRoundTrip(payloadLen);
  }

  lemma CharsOfBytes(s: string)
    requires forall c :: c in s ==> IsLowerHex(c)
    ensures Chars(Bytes(s)) == s
  {
    forall i | 0 <= i < |s| ensures Chars(Bytes(s))[i] == s[i] {
      assert s[i] in s;
    }
  }

  lemma LengthRoundTrip(n: U32)
    ensures FromHex(HexText(n, 8)) == Some(n)
  {
    Powers();
    ParseHexText(n, 8);
    FromHexDigits(HexText(n, 8), n);
  }

  lemma FromHexDigits(text: string, n: U32)
    requires text != "" && (forall c :: c in text ==> IsLowerHex(c)) && ParseDigits(text, 16) == Some(n)
    ensures FromHex(text) == Some(n)
  {
    assert text[0] in text;
  }

  lemma Powers()
    ensures Pow2(28) == 0x1000_0000 && Pow2(32) == 0x1_0000_0000
  {
    FourMore(28); FourMore(24); FourMore(20); FourMore(16); FourMore(12); FourMore(8); FourMore(4); FourMore(0);
  }

  lemma {:induction false} ParseDigitsIff(s: string)
    ensures ParseDigits(s, 16).Some? <==> forall c :: c in s ==> DigitValue(c) < 16
    ensures ParseDigits(s, 16).Some? ==> ParseDigits(s, 16).value < Pow2(4 * |s|)
  {
    if s != [] {
      var init := s[..|s| - 1];
      ParseDigitsIff(init);
      assert s == init + [s[|s| - 1]];
      FourMore(4 * |init|);
    }
  }

  /** A length field is accepted exactly when it is eight hex digits, or a plus sign and seven. */
  lemma LengthAcceptedIff(field: string)
    requires |field| == 8
    ensures FromHex(field).Some? <==>
            (DigitValue(field[0]) < 16 || field[0] == '+') && forall i :: 1 <= i < 8 ==> DigitValue(field[i]) < 16
  {
    ParseDigitsIff(field);
    ParseDigitsIff(field[1..]);
    Powers();
    AllDigits(field);
  }

  lemma AllDigits(field: string)
    requires field != ""
    ensures var rest := forall i :: 1 <= i < |field| ==> DigitValue(field[i]) < 16;
            && ((forall c :: c in field[1..] ==> DigitValue(c) < 16) <==> rest)
            && ((forall c :: c in field ==> DigitValue(c) < 16) <==> DigitValue(field[0]) < 16 && rest)
  {
    assert forall i :: 1 <= i < |field| ==> field[i] == field[1..][i - 1] && field[i] in field[1..];
    assert field == [field[0]] + field[1..];
  }
}

/** What the application reads of text that its users may write and the printer does not. */
module AppInputs {
  import opened Prelude
  import opened Numbers
  import opened Wire
  import opened Escape
  import opened ParcelStrings
  import opened AppReader
  import opened AppReading

  lemma Tagged(r: Reader, tag: string, s: string, p: Prefix)
    requires |tag| == 4 && FindPrefix(r, tag) == Some(p)
    ensures Read(r, tag + s) == ReadBody(r, p, s)
  {
    assert (tag + s)[..4] == tag && (tag + s)[4..] == s;
  }

  lemma TagsOfApp(r: Reader)
    ensures FindPrefix(r, "BYTE") == Some(PByte) && FindPrefix(r, "BOOL") == Some(PBool)
    ensures FindPrefix(r, "BARR") == Some(PByteArray) && FindPrefix(DeviceApp, "LIST") == Some(PList)
  {
  }

  lemma HexOfOne(b: Numbers.Byte)
    ensures HexOf([b]) == [DigitChar(b / 16), DigitChar(b % 16)]
  {
    assert [b][1..] == [];
  }

  lemma NibblesOf(b: Numbers.Byte)
    ensures ByteFromNibbles(DigitChar(b / 16), DigitChar(b % 16)) == Some(b)
  {
  }

  /** A byte is read from its two hexadecimal digits, whatever follows them. */
  lemma ByteFromDigits(b: Numbers.Byte, more: string)
    ensures Read(DeviceApp, "BYTE" + (HexOf([b]) + more)) == Some(VByte(b))
  {
    var s := HexOf([b]) + more;
    HexOfOne(b);
    NibblesOf(b);
    assert s[0] == DigitChar(b / 16) && s[1] == DigitChar(b % 16);
    TagsOfApp(DeviceApp);
    Tagged(DeviceApp, "BYTE", s, PByte);
  }

  /** Bytes may be written with `0x` in front or without. */
  lemma {:induction false} BytesFromDigits(r: Reader, bytes: seq<Numbers.Byte>)
    ensures Read(r, "BARR" + HexOf(bytes)) == Some(VByteArray(bytes))
    ensures Read(r, "BARR" + ("0x" + HexOf(bytes))) == Some(VByteArray(bytes))
  {
    var hex := HexOf(bytes);
    HexOfIsLowerHex(bytes);
    HexHasNoPrefix(hex);
    ReadsHexText(r, hex);
    BytesOfHexOf(bytes);
    EvenLength(bytes);
    TagsOfApp(r);
    Tagged(r, "BARR", hex, PByteArray);
    Tagged(r, "BARR", "0x" + hex, PByteArray);
    PrefixIsDropped(r, hex);
  }

  lemma PrefixIsDropped(r: Reader, hex: string)
    requires !("0x" <= hex)
    ensures ReadBody(r, PByteArray, "0x" + hex) == ReadBody(r, PByteArray, hex) == ReadScalar(r, PByteArray, hex)
  {
    assert ("0x" + hex)[2..] == hex && "0x" <= "0x" + hex;
  }

  /** A boolean is true for `true` in any mixture of cases, and false for any other text. */
  lemma BoolFromText(r: Reader, s: string)
    ensures Read(r, "BOOL" + s) == Some(VBool(true)) <==>
            |s| == 4 && s[0] in "tT" && s[1] in "rR" && s[2] in "uU" && s[3] in "eE"
    ensures Read(r, "BOOL" + s) == Some(VBool(true)) || Read(r, "BOOL" + s) == Some(VBool(false))
  {
    TagsOfApp(r);
    Tagged(r, "BOOL", s, PBool);
    if |s| == 4 {
      var l := Lower(s);
      assert l == "true" <==> l[0] == 't' && l[1] == 'r' && l[2] == 'u' && l[3] == 'e';
    }
  }

  /** The application's own escapes: backspace, a byte, and a code unit whose low byte is sign-extended. */
  lemma AppEscapes(b: Numbers.Byte, h: Numbers.Byte, rest: string)
    ensures UnescapeApp("\\b" + rest) == Cons(8 as char, UnescapeApp(rest))
    ensures UnescapeApp("\\x" + (HexOf([b]) + rest)) ==
            Cons(if 33 <= b <= 125 then b as char else '.', UnescapeApp(rest))
    ensures b < 0x80 && IsScalar(h * 0x100 + b) ==>
              UnescapeApp("\\u" + (HexOf([h]) + (HexOf([b]) + rest)))
              == Cons((h * 0x100 + b) as char, UnescapeApp(rest))
    ensures b >= 0x80 ==>
              UnescapeApp("\\u" + (HexOf([h]) + (HexOf([b]) + rest))) == Cons((0xFF00 + b) as char, UnescapeApp(rest))
  {
    HexOfOne(b);
    HexOfOne(h);
    NibblesOf(b);
    NibblesOf(h);
    var s := "\\b" + rest;
    assert s[0] == '\\' && s[1] == 'b' && s[2..] == rest;
    var x := "\\x" + (HexOf([b]) + rest);
    assert x[0] == '\\' && x[1] == 'x' && x[2] == HexOf([b])[0] && x[3] == HexOf([b])[1] && x[4..] == rest;
    var u := "\\u" + (HexOf([h]) + (HexOf([b]) + rest));
    assert u[0] == '\\' && u[1] == 'u' && u[2] == HexOf([h])[0] && u[3] == HexOf([h])[1];
    assert u[4] == HexOf([b])[0] && u[5] == HexOf([b])[1] && u[6..] == rest;
  }

  /** What a bundle cannot hold. */
  lemma PutKinds(e: Elem)
    ensures CanPut(Val(e)) <==>
            !(e.Null? || e.WriteFd? || e.ReadFd? || e.Map? || e.List? || e.Complex? || e.Message?)
  {
  }

  /** Lists lack nothing but their tag: under the one the application knows they read back like other containers. */
  lemma {:induction false} ListUnderItsTag(es: seq<Elem>)
    requires AllElems(HasData, es) && AllElems(HexIsHex, es)
    ensures Read(DeviceApp, "LIST" + Join(":", ShowElems(es))) == Some(VList(Vals(es)))
            <==> ElemsReadable(DeviceApp, ':', es, {})
  {
    var uss := ElemsUnits(es);
    ShowElemsIsUnits(es);
    RenderJoin(':', uss);
    assert [':'] == ":";
    var joined := Join([Bare(':')], uss);
    StripNothing(joined);
    ExactElems(DeviceApp, ':', es, {}, joined);
    ReadsList(Join(":", ShowElems(es)), Vals(es));
  }

  lemma ListBody(s: string, want: seq<Value>)
    ensures ReadBody(DeviceApp, PList, s) == Some(VList(want))
            <==> ReadAll(DeviceApp, EscapeSplit(':', s)) == Some(want)
  {
  }

  lemma ReadsList(s: string, want: seq<Value>)
    ensures Read(DeviceApp, "LIST" + s) == Some(VList(want)) <==> ReadAll(DeviceApp, EscapeSplit(':', s)) == Some(want)
  {
    TagsOfApp(DeviceApp);
    Tagged(DeviceApp, "LIST", s, PList);
    ListBody(s, want);
  }

  lemma FirstNumber(n: I32, rest: seq<Unit>)
    requires Neutral(rest)
    ensures EscapeSplit('%', Render(Bares(ShowInt(n)) + [Bare('%')] + rest))
            == [ShowInt(n)] + EscapeSplit('%', Render(rest))
    ensures Neutral(Bares(ShowInt(n)) + [Bare('%')] + rest)
  {
    var q := Bares(ShowInt(n)) + [Bare('%')] + rest;
    NumberIsInert(n);
    InertBares(ShowInt(n));
    assert BACKSLASH in SPECIAL;
    var tail := NumberPiece(n, true, rest, q);
    SameBehind(Bares(ShowInt(n)), tail, rest);
    assert |q| > |Bares(ShowInt(n))|;
  }

  /** Three numbers and a last `%`, as an empty bundle would print, read as a message without data. */
  lemma EmptyBundleText(r: Reader, what: I32, arg1: I32, arg2: I32)
    ensures Read(r, "_MSG" + (ShowInt(what) + "%" + ShowInt(arg1) + "%" + ShowInt(arg2) + "%"))
            == Some(VMessage(what, arg1, arg2, NoPuts))
  {
    var last := Bares(ShowInt(arg2)) + [Bare('%')] + [];
    var second := Bares(ShowInt(arg1)) + [Bare('%')] + last;
    FirstNumber(arg2, []);
    FirstNumber(arg1, last);
    FirstNumber(what, second);
    var s := ShowInt(what) + "%" + ShowInt(arg1) + "%" + ShowInt(arg2) + "%";
    NumbersText(what, arg1, arg2);
    SplitHead('%', []);
    TwoFirst(ShowInt(what), ShowInt(arg1), [ShowInt(arg2)] + []);
    ReadMessageNumbers(r, what, arg1, arg2, []);
    MessageTag(r);
    Tagged(r, "_MSG", s, PMessage);
    MessageBody(r, s);
  }

  lemma NumbersText(what: I32, arg1: I32, arg2: I32)
    ensures Render(Bares(ShowInt(what)) + [Bare('%')]
              + (Bares(ShowInt(arg1)) + [Bare('%')] + (Bares(ShowInt(arg2)) + [Bare('%')] + [])))
            == ShowInt(what) + "%" + ShowInt(arg1) + "%" + ShowInt(arg2) + "%"
  {
    var last := Bares(ShowInt(arg2)) + [Bare('%')] + [];
    RenderAround(Bares(ShowInt(what)), '%', Bares(ShowInt(arg1)) + [Bare('%')] + last);
    RenderAround(Bares(ShowInt(arg1)), '%', last);
    RenderAround(Bares(ShowInt(arg2)), '%', []);
    RenderBares(ShowInt(what));
    RenderBares(ShowInt(arg1));
    RenderBares(ShowInt(arg2));
    FourTexts(ShowInt(what), ShowInt(arg1), ShowInt(arg2));
  }

  lemma FourTexts(a: string, b: string, c: string)
    ensures a + ['%'] + (b + ['%'] + (c + ['%'] + "")) == a + "%" + b + "%" + c + "%"
  {
  }
}

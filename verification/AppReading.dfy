/** Exactly which values survive the trip from the printer to a reader. */
module AppReading {
  import opened Prelude
  import opened Numbers
  import opened Wire
  import opened Escape
  import opened ParcelStrings
  import opened AppReader

  // ---------------------------------------------------------------- the value a reader should produce

  function ScalarVal(e: Elem): Value
    requires !IsContainer(e)
  {
    match e
    case Long(v) => VLong(v)
    case Int(v) => VInt(v)
    case Short(v) => VShort(v)
    case Byte(v) => VByte(v)
    case Bool(v) => VBool(v)
    case Double(v) => VDouble(v)
    case Float(v) => VFloat(v)
    case Binder => VBinder
    case Null => VNull
    case WriteFd(v) => VWriteFd(v)
    case ReadFd(v) => VReadFd(v)
    case Str(v) => VString(v)
    case RawByteArray(v) => VByteArray(v)
    case HexByteArray(v) => VByteArray(BytesOf(v))
  }

  function Val(e: Elem): Value
    decreases e
  {
    if !IsContainer(e) then ScalarVal(e)
    else
      match e
      case Bundle(v) => VBundle(PutsOf(v))
      case Map(v) => VMap(PairsOf(v))
      case List(v) => VList(Vals(v))
      case Complex(v) => VCombined(Vals(v))
      case Message(what, arg1, arg2, data) =>
        VMessage(what, arg1, arg2, if data.Data? then Puts(PutsOf(data.entries)) else NoPuts)
  }

  /** The bytes a hexadecimal text stands for; an odd last digit stands for nothing. */
  function BytesOf(hex: string): seq<Byte>
    decreases |hex|
  {
    if |hex| < 2 then []
    else [(DigitValue(hex[0]) % 16) * 16 + DigitValue(hex[1]) % 16] + BytesOf(hex[2..])
  }

  function Vals(es: seq<Elem>): (r: seq<Value>)
    ensures |r| == |es|
    decreases es
  {
    if es == [] then [] else [Val(es[0])] + Vals(es[1..])
  }

  function PutOf(entry: Entry): Put
    decreases entry
  {
    Put(entry.key, Val(entry.value))
  }

  function PutsOf(entries: seq<Entry>): (r: seq<Put>)
    ensures |r| == |entries|
    decreases entries
  {
    if entries == [] then [] else [PutOf(entries[0])] + PutsOf(entries[1..])
  }

  function PairOf(pair: Pair): ValuePair
    decreases pair
  {
    ValuePair(Val(pair.key), Val(pair.value))
  }

  function PairsOf(pairs: seq<Pair>): (r: seq<ValuePair>)
    ensures |r| == |pairs|
    decreases pairs
  {
    if pairs == [] then [] else [PairOf(pairs[0])] + PairsOf(pairs[1..])
  }

  // ---------------------------------------------------------------- the exact condition

  predicate AllPlain(s: string) {
    forall c :: c in s ==> IsPlain(c)
  }

  predicate TextReadable(r: Reader, s: string) {
    r.Reference? || AllPlain(s)
  }

  /** Once the separators in `stripped` have been split at, does the text show `sep` unescaped? */
  predicate Exposes(sep: char, stripped: set<char>, us: seq<Unit>) {
    Bare(sep) in Strip(stripped, us)
  }

  /** The application cannot read the printer's bytes or infinities, nor text outside printable ASCII. */
  predicate ScalarReadable(r: Reader, e: Elem)
    requires !IsContainer(e)
  {
    if IsText(e) then TextReadable(r, TextOf(e))
    else if e.Byte? then r.Reference?
    else if e.Double? then r.Reference? || !IsInfinity(e.f64)
    else if e.Float? then r.Reference? || !IsInfinity(e.f32)
    else e.HexByteArray? ==> |e.hex| % 2 == 0
  }

  /**
   * What reading back takes, for a value whose enclosing levels were split at `stripped`:
   * no element may expose the separator it is split at, and the application cannot read lists
   * or bundle values it has no `put` for.
   */
  predicate Readable(r: Reader, e: Elem, stripped: set<char>)
    decreases e
  {
    if !IsContainer(e) then ScalarReadable(r, e)
    else
      match e
      case Bundle(v) => EntriesReadable(r, ':', '=', r.Reference?, v, stripped)
      case Map(v) => PairsReadable(r, v, stripped)
      case List(v) => r.Reference? && ElemsReadable(r, ':', v, stripped)
      case Complex(v) => ElemsReadable(r, '|', v, stripped)
      case Message(_, _, _, data) => data.Data? ==> DataReadable(r, data, stripped)
  }

  predicate DataReadable(r: Reader, data: Data, stripped: set<char>)
    requires data.Data?
    decreases data
  {
    && !Exposes('%', stripped, Join([Bare(':')], EntriesUnits('=', data.entries)))
    && EntriesReadable(r, ':', '=', r.Reference?, data.entries, stripped + {'%'})
  }

  predicate ElemsReadable(r: Reader, sep: char, es: seq<Elem>, stripped: set<char>)
    decreases es
  {
    es != [] ==>
      && !Exposes(sep, stripped, Units(es[0]))
      && Readable(r, es[0], stripped + {sep})
      && ElemsReadable(r, sep, es[1..], stripped)
  }

  predicate EntryReadable(r: Reader, kv: char, any: bool, entry: Entry, stripped: set<char>)
    decreases entry
  {
    && !Exposes(kv, stripped, TextUnits(entry.key))
    && !Exposes(kv, stripped, Units(entry.value))
    && TextReadable(r, entry.key)
    && Readable(r, entry.value, stripped + {kv})
    && (any || CanPut(Val(entry.value)))
  }

  predicate EntriesReadable(r: Reader, sep: char, kv: char, any: bool, entries: seq<Entry>, stripped: set<char>)
    decreases entries
  {
    entries != [] ==>
      && !Exposes(sep, stripped, EntryUnits(kv, entries[0]))
      && EntryReadable(r, kv, any, entries[0], stripped + {sep})
      && EntriesReadable(r, sep, kv, any, entries[1..], stripped)
  }

  predicate PairReadable(r: Reader, pair: Pair, stripped: set<char>)
    decreases pair
  {
    && !Exposes('=', stripped, Units(pair.key))
    && !Exposes('=', stripped, Units(pair.value))
    && Readable(r, pair.key, stripped + {'='})
    && Readable(r, pair.value, stripped + {'='})
  }

  predicate PairsReadable(r: Reader, pairs: seq<Pair>, stripped: set<char>)
    decreases pairs
  {
    pairs != [] ==>
      && !Exposes(':', stripped, PairUnits(pairs[0]))
      && PairReadable(r, pairs[0], stripped + {':'})
      && PairsReadable(r, pairs[1..], stripped)
  }

  // ---------------------------------------------------------------- the splitter on units

  lemma ScanOne(sep: char, u: Unit, tail: string, part: string, started: bool)
    requires sep != BACKSLASH && u != Bare(sep) && u != Bare(BACKSLASH)
    ensures Scan(sep, RenderUnit(u) + tail, part, started, false)
            == Scan(sep, tail, part + RenderUnit(StripUnit({sep}, u)), true, false)
  {
    var s := RenderUnit(u) + tail;
    match u
    case Bare(c) => assert s[1..] == tail;
    case Esc(c) => assert s[1..][1..] == tail;
  }

  lemma ScanSeparator(sep: char, tail: string, part: string, started: bool)
    requires sep != BACKSLASH
    ensures Scan(sep, [sep] + tail, part, started, false) == [part] + Scan(sep, tail, "", false, false)
  {
    assert ([sep] + tail)[1..] == tail;
  }

  lemma UpToStep(sep: char, us: seq<Unit>)
    requires us != [] && us[0] != Bare(sep)
    ensures Render(Strip({sep}, UpTo(sep, us)))
            == RenderUnit(StripUnit({sep}, us[0])) + Render(Strip({sep}, UpTo(sep, us[1..])))
    ensures After(sep, us) == After(sep, us[1..])
  {
    var r := Strip({sep}, UpTo(sep, us));
    assert r[0] == StripUnit({sep}, us[0]) && r[1..] == Strip({sep}, UpTo(sep, us[1..]));
  }

  lemma {:induction false} ScanUnits(sep: char, us: seq<Unit>, part: string, started: bool)
    requires sep != BACKSLASH && Neutral(us)
    ensures Scan(sep, Render(us), part, started, false) ==
            if us == [] then if started then [part] else []
            else [part + Render(Strip({sep}, UpTo(sep, us)))] + Scan(sep, Render(After(sep, us)), "", false, false)
    decreases |us|
  {
    if us != [] {
      var rest, tail := us[1..], Render(us[1..]);
      if us[0] == Bare(sep) {
        ScanSeparator(sep, tail, part, started);
        assert Strip({sep}, UpTo(sep, us)) == [] && part + "" == part;
        assert After(sep, us) == rest;
      } else {
        var grown := part + RenderUnit(StripUnit({sep}, us[0]));
        ScanOne(sep, us[0], tail, part, started);
        ScanUnits(sep, rest, grown, true);
        UpToStep(sep, us);
        var shown := Render(Strip({sep}, UpTo(sep, rest)));
        assert grown + shown == part + (RenderUnit(StripUnit({sep}, us[0])) + shown);
        if rest == [] {
          assert shown == "" && grown + shown == grown;
        }
      }
    }
  }

  /** One piece of the splitter's output. */
  lemma SplitHead(sep: char, us: seq<Unit>)
    requires sep != BACKSLASH && Neutral(us)
    ensures EscapeSplit(sep, Render(us)) ==
            if us == [] then []
            else [Render(Strip({sep}, UpTo(sep, us)))] + EscapeSplit(sep, Render(After(sep, us)))
  {
    ScanUnits(sep, us, "", false);
    if us != [] {
      assert "" + Render(Strip({sep}, UpTo(sep, us))) == Render(Strip({sep}, UpTo(sep, us)));
    }
  }

  // ---------------------------------------------------------------- scalars

  lemma {:induction false} HexReads(hex: string)
    requires forall c :: c in hex ==> DigitValue(c) < 16
    ensures HexToBytes(hex) == if |hex| % 2 == 0 then Some(BytesOf(hex)) else None
    decreases |hex|
  {
    if |hex| >= 2 {
      assert hex[0] in hex && hex[1] in hex;
      HexReads(hex[2..]);
      HexPair(hex);
    } else if |hex| == 1 {
      assert hex[0] in hex;
    }
  }

  lemma HexPair(hex: string)
    requires |hex| >= 2 && DigitValue(hex[0]) < 16 && DigitValue(hex[1]) < 16
    ensures BytesOf(hex) == [DigitValue(hex[0]) * 16 + DigitValue(hex[1])] + BytesOf(hex[2..])
    ensures |hex[2..]| % 2 == |hex| % 2
  {
    SmallDigit(DigitValue(hex[0]));
    SmallDigit(DigitValue(hex[1]));
    TwoLess(|hex|);
  }

  lemma TwoLess(n: nat)
    requires n >= 2
    ensures (n - 2) % 2 == n % 2
  {
  }

  lemma SmallDigit(d: nat)
    requires d < 16
    ensures d % 16 == d
  {
  }

  lemma {:induction false} BytesOfHexOf(bytes: seq<Numbers.Byte>)
    ensures BytesOf(HexOf(bytes)) == bytes
  {
    if bytes != [] {
      BytesOfHexOf(bytes[1..]);
      assert HexOf(bytes)[2..] == HexOf(bytes[1..]);
    }
  }

  lemma HexHasNoPrefix(hex: string)
    requires forall c :: c in hex ==> DigitValue(c) < 16
    ensures !("0x" <= hex)
  {
    if |hex| >= 2 {
      assert hex[1] in hex;
    }
  }

  /** The application reads two hexadecimal digits where the printer wrote a decimal number. */
  lemma BytesNeverReadBack(v: Numbers.Byte)
    ensures ReadByte(DeviceApp, ShowInt(v)) != Some(v)
  {
    if v >= 10 {
      var tens := v / 10;
      assert Digits(v, 10) == Digits(tens, 10) + [DigitChar(v % 10)];
      if tens < 10 {
        assert Digits(tens, 10) == [DigitChar(tens)];
      } else {
        assert Digits(tens, 10) == Digits(tens / 10, 10) + [DigitChar(tens % 10)];
        assert Digits(tens / 10, 10) == [DigitChar(tens / 10)];
      }
    }
  }

  /** The enumeration entry that names the class for a value. */
  function PrefixOf(e: Elem): Prefix {
    match e
    case Long(_) => PLong
    case Int(_) => PInt
    case Short(_) => PShort
    case Byte(_) => PByte
    case Bool(_) => PBool
    case Double(_) => PDouble
    case Float(_) => PFloat
    case Binder => PBinder
    case Null => PNull
    case WriteFd(_) => PWriteFd
    case ReadFd(_) => PReadFd
    case Str(_) => PString
    case RawByteArray(_) => PByteArray
    case HexByteArray(_) => PByteArray
    case Bundle(_) => PBundle
    case Map(_) => PMap
    case List(_) => PList
    case Complex(_) => PCombined
    case Message(_, _, _, _) => PMessage
  }

  lemma ContainerTagsAgree(r: Reader, e: Elem)
    requires IsContainer(e)
    ensures FindPrefix(r, Tag(e)) == if e.List? && r.DeviceApp? then None else Some(PrefixOf(e))
  {
    if e.Bundle? {
      BundleTag(r);
      assert Tag(e) == "BUND";
    } else if e.Map? {
      MapTag(r);
      assert Tag(e) == "_MAP";
    } else if e.List? {
      ListTag(r);
      assert Tag(e) == "_LST";
    } else if e.Complex? {
      CombinedTag(r);
      assert Tag(e) == "_CMB";
    } else {
      MessageTag(r);
      assert Tag(e) == "_MSG";
    }
  }

  lemma BundleTag(r: Reader)
    ensures FindPrefix(r, "BUND") == Some(PBundle)
  {
  }

  lemma MapTag(r: Reader)
    ensures FindPrefix(r, "_MAP") == Some(PMap)
  {
  }

  lemma CombinedTag(r: Reader)
    ensures FindPrefix(r, "_CMB") == Some(PCombined)
  {
  }

  lemma MessageTag(r: Reader)
    ensures FindPrefix(r, "_MSG") == Some(PMessage)
  {
  }

  lemma ListTag(r: Reader)
    ensures FindPrefix(r, "_LST") == if r.DeviceApp? then None else Some(PList)
  {
  }

  /** The tags of printer and application agree on everything but lists. */
  lemma TagsAgree(r: Reader, e: Elem)
    ensures FindPrefix(r, Tag(e)) == if e.List? && r.DeviceApp? then None else Some(PrefixOf(e))
  {
    if IsContainer(e) {
      ContainerTagsAgree(r, e);
    }
  }

  lemma ExactByte(r: Reader, e: Elem)
    requires e.Byte?
    ensures ReadScalar(r, PByte, ShowInt(e.u8)) == Some(VByte(e.u8)) <==> ScalarReadable(r, e)
  {
    ParseIntOfShowInt(e.u8, 0, 255);
    BytesNeverReadBack(e.u8);
  }

  lemma ExactNumber(r: Reader, e: Elem)
    requires e.Byte? || e.Long? || e.Int? || e.Short?
    ensures ReadScalar(r, PrefixOf(e), PlainText(e)) == Some(ScalarVal(e)) <==> ScalarReadable(r, e)
  {
    if e.Byte? {
      ExactByte(r, e);
    } else if e.Long? {
      ReadsLong(r, e.i64);
    } else if e.Int? {
      ReadsInt(r, e.i32);
    } else {
      ReadsShort(r, e.i16);
    }
  }

  lemma ReadsLong(r: Reader, v: I64)
    ensures ReadScalar(r, PLong, ShowInt(v)) == Some(VLong(v))
  {
    ParseIntOfShowInt(v, -0x8000_0000_0000_0000, 0x7FFF_FFFF_FFFF_FFFF);
  }

  lemma ReadsInt(r: Reader, v: I32)
    ensures ReadScalar(r, PInt, ShowInt(v)) == Some(VInt(v))
  {
    ParseIntOfShowInt(v, -0x8000_0000, 0x7FFF_FFFF);
  }

  lemma ReadsShort(r: Reader, v: I16)
    ensures ReadScalar(r, PShort, ShowInt(v)) == Some(VShort(v))
  {
    ParseIntOfShowInt(v, -0x8000, 0x7FFF);
  }

  lemma ReadsHexText(r: Reader, hex: string)
    requires forall c :: c in hex ==> DigitValue(c) < 16
    ensures ReadScalar(r, PByteArray, hex) == if |hex| % 2 == 0 then Some(VByteArray(BytesOf(hex))) else None
  {
    HexHasNoPrefix(hex);
    HexReads(hex);
  }

  lemma ExactHex(r: Reader, e: Elem)
    requires e.RawByteArray? || (e.HexByteArray? && HexIsHex(e))
    ensures ReadScalar(r, PrefixOf(e), PlainText(e)) == Some(ScalarVal(e)) <==> ScalarReadable(r, e)
  {
    if e.RawByteArray? {
      HexOfIsLowerHex(e.bytes);
      ReadsHexText(r, HexOf(e.bytes));
      BytesOfHexOf(e.bytes);
      EvenLength(e.bytes);
    } else {
      ReadsHexText(r, e.hex);
    }
  }

  lemma EvenLength(bytes: seq<Numbers.Byte>)
    ensures |HexOf(bytes)| % 2 == 0
  {
    HexOfIsLowerHex(bytes);
  }

  lemma ExactPlain(r: Reader, e: Elem)
    requires !IsContainer(e) && !IsText(e) && HexSafe(e)
    ensures ReadScalar(r, PrefixOf(e), PlainText(e)) == Some(ScalarVal(e)) <==> ScalarReadable(r, e)
  {
    if e.Byte? || e.Long? || e.Int? || e.Short? {
      ExactNumber(r, e);
    } else if e.RawByteArray? || e.HexByteArray? {
      ExactHex(r, e);
    } else if e.Bool? {
      ExactBool(e.flag);
    }
  }

  lemma ExactBool(b: bool)
    ensures Lower(ShowBool(b)) == "true" <==> b
  {
    assert Lower(ShowBool(b)) == ShowBool(b);
    assert |"true"| == 4 && |"false"| == 5;
  }

  // ---------------------------------------------------------------- text

  lemma AppUnescapeBackslash(c: char, rest: string)
    requires NeedsBackslash(c)
    ensures UnescapeApp([BACKSLASH, LetterEscape(c)] + rest) == Cons(c, UnescapeApp(rest))
  {
    var s, d := [BACKSLASH, LetterEscape(c)] + rest, LetterEscape(c);
    assert |s| >= 2 && s[0] == BACKSLASH && s[1] == d && s[2..] == rest;
    LetterIsRead(c);
  }

  /** The letter behind a backslash is none of those that open a longer escape. */
  lemma LetterIsRead(c: char)
    requires NeedsBackslash(c)
    ensures var d := LetterEscape(c);
            if c == '\n' then d == 'n' else if c == '\r' then d == 'r' else if c == '\t' then d == 't'
            else d == c && d !in {'n', 't', 'b', 'r', 'x', 'u'}
  {
  }

  lemma AppUnescapeUnicode(c: char, rest: string)
    requires !IsPlain(c)
    ensures UnescapeApp(UnicodeEscape(c) + rest) == None
  {
    var s := UnicodeEscape(c) + rest;
    assert s[0] == BACKSLASH && s[1] == 'u' && s[2] == '{';
    assert Nibble('{') == None;
  }

  lemma AppUnescapeChar(stripped: set<char>, c: char, rest: string)
    requires stripped <= DELIMITERS
    ensures UnescapeApp(Render(Strip(stripped, CharUnits(c))) + rest) ==
            if IsPlain(c) then Cons(c, UnescapeApp(rest)) else None
  {
    StripChar(stripped, c);
    if NeedsBackslash(c) && c !in stripped {
      AppUnescapeBackslash(c, rest);
    } else if IsPlain(c) {
      AppUnescapeBare(c, rest);
    } else {
      AppUnescapeUnicode(c, rest);
    }
  }

  lemma AppUnescapeBare(c: char, rest: string)
    requires c != BACKSLASH
    ensures UnescapeApp([c] + rest) == Cons(c, UnescapeApp(rest))
  {
    assert ([c] + rest)[1..] == rest;
  }

  lemma {:induction false} AppUnescapeText(stripped: set<char>, s: string)
    requires stripped <= DELIMITERS
    ensures UnescapeApp(Render(Strip(stripped, TextUnits(s)))) == if AllPlain(s) then Some(s) else None
  {
    if s == "" {
      assert Strip(stripped, TextUnits(s)) == [];
    } else {
      var tail := Strip(stripped, TextUnits(s[1..]));
      assert s == [s[0]] + s[1..];
      StripAppend(stripped, CharUnits(s[0]), TextUnits(s[1..]));
      RenderAppend(Strip(stripped, CharUnits(s[0])), tail);
      AppUnescapeChar(stripped, s[0], Render(tail));
      AppUnescapeText(stripped, s[1..]);
    }
  }

  /** A text can only be cut between two of its characters. */
  lemma {:induction false} CutText(stripped: set<char>, s: string, q: seq<Unit>) returns (m: nat)
    requires stripped <= DELIMITERS && Cut(DELIMITERS, q, Strip(stripped, TextUnits(s)))
    ensures m <= |s| && q == Strip(stripped, TextUnits(s[..m]))
    ensures m == |s| <==> q == Strip(stripped, TextUnits(s))
  {
    if s == "" || q == [] {
      m := 0;
      assert Strip(stripped, TextUnits("")) == [];
      assert s != "" ==> |TextUnits(s)| >= 1;
    } else {
      var u, tail := Strip(stripped, CharUnits(s[0])), Strip(stripped, TextUnits(s[1..]));
      StripAppend(stripped, CharUnits(s[0]), TextUnits(s[1..]));
      CharCutWhole(stripped, s[0], tail, q);
      var k := CutText(stripped, s[1..], q[|u|..]);
      m := k + 1;
      assert s[..m][0] == s[0] && s[..m][1..] == s[1..][..k];
      StripAppend(stripped, CharUnits(s[0]), TextUnits(s[1..][..k]));
      assert q == u + q[|u|..];
    }
  }

  lemma CharCutWhole(stripped: set<char>, c: char, tail: seq<Unit>, q: seq<Unit>)
    requires stripped <= DELIMITERS && q != []
    requires Cut(DELIMITERS, q, Strip(stripped, CharUnits(c)) + tail)
    ensures var u := Strip(stripped, CharUnits(c));
            u <= q && Cut(DELIMITERS, q[|u|..], tail)
  {
    var u := Strip(stripped, CharUnits(c));
    CharInside(stripped, c);
    assert forall i :: 0 <= i < |u| ==> (u + tail)[i] == u[i];
    assert (u + tail)[|u|..] == tail;
  }

  lemma CharInside(stripped: set<char>, c: char)
    requires stripped <= DELIMITERS
    ensures var u := Strip(stripped, CharUnits(c));
            forall i :: 0 < i < |u| ==> u[i].Bare? && u[i].c !in DELIMITERS
  {
    var us := CharUnits(c);
    if !IsPlain(c) {
      var hex := Digits(c as int, 16);
      assert forall d :: d in hex ==> IsLowerHex(d);
      forall i | 0 < i < |us| ensures us[i].Bare? && us[i].c !in DELIMITERS {
        if 2 <= i < |us| - 1 {
          assert us[i] == Bare(hex[i - 2]) && hex[i - 2] in hex;
        }
      }
    }
  }

  lemma ExactText(r: Reader, stripped: set<char>, s: string, q: seq<Unit>)
    requires stripped <= DELIMITERS && Cut(DELIMITERS, q, Strip(stripped, TextUnits(s)))
    ensures UnescapeText(r, Render(q)) == Some(s)
            <==> q == Strip(stripped, TextUnits(s)) && TextReadable(r, s)
  {
    var m := CutText(stripped, s, q);
    UnescapeStripped(stripped, s[..m]);
    AppUnescapeText(stripped, s[..m]);
    if m < |s| {
      assert s[..m] != s;
    } else {
      assert s[..m] == s;
    }
  }

  // ---------------------------------------------------------------- pieces of a cut text

  lemma CutStrip(t: set<char>, p: seq<Unit>, us: seq<Unit>)
    requires Cut(DELIMITERS, p, us)
    ensures Cut(DELIMITERS, Strip(t, p), Strip(t, us))
    ensures Strip(t, p) == Strip(t, us) <==> p == us
  {
    assert |p| == |us| ==> p == us;
    assert |Strip(t, p)| == |p| && |Strip(t, us)| == |us|;
  }

  lemma StripNeutral(stripped: set<char>, us: seq<Unit>)
    requires stripped <= DELIMITERS && Neutral(us)
    ensures Neutral(Strip(stripped, us))
  {
    var r := Strip(stripped, us);
    forall u | u in r ensures u != Bare(BACKSLASH) {
      var i :| 0 <= i < |r| && r[i] == u;
      assert us[i] in us;
    }
  }

  /**
   * The first piece of a cut text whose full form starts with the part `u0`: it is a cut of `u0`,
   * and it is all of `u0` only if `u0` shows no separator.
   */
  lemma FirstPiece(c: char, u0: seq<Unit>, more: bool, rest: seq<Unit>, q: seq<Unit>)
    requires c in DELIMITERS && q != []
    requires Cut(DELIMITERS, q, if more then u0 + [Bare(c)] + rest else u0)
    ensures Cut(DELIMITERS, UpTo(c, q), u0)
    ensures UpTo(c, q) == u0 ==> Bare(c) !in u0
    ensures UpTo(c, q) == u0 && !more ==> q == u0 && After(c, q) == []
    ensures UpTo(c, q) == u0 && more ==>
              || (q == u0 && After(c, q) == [])
              || (q == u0 + [Bare(c)] + After(c, q) && Cut(DELIMITERS, After(c, q), rest))
    ensures Bare(c) !in u0 && q == (if more then u0 + [Bare(c)] + rest else u0) ==> UpTo(c, q) == u0
  {
    if more {
      PieceBefore(c, u0, rest, q);
    } else {
      assert u0[..|UpTo(c, q)|] == UpTo(c, q);
    }
  }

  /** FirstPiece when something follows `u0`. */
  lemma PieceBefore(c: char, u0: seq<Unit>, rest: seq<Unit>, q: seq<Unit>)
    requires q != [] && Cut(DELIMITERS, q, u0 + [Bare(c)] + rest) && c in DELIMITERS
    ensures Cut(DELIMITERS, UpTo(c, q), u0)
    ensures UpTo(c, q) == u0 ==> Bare(c) !in u0
    ensures UpTo(c, q) == u0 ==>
              || (q == u0 && After(c, q) == [])
              || (q == u0 + [Bare(c)] + After(c, q) && Cut(DELIMITERS, After(c, q), rest))
    ensures Bare(c) !in u0 && q == u0 + [Bare(c)] + rest ==> UpTo(c, q) == u0
  {
    var full, p := u0 + [Bare(c)] + rest, UpTo(c, q);
    assert full[|u0|] == Bare(c);
    PartPrefix(c, u0, rest, p);
    assert |p| < |q| ==> q[|p|] == full[|p|];
    assert |p| < |u0| ==> full[|p|] == u0[|p|];
    if p == u0 && |q| > |u0| {
      RestAfter(u0, c, rest, q);
    }
  }

  lemma RestAfter(u0: seq<Unit>, c: char, rest: seq<Unit>, q: seq<Unit>)
    requires |q| > |u0| && Cut(DELIMITERS, q, u0 + [Bare(c)] + rest)
    ensures q == u0 + [Bare(c)] + q[|u0| + 1..] && Cut(DELIMITERS, q[|u0| + 1..], rest)
  {
    var full, n := u0 + [Bare(c)] + rest, |u0| + 1;
    assert full[n..] == rest && full[..n] == u0 + [Bare(c)];
    assert q[..n] == full[..n];
    assert q[n..] == full[n..|q|] == rest[..|q| - n];
  }

  /** A separator-free prefix of `u0 sep rest` lies within `u0`. */
  lemma PartPrefix(c: char, u0: seq<Unit>, rest: seq<Unit>, p: seq<Unit>)
    requires Bare(c) !in p && p <= u0 + [Bare(c)] + rest
    ensures p <= u0
  {
    var full := u0 + [Bare(c)] + rest;
    assert full[|u0|] == Bare(c);
    assert |p| <= |u0|;
    assert full[..|p|] == u0[..|p|];
  }

  /** One step of a splitter over `u0 sep rest`, or over `u0` alone. */
  lemma SplitStep(sep: char, u0: seq<Unit>, more: bool, rest: seq<Unit>, q: seq<Unit>)
    returns (p: seq<Unit>, tail: seq<Unit>)
    requires sep in DELIMITERS && Neutral(q) && u0 != []
    requires Cut(DELIMITERS, q, if more then u0 + [Bare(sep)] + rest else u0)
    ensures EscapeSplit(sep, Render([])) == []
    ensures q != [] ==>
              && EscapeSplit(sep, Render(q)) == [Render(Strip({sep}, p))] + EscapeSplit(sep, Render(tail))
              && Cut(DELIMITERS, p, u0)
              && (p == u0 ==> Bare(sep) !in u0)
              && (p == u0 && !more ==> q == u0 && tail == [])
              && (p == u0 && more ==>
                    || (q == u0 && tail == [])
                    || (q == u0 + [Bare(sep)] + tail && Cut(DELIMITERS, tail, rest)))
    ensures Bare(sep) !in u0 && q == (if more then u0 + [Bare(sep)] + rest else u0) ==> q != [] && p == u0
  {
    SplitHead(sep, []);
    SplitHead(sep, q);
    p, tail := [], [];
    if q != [] {
      p, tail := UpTo(sep, q), After(sep, q);
      FirstPiece(sep, u0, more, rest, q);
    }
  }

  /** Puts the first piece and the rest together; `first` and `others` say that each reads as it should. */
  lemma Conclude(sep: char, u0: seq<Unit>, more: bool, rest: seq<Unit>, q: seq<Unit>, p: seq<Unit>, tail: seq<Unit>,
                 first: bool, others: bool, okFirst: bool, okOthers: bool)
    requires p == u0 ==> Bare(sep) !in u0
    requires p == u0 && !more ==> q == u0 && tail == []
    requires p == u0 && more ==> (q == u0 && tail == []) || q == u0 + [Bare(sep)] + tail
    requires Bare(sep) !in u0 && q == (if more then u0 + [Bare(sep)] + rest else u0) ==> p == u0
    requires first <==> p == u0 && okFirst
    requires !more ==> okOthers && (tail == [] ==> others)
    requires more && tail == [] && q == u0 ==> !others
    requires p == u0 && more && q != u0 ==> (others <==> tail == rest && okOthers)
    ensures first && others
            <==> q == (if more then u0 + [Bare(sep)] + rest else u0) && Bare(sep) !in u0 && okFirst && okOthers
  {
    if more {
      var full := u0 + [Bare(sep)] + rest;
      assert full[|u0| + 1..] == rest && (u0 + [Bare(sep)] + tail)[|u0| + 1..] == tail;
    }
  }

  lemma ReadAllCons(r: Reader, x: string, xs: seq<string>, v: Value, vs: seq<Value>)
    ensures ReadAll(r, [x] + xs) == Some([v] + vs) <==> Read(r, x) == Some(v) && ReadAll(r, xs) == Some(vs)
  {
    assert ([x] + xs)[1..] == xs;
    match ReadAll(r, xs)
    case None =>
    case Some(ws) => assert forall w :: [w] + ws == [v] + vs ==> ([w] + ws)[0] == v && ([w] + ws)[1..] == vs;
  }

  lemma ReadPutsCons(r: Reader, kv: char, any: bool, x: string, xs: seq<string>, v: Put, vs: seq<Put>)
    ensures ReadPuts(r, kv, any, [x] + xs) == Some([v] + vs)
            <==> ReadPut(r, kv, any, x) == Some(v) && ReadPuts(r, kv, any, xs) == Some(vs)
  {
    assert ([x] + xs)[1..] == xs;
    match ReadPuts(r, kv, any, xs)
    case None =>
    case Some(ws) => assert forall w :: [w] + ws == [v] + vs ==> ([w] + ws)[0] == v && ([w] + ws)[1..] == vs;
  }

  lemma ReadPairsCons(r: Reader, x: string, xs: seq<string>, v: ValuePair, vs: seq<ValuePair>)
    ensures ReadPairs(r, [x] + xs) == Some([v] + vs) <==> ReadPair(r, x) == Some(v) && ReadPairs(r, xs) == Some(vs)
  {
    assert ([x] + xs)[1..] == xs;
    match ReadPairs(r, xs)
    case None =>
    case Some(ws) => assert forall w :: [w] + ws == [v] + vs ==> ([w] + ws)[0] == v && ([w] + ws)[1..] == vs;
  }

  /** A splitter finds two pieces exactly when there is something behind its first cut and nothing behind its second. */
  lemma SplitTwo(c: char, q: seq<Unit>, q1: seq<Unit>)
    requires c in DELIMITERS && Neutral(q) && q != [] && q1 == After(c, q)
    ensures var parts := EscapeSplit(c, Render(q));
            && (|parts| == 2 <==> q1 != [] && After(c, q1) == [])
            && (|parts| == 2 ==>
                  parts == [Render(Strip({c}, UpTo(c, q))), Render(Strip({c}, UpTo(c, q1)))])
  {
    AfterIsNeutral(c, q);
    SplitHead(c, q);
    SplitHead(c, q1);
    if q1 != [] {
      AfterIsNeutral(c, q1);
      NoPieces(c, After(c, q1));
    }
  }

  lemma AfterIsNeutral(c: char, q: seq<Unit>)
    requires Neutral(q)
    ensures Neutral(After(c, q))
  {
    assert forall u :: u in After(c, q) ==> u in q;
  }

  lemma NoPieces(c: char, q: seq<Unit>)
    requires c != BACKSLASH && Neutral(q)
    ensures EscapeSplit(c, Render(q)) == [] <==> q == []
  {
    SplitHead(c, q);
  }

  /** The two parts of a cut `key sep value`. */
  lemma TwoParts(c: char, key: seq<Unit>, value: seq<Unit>, q: seq<Unit>) returns (k: seq<Unit>, v: seq<Unit>)
    requires c in DELIMITERS && value != [] && Neutral(q)
    requires Cut(DELIMITERS, q, key + [Bare(c)] + value)
    ensures var parts := EscapeSplit(c, Render(q));
            |parts| == 2 ==>
              && Cut(DELIMITERS, k, key) && parts[0] == Render(Strip({c}, k))
              && (k == key ==> Cut(DELIMITERS, v, value) && parts[1] == Render(Strip({c}, v)))
              && (k == key && v == value ==>
                    q == key + [Bare(c)] + value && Bare(c) !in key && Bare(c) !in value)
    ensures q == key + [Bare(c)] + value && Bare(c) !in key && Bare(c) !in value ==>
              |EscapeSplit(c, Render(q))| == 2 && k == key && v == value
  {
    k, v := [], [];
    if q == [] {
      SplitHead(c, q);
    } else {
      var q1 := After(c, q);
      SplitTwo(c, q, q1);
      k := UpTo(c, q);
      FirstPiece(c, key, true, value, q);
      if q1 != [] {
        v := UpTo(c, q1);
        if k == key {
          FirstPiece(c, value, false, [], q1);
        }
      }
    }
  }

  // ---------------------------------------------------------------- the theorem

  lemma UnitsNeutral(e: Elem)
    requires HexSafe(e)
    ensures Neutral(Units(e)) && Neutral(Body(e))
  {
    UnitsQuiet(e);
    BodyQuiet(e);
    assert BACKSLASH in OUTER;
  }

  lemma PrefixNeutral(q: seq<Unit>, us: seq<Unit>)
    requires q <= us && Neutral(us)
    ensures Neutral(q)
  {
    assert forall u :: u in q ==> u in us;
  }

  lemma TagKept(tag: seq<Unit>, body: seq<Unit>, q: seq<Unit>)
    requires Avoids(DELIMITERS, tag) && Cut(DELIMITERS, q, tag + body)
    ensures |q| >= |tag| && q == tag + q[|tag|..] && Cut(DELIMITERS, q[|tag|..], body)
  {
    assert forall i :: 0 <= i < |tag| ==> (tag + body)[i] == tag[i] && tag[i] in tag;
    assert (tag + body)[..|tag|] == tag && (tag + body)[|tag|..] == body;
  }

  /**
   * A text cut out of the printed form of `e`, at any point where a splitter may have cut it, reads as the value
   * of `e` exactly when nothing was cut off and `e` is readable.
   */
  lemma {:induction false} Exact(r: Reader, e: Elem, stripped: set<char>, q: seq<Unit>)
    requires stripped <= DELIMITERS && HexSafe(e) && Printable(e)
    requires Cut(DELIMITERS, q, Strip(stripped, Units(e)))
    ensures Read(r, Render(q)) == Some(Val(e)) <==> q == Strip(stripped, Units(e)) && Readable(r, e, stripped)
    decreases e, 2
  {
    var tag, body := Bares(Tag(e)), Strip(stripped, Body(e));
    StripAppend(stripped, tag, Body(e));
    assert Strip(stripped, tag) == tag;
    TagAvoids(e);
    TagKept(tag, body, q);
    var rest := q[4..];
    RenderAppend(tag, rest);
    RenderBares(Tag(e));
    assert Render(q)[..4] == Tag(e) && Render(q)[4..] == Render(rest);
    TagsAgree(r, e);
    if !(e.List? && r.DeviceApp?) {
      ExactBody(r, e, stripped, rest);
    }
  }

  lemma {:induction false} ExactBody(r: Reader, e: Elem, stripped: set<char>, q: seq<Unit>)
    requires stripped <= DELIMITERS && HexSafe(e) && Printable(e) && !(e.List? && r.DeviceApp?)
    requires Cut(DELIMITERS, q, Strip(stripped, Body(e)))
    ensures ReadBody(r, PrefixOf(e), Render(q)) == Some(Val(e))
            <==> q == Strip(stripped, Body(e)) && Readable(r, e, stripped)
    decreases e, 1
  {
    if !IsContainer(e) {
      ExactScalarBody(r, e, stripped, q);
    } else {
      if e.Bundle? {
        ExactBundle(r, e, stripped, q);
      } else if e.Map? {
        ExactMap(r, e, stripped, q);
      } else if e.List? {
        ExactList(r, e, stripped, q);
      } else if e.Complex? {
        ExactComplex(r, e, stripped, q);
      } else {
        ExactMessage(r, e, stripped, q);
      }
    }
  }

  /** ReadBody, class by class. */
  lemma BundleBody(r: Reader, s: string)
    ensures ReadBody(r, PBundle, s) == Wrap(ReadPuts(r, '=', r.Reference?, EscapeSplit(':', s)), puts => VBundle(puts))
  {
  }

  lemma MapBody(r: Reader, s: string)
    ensures ReadBody(r, PMap, s) == Wrap(ReadPairs(r, EscapeSplit(':', s)), pairs => VMap(pairs))
  {
  }

  lemma ListBody(r: Reader, s: string)
    ensures ReadBody(r, PList, s) == Wrap(ReadAll(r, EscapeSplit(':', s)), vs => VList(vs))
  {
  }

  lemma CombinedBody(r: Reader, s: string)
    ensures ReadBody(r, PCombined, s) == Wrap(ReadAll(r, EscapeSplit('|', s)), vs => VCombined(vs))
  {
  }

  lemma MessageBody(r: Reader, s: string)
    ensures ReadBody(r, PMessage, s) == ReadMessage(r, EscapeSplit('%', s))
  {
  }

  lemma {:induction false} ExactBundle(r: Reader, e: Elem, stripped: set<char>, q: seq<Unit>)
    requires e.Bundle? && stripped <= DELIMITERS && HexSafe(e) && Printable(e)
    requires Cut(DELIMITERS, q, Strip(stripped, Body(e)))
    ensures ReadBody(r, PBundle, Render(q)) == Some(Val(e))
            <==> q == Strip(stripped, Body(e)) && Readable(r, e, stripped)
    decreases e, 0
  {
    ExactPuts(r, ':', '=', r.Reference?, e.entries, stripped, q);
    var got := ReadPuts(r, '=', r.Reference?, EscapeSplit(':', Render(q)));
    BundleBody(r, Render(q));
    assert Wrap(got, puts => VBundle(puts)) == Some(VBundle(PutsOf(e.entries))) <==> got == Some(PutsOf(e.entries));
  }

  lemma {:induction false} ExactMap(r: Reader, e: Elem, stripped: set<char>, q: seq<Unit>)
    requires e.Map? && stripped <= DELIMITERS && HexSafe(e) && Printable(e)
    requires Cut(DELIMITERS, q, Strip(stripped, Body(e)))
    ensures ReadBody(r, PMap, Render(q)) == Some(Val(e))
            <==> q == Strip(stripped, Body(e)) && Readable(r, e, stripped)
    decreases e, 0
  {
    ExactPairs(r, e.pairs, stripped, q);
    var got := ReadPairs(r, EscapeSplit(':', Render(q)));
    MapBody(r, Render(q));
    assert Wrap(got, pairs => VMap(pairs)) == Some(VMap(PairsOf(e.pairs))) <==> got == Some(PairsOf(e.pairs));
  }

  lemma {:induction false} ExactList(r: Reader, e: Elem, stripped: set<char>, q: seq<Unit>)
    requires e.List? && r.Reference? && stripped <= DELIMITERS && HexSafe(e) && Printable(e)
    requires Cut(DELIMITERS, q, Strip(stripped, Body(e)))
    ensures ReadBody(r, PList, Render(q)) == Some(Val(e))
            <==> q == Strip(stripped, Body(e)) && Readable(r, e, stripped)
    decreases e, 0
  {
    ExactElems(r, ':', e.elems, stripped, q);
    var got := ReadAll(r, EscapeSplit(':', Render(q)));
    ListBody(r, Render(q));
    assert Wrap(got, vs => VList(vs)) == Some(VList(Vals(e.elems))) <==> got == Some(Vals(e.elems));
  }

  lemma {:induction false} ExactComplex(r: Reader, e: Elem, stripped: set<char>, q: seq<Unit>)
    requires e.Complex? && stripped <= DELIMITERS && HexSafe(e) && Printable(e)
    requires Cut(DELIMITERS, q, Strip(stripped, Body(e)))
    ensures ReadBody(r, PCombined, Render(q)) == Some(Val(e))
            <==> q == Strip(stripped, Body(e)) && Readable(r, e, stripped)
    decreases e, 0
  {
    ExactElems(r, '|', e.parts, stripped, q);
    var got := ReadAll(r, EscapeSplit('|', Render(q)));
    CombinedBody(r, Render(q));
    assert Wrap(got, vs => VCombined(vs)) == Some(VCombined(Vals(e.parts))) <==> got == Some(Vals(e.parts));
  }

  lemma ExactScalarBody(r: Reader, e: Elem, stripped: set<char>, q: seq<Unit>)
    requires stripped <= DELIMITERS && HexSafe(e) && !IsContainer(e)
    requires Cut(DELIMITERS, q, Strip(stripped, Body(e)))
    ensures ReadScalar(r, PrefixOf(e), Render(q)) == Some(ScalarVal(e))
            <==> q == Strip(stripped, Body(e)) && ScalarReadable(r, e)
  {
    if IsText(e) {
      ExactTextBody(r, e, stripped, q);
    } else {
      ExactPlainBody(r, e, stripped, q);
    }
  }

  lemma ExactTextBody(r: Reader, e: Elem, stripped: set<char>, q: seq<Unit>)
    requires stripped <= DELIMITERS && IsText(e) && Cut(DELIMITERS, q, Strip(stripped, TextUnits(TextOf(e))))
    ensures ReadScalar(r, PrefixOf(e), Render(q)) == Some(ScalarVal(e))
            <==> q == Strip(stripped, TextUnits(TextOf(e))) && ScalarReadable(r, e)
  {
    ExactText(r, stripped, TextOf(e), q);
    TextScalar(r, e, Render(q));
  }

  lemma TextScalar(r: Reader, e: Elem, s: string)
    requires IsText(e)
    ensures ReadScalar(r, PrefixOf(e), s) == Some(ScalarVal(e)) <==> UnescapeText(r, s) == Some(TextOf(e))
    ensures ScalarReadable(r, e) <==> TextReadable(r, TextOf(e))
  {
    if e.Str? {
      assert PrefixOf(e) == PString;
    } else if e.ReadFd? {
      assert PrefixOf(e) == PReadFd;
    } else {
      assert PrefixOf(e) == PWriteFd;
    }
  }

  lemma ExactPlainBody(r: Reader, e: Elem, stripped: set<char>, q: seq<Unit>)
    requires HexSafe(e) && !IsContainer(e) && !IsText(e)
    requires Cut(DELIMITERS, q, Strip(stripped, Bares(PlainText(e))))
    ensures ReadScalar(r, PrefixOf(e), Render(q)) == Some(ScalarVal(e))
            <==> q == Strip(stripped, Bares(PlainText(e))) && ScalarReadable(r, e)
  {
    PlainTextIsInert(e);
    InertBares(PlainText(e));
    InertCut(stripped, Bares(PlainText(e)), q);
    RenderBares(PlainText(e));
    ExactPlain(r, e);
  }

  /** A text without separators cannot be cut. */
  lemma InertCut(stripped: set<char>, us: seq<Unit>, q: seq<Unit>)
    requires Avoids(SPECIAL, us) && forall u :: u in us ==> u.Bare?
    requires Cut(DELIMITERS, q, Strip(stripped, us))
    ensures q == us == Strip(stripped, us)
  {
    StripBares(stripped, us);
  }

  lemma {:induction false} ExactPuts(r: Reader, sep: char, kv: char, any: bool, entries: seq<Entry>,
                                     stripped: set<char>, q: seq<Unit>)
    requires stripped <= DELIMITERS && sep in DELIMITERS && kv in DELIMITERS
    requires AllEntries(HexIsHex, entries) && AllEntries(HasData, entries)
    requires Cut(DELIMITERS, q, Strip(stripped, Join([Bare(sep)], EntriesUnits(kv, entries))))
    ensures ReadPuts(r, kv, any, EscapeSplit(sep, Render(q))) == Some(PutsOf(entries))
            <==> && q == Strip(stripped, Join([Bare(sep)], EntriesUnits(kv, entries)))
                 && EntriesReadable(r, sep, kv, any, entries, stripped)
    decreases entries
  {
    if entries == [] {
      assert Strip(stripped, Join([Bare(sep)], EntriesUnits(kv, entries))) == [] && q == [];
      SplitHead(sep, q);
    } else {
      var u0, more := Strip(stripped, EntryUnits(kv, entries[0])), |entries| > 1;
      var rest := Strip(stripped, Join([Bare(sep)], EntriesUnits(kv, entries[1..])));
      JoinStripped(sep, stripped, EntriesUnits(kv, entries));
      PutsNeutral(sep, kv, entries, stripped, q);
      var p, tail := SplitStep(sep, u0, more, rest, q);
      if q != [] {
        CutStrip({sep}, p, u0);
        StripStrip(stripped, {sep}, EntryUnits(kv, entries[0]));
        ExactPut(r, kv, any, entries[0], stripped + {sep}, Strip({sep}, p));
        var parts := EscapeSplit(sep, Render(tail));
        ReadPutsCons(r, kv, any, Render(Strip({sep}, p)), parts, PutOf(entries[0]), PutsOf(entries[1..]));
        if p == u0 && more && q != u0 {
          ExactPuts(r, sep, kv, any, entries[1..], stripped, tail);
        }
        Conclude(sep, u0, more, rest, q, p, tail,
                 ReadPut(r, kv, any, Render(Strip({sep}, p))) == Some(PutOf(entries[0])),
                 ReadPuts(r, kv, any, parts) == Some(PutsOf(entries[1..])),
                 EntryReadable(r, kv, any, entries[0], stripped + {sep}),
                 EntriesReadable(r, sep, kv, any, entries[1..], stripped));
      }
    }
  }

  lemma PutsNeutral(sep: char, kv: char, entries: seq<Entry>, stripped: set<char>, q: seq<Unit>)
    requires stripped <= DELIMITERS && sep in DELIMITERS && kv in DELIMITERS && AllEntries(HexIsHex, entries)
    requires q <= Strip(stripped, Join([Bare(sep)], EntriesUnits(kv, entries)))
    ensures Neutral(q)
  {
    EntriesNeutral(kv, entries);
    JoinNeutral(sep, EntriesUnits(kv, entries), stripped, q);
  }

  lemma {:induction false} EntriesNeutral(kv: char, entries: seq<Entry>)
    requires kv in DELIMITERS && AllEntries(HexIsHex, entries)
    ensures forall us :: us in EntriesUnits(kv, entries) ==> Avoids({BACKSLASH}, us)
  {
    if entries != [] {
      EntryNeutral(kv, entries[0]);
      EntriesNeutral(kv, entries[1..]);
    }
  }

  lemma EntryNeutral(kv: char, entry: Entry)
    requires kv in DELIMITERS && All(HexIsHex, entry.value)
    ensures Avoids({BACKSLASH}, EntryUnits(kv, entry)) && Neutral(EntryUnits(kv, entry))
  {
    TextUnitsSafe(entry.key);
    UnitsNeutral(entry.value);
    AvoidsAround({BACKSLASH}, TextUnits(entry.key), kv, Units(entry.value));
    assert BACKSLASH in {BACKSLASH};
  }

  lemma EntryCutNeutral(kv: char, entry: Entry, stripped: set<char>, q: seq<Unit>)
    requires stripped <= DELIMITERS && kv in DELIMITERS && All(HexIsHex, entry.value)
    requires q <= Strip(stripped, EntryUnits(kv, entry))
    ensures Neutral(q)
  {
    EntryNeutral(kv, entry);
    StripNeutral(stripped, EntryUnits(kv, entry));
    PrefixNeutral(q, Strip(stripped, EntryUnits(kv, entry)));
  }

  lemma AroundStripped(c: char, stripped: set<char>, a: seq<Unit>, b: seq<Unit>)
    ensures Strip(stripped, a + [Bare(c)] + b) == Strip(stripped, a) + [Bare(c)] + Strip(stripped, b)
  {
    StripAppend(stripped, a + [Bare(c)], b);
    StripAppend(stripped, a, [Bare(c)]);
    assert Strip(stripped, [Bare(c)]) == [Bare(c)];
  }

  /** Puts the two parts together; `readKey` and `readValue` say that each reads as it should. */
  lemma ConcludeTwo(c: char, key: seq<Unit>, value: seq<Unit>, q: seq<Unit>, k: seq<Unit>, v: seq<Unit>,
                    two: bool, readKey: bool, readValue: bool, okKey: bool, okValue: bool)
    requires two && k == key && v == value ==>
               q == key + [Bare(c)] + value && Bare(c) !in key && Bare(c) !in value
    requires q == key + [Bare(c)] + value && Bare(c) !in key && Bare(c) !in value ==> two && k == key && v == value
    requires two ==> (readKey <==> k == key && okKey)
    requires two && k == key ==> (readValue <==> v == value && okValue)
    ensures two && readKey && readValue
            <==> && q == key + [Bare(c)] + value && Bare(c) !in key && Bare(c) !in value
                 && okKey && okValue
  {
  }

  lemma ReadPutParts(r: Reader, kv: char, any: bool, s: string, key: string, v: Value)
    ensures ReadPut(r, kv, any, s) == Some(Put(key, v)) <==>
            var parts := EscapeSplit(kv, s);
            && |parts| == 2 && UnescapeText(r, parts[0]) == Some(key) && Read(r, parts[1]) == Some(v)
            && (any || CanPut(v))
  {
  }

  lemma ReadPairParts(r: Reader, s: string, key: Value, v: Value)
    ensures ReadPair(r, s) == Some(ValuePair(key, v)) <==>
            var parts := EscapeSplit('=', s);
            |parts| == 2 && Read(r, parts[0]) == Some(key) && Read(r, parts[1]) == Some(v)
  {
  }

  /** Exact, for a piece that a splitter at `sep` has produced. */
  lemma {:induction false} ExactAfter(r: Reader, sep: char, e: Elem, stripped: set<char>, p: seq<Unit>)
    requires stripped <= DELIMITERS && sep in DELIMITERS && HexSafe(e) && Printable(e)
    requires Cut(DELIMITERS, p, Strip(stripped, Units(e)))
    ensures Read(r, Render(Strip({sep}, p))) == Some(Val(e))
            <==> p == Strip(stripped, Units(e)) && Readable(r, e, stripped + {sep})
    decreases e, 3
  {
    StripStrip(stripped, {sep}, Units(e));
    CutStrip({sep}, p, Strip(stripped, Units(e)));
    Exact(r, e, stripped + {sep}, Strip({sep}, p));
  }

  lemma ExactKey(r: Reader, kv: char, key: string, stripped: set<char>, k: seq<Unit>)
    requires stripped <= DELIMITERS && kv in DELIMITERS && Cut(DELIMITERS, k, Strip(stripped, TextUnits(key)))
    ensures UnescapeText(r, Render(Strip({kv}, k))) == Some(key)
            <==> k == Strip(stripped, TextUnits(key)) && TextReadable(r, key)
  {
    StripStrip(stripped, {kv}, TextUnits(key));
    CutStrip({kv}, k, Strip(stripped, TextUnits(key)));
    ExactText(r, stripped + {kv}, key, Strip({kv}, k));
  }

  lemma {:induction false} ExactPut(r: Reader, kv: char, any: bool, entry: Entry, stripped: set<char>, q: seq<Unit>)
    requires stripped <= DELIMITERS && kv in DELIMITERS && All(HexIsHex, entry.value) && All(HasData, entry.value)
    requires Cut(DELIMITERS, q, Strip(stripped, EntryUnits(kv, entry)))
    ensures ReadPut(r, kv, any, Render(q)) == Some(PutOf(entry))
            <==> q == Strip(stripped, EntryUnits(kv, entry)) && EntryReadable(r, kv, any, entry, stripped)
    decreases entry
  {
    AroundStripped(kv, stripped, TextUnits(entry.key), Units(entry.value));
    EntryCutNeutral(kv, entry, stripped, q);
    ExactPutParts(r, kv, any, entry.key, entry.value, stripped, q);
  }

  lemma {:induction false} ExactPutParts(r: Reader, kv: char, any: bool, key: string, e: Elem,
                                         stripped: set<char>, q: seq<Unit>)
    requires stripped <= DELIMITERS && kv in DELIMITERS && HexSafe(e) && Printable(e) && Neutral(q)
    requires Cut(DELIMITERS, q, Strip(stripped, TextUnits(key)) + [Bare(kv)] + Strip(stripped, Units(e)))
    ensures ReadPut(r, kv, any, Render(q)) == Some(Put(key, Val(e)))
            <==> && q == Strip(stripped, TextUnits(key)) + [Bare(kv)] + Strip(stripped, Units(e))
                 && !Exposes(kv, stripped, TextUnits(key)) && !Exposes(kv, stripped, Units(e))
                 && TextReadable(r, key) && Readable(r, e, stripped + {kv}) && (any || CanPut(Val(e)))
    decreases e, 4
  {
    var keyUnits, value := Strip(stripped, TextUnits(key)), Strip(stripped, Units(e));
    var k, v := TwoParts(kv, keyUnits, value, q);
    var parts := EscapeSplit(kv, Render(q));
    var two := |parts| == 2;
    ReadPutParts(r, kv, any, Render(q), key, Val(e));
    if two {
      ExactKey(r, kv, key, stripped, k);
      if k == keyUnits {
        ExactAfter(r, kv, e, stripped, v);
      }
    }
    ConcludeTwo(kv, keyUnits, value, q, k, v, two,
                two && UnescapeText(r, parts[0]) == Some(key),
                two && Read(r, parts[1]) == Some(Val(e)),
                TextReadable(r, key), Readable(r, e, stripped + {kv}));
  }

  lemma {:induction false} ExactPairs(r: Reader, pairs: seq<Pair>, stripped: set<char>, q: seq<Unit>)
    requires stripped <= DELIMITERS && AllPairs(HexIsHex, pairs) && AllPairs(HasData, pairs)
    requires Cut(DELIMITERS, q, Strip(stripped, Join([Bare(':')], PairsUnits(pairs))))
    ensures ReadPairs(r, EscapeSplit(':', Render(q))) == Some(PairsOf(pairs))
            <==> q == Strip(stripped, Join([Bare(':')], PairsUnits(pairs))) && PairsReadable(r, pairs, stripped)
    decreases pairs
  {
    if pairs == [] {
      assert Strip(stripped, Join([Bare(':')], PairsUnits(pairs))) == [] && q == [];
      SplitHead(':', q);
    } else {
      var u0, more := Strip(stripped, PairUnits(pairs[0])), |pairs| > 1;
      var rest := Strip(stripped, Join([Bare(':')], PairsUnits(pairs[1..])));
      JoinStripped(':', stripped, PairsUnits(pairs));
      PairsNeutral(pairs);
      JoinNeutral(':', PairsUnits(pairs), stripped, q);
      var p, tail := SplitStep(':', u0, more, rest, q);
      if q != [] {
        CutStrip({':'}, p, u0);
        StripStrip(stripped, {':'}, PairUnits(pairs[0]));
        ExactPair(r, pairs[0], stripped + {':'}, Strip({':'}, p));
        var parts := EscapeSplit(':', Render(tail));
        ReadPairsCons(r, Render(Strip({':'}, p)), parts, PairOf(pairs[0]), PairsOf(pairs[1..]));
        if p == u0 && more && q != u0 {
          ExactPairs(r, pairs[1..], stripped, tail);
        }
        Conclude(':', u0, more, rest, q, p, tail,
                 ReadPair(r, Render(Strip({':'}, p))) == Some(PairOf(pairs[0])),
                 ReadPairs(r, parts) == Some(PairsOf(pairs[1..])),
                 PairReadable(r, pairs[0], stripped + {':'}),
                 PairsReadable(r, pairs[1..], stripped));
      }
    }
  }

  lemma {:induction false} PairsNeutral(pairs: seq<Pair>)
    requires AllPairs(HexIsHex, pairs)
    ensures forall us :: us in PairsUnits(pairs) ==> Avoids({BACKSLASH}, us)
  {
    PairsQuiet(pairs);
    forall us | us in PairsUnits(pairs) ensures Avoids({BACKSLASH}, us) {
      assert Avoids(OUTER, us) && BACKSLASH in OUTER;
    }
  }

  lemma PairCutNeutral(pair: Pair, stripped: set<char>, q: seq<Unit>)
    requires stripped <= DELIMITERS && AllPair(HexIsHex, pair) && q <= Strip(stripped, PairUnits(pair))
    ensures Neutral(q)
  {
    PairQuiet(pair);
    assert BACKSLASH in OUTER;
    StripNeutral(stripped, PairUnits(pair));
    PrefixNeutral(q, Strip(stripped, PairUnits(pair)));
  }

  lemma {:induction false} ExactPair(r: Reader, pair: Pair, stripped: set<char>, q: seq<Unit>)
    requires stripped <= DELIMITERS && AllPair(HexIsHex, pair) && AllPair(HasData, pair)
    requires Cut(DELIMITERS, q, Strip(stripped, PairUnits(pair)))
    ensures ReadPair(r, Render(q)) == Some(PairOf(pair))
            <==> q == Strip(stripped, PairUnits(pair)) && PairReadable(r, pair, stripped)
    decreases pair
  {
    var key, value := Strip(stripped, Units(pair.key)), Strip(stripped, Units(pair.value));
    AroundStripped('=', stripped, Units(pair.key), Units(pair.value));
    PairCutNeutral(pair, stripped, q);
    var k, v := TwoParts('=', key, value, q);
    var parts := EscapeSplit('=', Render(q));
    if |parts| == 2 {
      ExactAfter(r, '=', pair.key, stripped, k);
      if k == key {
        ExactAfter(r, '=', pair.value, stripped, v);
      }
    }
    ReadPairParts(r, Render(q), Val(pair.key), Val(pair.value));
    ConcludePair(r, pair, stripped, q, k, v, parts);
  }

  lemma ConcludePair(r: Reader, pair: Pair, stripped: set<char>, q: seq<Unit>, k: seq<Unit>, v: seq<Unit>,
                     parts: seq<string>)
    requires var key, value := Strip(stripped, Units(pair.key)), Strip(stripped, Units(pair.value));
             && (|parts| == 2 && k == key && v == value ==>
                   q == key + [Bare('=')] + value && Bare('=') !in key && Bare('=') !in value)
             && (q == key + [Bare('=')] + value && Bare('=') !in key && Bare('=') !in value ==>
                   |parts| == 2 && k == key && v == value)
             && (|parts| == 2 ==>
                   (Read(r, parts[0]) == Some(Val(pair.key)) <==> k == key && Readable(r, pair.key, stripped + {'='})))
             && (|parts| == 2 && k == key ==>
                   (Read(r, parts[1]) == Some(Val(pair.value))
                    <==> v == value && Readable(r, pair.value, stripped + {'='})))
    ensures var key, value := Strip(stripped, Units(pair.key)), Strip(stripped, Units(pair.value));
            |parts| == 2 && Read(r, parts[0]) == Some(Val(pair.key)) && Read(r, parts[1]) == Some(Val(pair.value))
            <==> q == key + [Bare('=')] + value && PairReadable(r, pair, stripped)
  {
  }

  /** A piece without separators in front of a `%` is read whole, whatever was cut off behind it. */
  lemma InertPiece(u0: seq<Unit>, more: bool, rest: seq<Unit>, q: seq<Unit>) returns (tail: seq<Unit>)
    requires Neutral(q) && Avoids(SPECIAL, u0) && u0 != [] && forall u :: u in u0 ==> u.Bare?
    requires Cut(DELIMITERS, q, if more then u0 + [Bare('%')] + rest else u0)
    ensures EscapeSplit('%', Render(q)) == [Render(u0)] + EscapeSplit('%', Render(tail))
    ensures EscapeSplit('%', Render([])) == []
    ensures !more ==> q == u0 && tail == []
    ensures more ==>
              || (q == u0 && tail == [])
              || (q == u0 + [Bare('%')] + tail && Cut(DELIMITERS, tail, rest))
  {
    var p, t := SplitStep('%', u0, more, rest, q);
    tail := t;
    assert u0[0] in u0 && (u0 + [Bare('%')] + rest)[0] == u0[0];
    assert q != [];
    StripNothing(u0);
    InertCut({}, u0, p);
    StripBares({'%'}, u0);
  }

  lemma StripBares(stripped: set<char>, us: seq<Unit>)
    requires forall u :: u in us ==> u.Bare?
    ensures Strip(stripped, us) == us
  {
    assert forall i :: 0 <= i < |us| ==> us[i] in us;
  }

  lemma NumberPiece(n: I32, more: bool, rest: seq<Unit>, q: seq<Unit>) returns (tail: seq<Unit>)
    requires Neutral(q)
    requires Cut(DELIMITERS, q, if more then Bares(ShowInt(n)) + [Bare('%')] + rest else Bares(ShowInt(n)))
    ensures EscapeSplit('%', Render(q)) == [ShowInt(n)] + EscapeSplit('%', Render(tail))
    ensures EscapeSplit('%', Render([])) == []
    ensures !more ==> q == Bares(ShowInt(n)) && tail == []
    ensures more ==>
              || (q == Bares(ShowInt(n)) && tail == [])
              || (q == Bares(ShowInt(n)) + [Bare('%')] + tail && Cut(DELIMITERS, tail, rest))
  {
    NumberIsInert(n);
    tail := TextPiece(ShowInt(n), more, rest, q);
  }

  lemma NumberIsInert(n: I32)
    ensures ShowInt(n) != "" && IsInertText(ShowInt(n))
  {
    DigitsAreInert(ShowInt(n));
  }

  lemma TextPiece(s: string, more: bool, rest: seq<Unit>, q: seq<Unit>) returns (tail: seq<Unit>)
    requires Neutral(q) && s != "" && IsInertText(s)
    requires Cut(DELIMITERS, q, if more then Bares(s) + [Bare('%')] + rest else Bares(s))
    ensures EscapeSplit('%', Render(q)) == [s] + EscapeSplit('%', Render(tail))
    ensures EscapeSplit('%', Render([])) == []
    ensures !more ==> q == Bares(s) && tail == []
    ensures more ==>
              || (q == Bares(s) && tail == [])
              || (q == Bares(s) + [Bare('%')] + tail && Cut(DELIMITERS, tail, rest))
  {
    var us := Bares(s);
    InertBares(s);
    RenderBares(s);
    assert us != [] && forall u :: u in us ==> u.Bare?;
    tail := InertPiece(us, more, rest, q);
  }

  lemma {:induction false} ExactMessage(r: Reader, e: Elem, stripped: set<char>, q: seq<Unit>)
    requires e.Message? && stripped <= DELIMITERS && HexSafe(e) && Printable(e)
    requires Cut(DELIMITERS, q, Strip(stripped, Body(e)))
    ensures ReadBody(r, PMessage, Render(q)) == Some(Val(e))
            <==> q == Strip(stripped, Body(e)) && Readable(r, e, stripped)
    decreases e, 0
  {
    BodyCutNeutral(e, stripped, q);
    MessageBody(r, Render(q));
    MessageParts(r, e, stripped);
    if e.data.Data? {
      ShapeWithData(e.what, e.arg1, e.arg2, e.data, stripped);
      ExactWithData(r, e.what, e.arg1, e.arg2, e.data, stripped, q);
    } else {
      ShapeWithoutData(e.what, e.arg1, e.arg2, stripped);
      ExactWithoutData(r, e.what, e.arg1, e.arg2, q);
    }
  }

  lemma MessageParts(r: Reader, e: Elem, stripped: set<char>)
    requires e.Message? && HexSafe(e) && Printable(e)
    ensures Body(e) == MessageHead(e.what, e.arg1, e.arg2) + DataUnits(e.data)
    ensures e.data.Data? ==>
              && e.data.entries != []
              && AllEntries(HexIsHex, e.data.entries) && AllEntries(HasData, e.data.entries)
              && Val(e) == VMessage(e.what, e.arg1, e.arg2, Puts(PutsOf(e.data.entries)))
              && Readable(r, e, stripped) == DataReadable(r, e.data, stripped)
    ensures e.data.NoData? ==> Val(e) == VMessage(e.what, e.arg1, e.arg2, NoPuts) && Readable(r, e, stripped)
  {
    assert HasData(e);
  }

  lemma BodyCutNeutral(e: Elem, stripped: set<char>, q: seq<Unit>)
    requires stripped <= DELIMITERS && HexSafe(e) && q <= Strip(stripped, Body(e))
    ensures Neutral(q)
  {
    UnitsNeutral(e);
    StripNeutral(stripped, Body(e));
    PrefixNeutral(q, Strip(stripped, Body(e)));
  }

  lemma ExactWithoutData(r: Reader, what: I32, arg1: I32, arg2: I32, q: seq<Unit>)
    requires Neutral(q) && Cut(DELIMITERS, q, MessageHead(what, arg1, arg2))
    ensures ReadMessage(r, EscapeSplit('%', Render(q))) == Some(VMessage(what, arg1, arg2, NoPuts))
            <==> q == MessageHead(what, arg1, arg2)
  {
    var short, q2 := TwoNumbers(what, arg1, Bares(ShowInt(arg2)), q);
    if short {
      assert |MessageHead(what, arg1, arg2)| >= |ShowInt(what)| + |ShowInt(arg1)| + 2;
    } else {
      var tail := NumberPiece(arg2, false, [], q2);
      ReadMessageNumbers(r, what, arg1, arg2, []);
      assert [ShowInt(arg2)] + [] == [ShowInt(arg2)];
    }
  }

  lemma {:induction false} ExactWithData(r: Reader, what: I32, arg1: I32, arg2: I32, data: Data,
                                         stripped: set<char>, q: seq<Unit>)
    requires data.Data? && data.entries != [] && stripped <= DELIMITERS && Neutral(q)
    requires AllEntries(HexIsHex, data.entries) && AllEntries(HasData, data.entries)
    requires Cut(DELIMITERS, q, WithData(what, arg1, arg2, Strip(stripped, DataText(data))))
    ensures ReadMessage(r, EscapeSplit('%', Render(q)))
            == Some(VMessage(what, arg1, arg2, Puts(PutsOf(data.entries))))
            <==> && q == WithData(what, arg1, arg2, Strip(stripped, DataText(data)))
                 && DataReadable(r, data, stripped)
    decreases data, 2
  {
    var rest := Bares(ShowInt(arg2)) + [Bare('%')] + Strip(stripped, DataText(data));
    var short, q2 := TwoNumbers(what, arg1, rest, q);
    if short {
      assert |rest| > 0;
    } else {
      ExactMessageData(r, what, arg1, arg2, data, stripped, q2);
      SameFront(Bares(ShowInt(what)), Bares(ShowInt(arg1)), q2, rest);
    }
  }

  lemma SameFront(a: seq<Unit>, b: seq<Unit>, x: seq<Unit>, y: seq<Unit>)
    ensures a + [Bare('%')] + (b + [Bare('%')] + x) == a + [Bare('%')] + (b + [Bare('%')] + y) <==> x == y
  {
    var s, t := a + [Bare('%')] + (b + [Bare('%')] + x), a + [Bare('%')] + (b + [Bare('%')] + y);
    var n := |a| + |b| + 2;
    assert s[n..] == x && t[n..] == y;
  }

  function DataText(data: Data): seq<Unit>
    requires data.Data?
  {
    Join([Bare(':')], EntriesUnits('=', data.entries))
  }

  function WithData(what: I32, arg1: I32, arg2: I32, bundle: seq<Unit>): seq<Unit> {
    Bares(ShowInt(what)) + [Bare('%')] + (Bares(ShowInt(arg1)) + [Bare('%')]
      + (Bares(ShowInt(arg2)) + [Bare('%')] + bundle))
  }

  lemma ShapeWithoutData(what: I32, arg1: I32, arg2: I32, stripped: set<char>)
    ensures Strip(stripped, MessageHead(what, arg1, arg2) + DataUnits(NoData)) == MessageHead(what, arg1, arg2)
  {
    HeadIsStripped(what, arg1, arg2, stripped);
    assert MessageHead(what, arg1, arg2) + [] == MessageHead(what, arg1, arg2);
  }

  lemma ShapeWithData(what: I32, arg1: I32, arg2: I32, data: Data, stripped: set<char>)
    requires data.Data?
    ensures Strip(stripped, MessageHead(what, arg1, arg2) + DataUnits(data))
            == WithData(what, arg1, arg2, Strip(stripped, DataText(data)))
  {
    var head, joined := MessageHead(what, arg1, arg2), DataText(data);
    HeadIsStripped(what, arg1, arg2, stripped);
    assert head + DataUnits(data) == head + [Bare('%')] + joined;
    AroundStripped('%', stripped, head, joined);
    FourParts(Bares(ShowInt(what)), Bares(ShowInt(arg1)), Bares(ShowInt(arg2)), Strip(stripped, joined));
  }

  lemma HeadIsStripped(what: I32, arg1: I32, arg2: I32, stripped: set<char>)
    ensures Strip(stripped, MessageHead(what, arg1, arg2)) == MessageHead(what, arg1, arg2)
  {
  }

  lemma FourParts(a: seq<Unit>, b: seq<Unit>, c: seq<Unit>, x: seq<Unit>)
    ensures a + [Bare('%')] + (b + [Bare('%')] + c) + [Bare('%')] + x
            == a + [Bare('%')] + (b + [Bare('%')] + (c + [Bare('%')] + x))
  {
  }

  /** The first two numbers of a message; `short` when the text was cut off before the third. */
  lemma TwoNumbers(what: I32, arg1: I32, rest: seq<Unit>, q: seq<Unit>) returns (short: bool, tail: seq<Unit>)
    requires Neutral(q)
    requires Cut(DELIMITERS, q, Bares(ShowInt(what)) + [Bare('%')] + (Bares(ShowInt(arg1)) + [Bare('%')] + rest))
    ensures var parts := EscapeSplit('%', Render(q));
            if short then |parts| < 3 && |q| < |ShowInt(what)| + |ShowInt(arg1)| + 2
            else
              && parts == [ShowInt(what), ShowInt(arg1)] + EscapeSplit('%', Render(tail))
              && q == Bares(ShowInt(what)) + [Bare('%')] + (Bares(ShowInt(arg1)) + [Bare('%')] + tail)
              && Neutral(tail) && Cut(DELIMITERS, tail, rest)
  {
    var a, b := Bares(ShowInt(what)), Bares(ShowInt(arg1));
    var q1 := NumberPiece(what, true, b + [Bare('%')] + rest, q);
    tail := [];
    short := q == a;
    if !short {
      TailNeutral(a, q1, q);
      tail := NumberPiece(arg1, true, rest, q1);
      short := q1 == b;
      TwoFirst(ShowInt(what), ShowInt(arg1), EscapeSplit('%', Render(tail)));
      if short {
        assert |q| == |a| + 1 + |b|;
      } else {
        TailNeutral(b, tail, q1);
      }
    } else {
      assert EscapeSplit('%', Render(q)) == [ShowInt(what)] + [];
    }
  }

  lemma TwoFirst(x: string, y: string, more: seq<string>)
    ensures [x] + ([y] + more) == [x, y] + more
  {
  }

  lemma TailNeutral(a: seq<Unit>, tail: seq<Unit>, q: seq<Unit>)
    requires Neutral(q) && q == a + [Bare('%')] + tail
    ensures Neutral(tail)
  {
    assert forall u :: u in tail ==> u in q;
  }

  /** The part of a message behind its first two numbers, when it carries a bundle. */
  lemma {:induction false} ExactMessageData(r: Reader, what: I32, arg1: I32, arg2: I32, data: Data,
                                            stripped: set<char>, q: seq<Unit>)
    requires data.Data? && data.entries != [] && stripped <= DELIMITERS && Neutral(q)
    requires AllEntries(HexIsHex, data.entries) && AllEntries(HasData, data.entries)
    requires Cut(DELIMITERS, q, Bares(ShowInt(arg2)) + [Bare('%')] + Strip(stripped, DataText(data)))
    ensures ReadMessage(r, [ShowInt(what), ShowInt(arg1)] + EscapeSplit('%', Render(q)))
            == Some(VMessage(what, arg1, arg2, Puts(PutsOf(data.entries))))
            <==> && q == Bares(ShowInt(arg2)) + [Bare('%')] + Strip(stripped, DataText(data))
                 && DataReadable(r, data, stripped)
    decreases data, 1
  {
    var c := Bares(ShowInt(arg2));
    var bundle := Strip(stripped, DataText(data));
    var tail := NumberPiece(arg2, true, bundle, q);
    EntryUnitsNonEmpty(data.entries);
    ReadMessageNumbers(r, what, arg1, arg2, EscapeSplit('%', Render(tail)));
    if tail != [] {
      TailNeutral(c, tail, q);
      ExactData(r, data, stripped, tail);
      SameBehind(c, tail, bundle);
      MessageIsOf(r, what, arg1, arg2, EscapeSplit('%', Render(tail))[0], PutsOf(data.entries));
    }
  }

  lemma SameBehind(c: seq<Unit>, x: seq<Unit>, y: seq<Unit>)
    ensures c + [Bare('%')] + x == c + [Bare('%')] + y <==> x == y
  {
    var s, t, n := c + [Bare('%')] + x, c + [Bare('%')] + y, |c| + 1;
    assert s[n..] == x && t[n..] == y;
  }

  lemma MessageIsOf(r: Reader, what: I32, arg1: I32, arg2: I32, part: string, want: seq<Put>)
    ensures var got := ReadPuts(r, '=', r.Reference?, EscapeSplit(':', part));
            MessageOf(what, arg1, arg2, got) == Some(VMessage(what, arg1, arg2, Puts(want))) <==> got == Some(want)
  {
  }

  /** The bundle of a message: only the text up to the next `%` is read. */
  lemma {:induction false} ExactData(r: Reader, data: Data, stripped: set<char>, q: seq<Unit>)
    requires data.Data? && data.entries != [] && stripped <= DELIMITERS && Neutral(q) && q != []
    requires AllEntries(HexIsHex, data.entries) && AllEntries(HasData, data.entries)
    requires Cut(DELIMITERS, q, Strip(stripped, DataText(data)))
    ensures EscapeSplit('%', Render(q)) != []
    ensures ReadPuts(r, '=', r.Reference?, EscapeSplit(':', EscapeSplit('%', Render(q))[0]))
            == Some(PutsOf(data.entries))
            <==> q == Strip(stripped, DataText(data)) && DataReadable(r, data, stripped)
    decreases data, 0
  {
    var joined := DataText(data);
    var bundle := Strip(stripped, joined);
    EntryUnitsNonEmpty(data.entries);
    var p, tail := SplitStep('%', bundle, false, [], q);
    CutStrip({'%'}, p, bundle);
    StripStrip(stripped, {'%'}, joined);
    ExactPuts(r, ':', '=', r.Reference?, data.entries, stripped + {'%'}, Strip({'%'}, p));
  }

  /** The three numbers of a message, and the one further piece that is looked at. */
  lemma ReadMessageNumbers(r: Reader, what: I32, arg1: I32, arg2: I32, more: seq<string>)
    ensures ReadMessage(r, [ShowInt(what), ShowInt(arg1)] + ([ShowInt(arg2)] + more)) ==
            if more == [] then Some(VMessage(what, arg1, arg2, NoPuts))
            else MessageOf(what, arg1, arg2, ReadPuts(r, '=', r.Reference?, EscapeSplit(':', more[0])))
  {
    var parts := [ShowInt(what), ShowInt(arg1)] + ([ShowInt(arg2)] + more);
    ParseIntOfShowInt(what, -0x8000_0000, 0x7FFF_FFFF);
    ParseIntOfShowInt(arg1, -0x8000_0000, 0x7FFF_FFFF);
    ParseIntOfShowInt(arg2, -0x8000_0000, 0x7FFF_FFFF);
    assert |parts| == 3 + |more|;
    assert parts[0] == ShowInt(what) && parts[1] == ShowInt(arg1) && parts[2] == ShowInt(arg2);
    assert more != [] ==> parts[3] == more[0];
  }

  lemma EntryUnitsNonEmpty(entries: seq<Entry>)
    requires entries != []
    ensures Join([Bare(':')], EntriesUnits('=', entries)) != []
  {
    assert |EntryUnits('=', entries[0])| > 0;
  }

  lemma {:induction false} ExactElems(r: Reader, sep: char, es: seq<Elem>, stripped: set<char>, q: seq<Unit>)
    requires stripped <= DELIMITERS && sep in DELIMITERS && AllElems(HexIsHex, es) && AllElems(HasData, es)
    requires Cut(DELIMITERS, q, Strip(stripped, Join([Bare(sep)], ElemsUnits(es))))
    ensures ReadAll(r, EscapeSplit(sep, Render(q))) == Some(Vals(es))
            <==> q == Strip(stripped, Join([Bare(sep)], ElemsUnits(es))) && ElemsReadable(r, sep, es, stripped)
    decreases es
  {
    if es == [] {
      assert Strip(stripped, Join([Bare(sep)], ElemsUnits(es))) == [] && q == [];
      SplitHead(sep, q);
    } else {
      var u0, more := Strip(stripped, Units(es[0])), |es| > 1;
      var rest := Strip(stripped, Join([Bare(sep)], ElemsUnits(es[1..])));
      JoinStripped(sep, stripped, ElemsUnits(es));
      ElemsNeutral(sep, es, stripped, q);
      var p, tail := SplitStep(sep, u0, more, rest, q);
      if q != [] {
        ExactAfter(r, sep, es[0], stripped, p);
        var parts := EscapeSplit(sep, Render(tail));
        ReadAllCons(r, Render(Strip({sep}, p)), parts, Val(es[0]), Vals(es[1..]));
        if p == u0 && more && q != u0 {
          ExactElems(r, sep, es[1..], stripped, tail);
        }
        Conclude(sep, u0, more, rest, q, p, tail,
                 Read(r, Render(Strip({sep}, p))) == Some(Val(es[0])),
                 ReadAll(r, parts) == Some(Vals(es[1..])),
                 Readable(r, es[0], stripped + {sep}),
                 ElemsReadable(r, sep, es[1..], stripped));
      }
    }
  }

  lemma JoinStripped(sep: char, stripped: set<char>, uss: seq<seq<Unit>>)
    requires uss != []
    ensures Strip(stripped, Join([Bare(sep)], uss)) ==
            if |uss| == 1 then Strip(stripped, uss[0])
            else Strip(stripped, uss[0]) + [Bare(sep)] + Strip(stripped, Join([Bare(sep)], uss[1..]))
  {
    if |uss| > 1 {
      StripAppend(stripped, uss[0] + [Bare(sep)], Join([Bare(sep)], uss[1..]));
      StripAppend(stripped, uss[0], [Bare(sep)]);
      assert Strip(stripped, [Bare(sep)]) == [Bare(sep)];
    }
  }

  lemma JoinNeutral(sep: char, uss: seq<seq<Unit>>, stripped: set<char>, q: seq<Unit>)
    requires stripped <= DELIMITERS && sep in DELIMITERS && forall us :: us in uss ==> Avoids({BACKSLASH}, us)
    requires q <= Strip(stripped, Join([Bare(sep)], uss))
    ensures Neutral(q)
  {
    AvoidsJoin({BACKSLASH}, sep, uss);
    assert BACKSLASH in {BACKSLASH};
    StripNeutral(stripped, Join([Bare(sep)], uss));
    PrefixNeutral(q, Strip(stripped, Join([Bare(sep)], uss)));
  }

  lemma ElemsNeutral(sep: char, es: seq<Elem>, stripped: set<char>, q: seq<Unit>)
    requires stripped <= DELIMITERS && sep in DELIMITERS && AllElems(HexIsHex, es)
    requires q <= Strip(stripped, Join([Bare(sep)], ElemsUnits(es)))
    ensures Neutral(q)
  {
    ElemsQuiet(es);
    forall us | us in ElemsUnits(es) ensures Avoids({BACKSLASH}, us) {
      assert Avoids(OUTER, us) && BACKSLASH in OUTER;
    }
    JoinNeutral(sep, ElemsUnits(es), stripped, q);
  }
}

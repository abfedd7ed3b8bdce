/** Parcel and intent strings: the value tree and its wire text. */
module ParcelStrings {
  import opened Prelude
  import opened Numbers
  import opened Wire
  import opened Escape

  predicate IsDecimalDigit(c: char) {
    '0' <= c <= '9'
  }

  predicate IsInfinity(s: string) {
    s == "inf" || s == "-inf"
  }

  /** A digit, a leading minus sign, or the only point, behind a digit. */
  predicate NumeralAt(s: string, i: nat)
    requires i < |s|
  {
    || IsDecimalDigit(s[i])
    || (s[i] == '-' && i == 0)
    || (s[i] == '.' && i > 0 && IsDecimalDigit(s[i - 1]) && forall j :: 0 <= j < i ==> s[j] != '.')
  }

  predicate IsNumeral(s: string) {
    s != "" && IsDecimalDigit(s[|s| - 1]) && forall i :: 0 <= i < |s| ==> NumeralAt(s, i)
  }

  /** What `Display` writes for a floating-point number: it never uses an exponent. */
  predicate IsFloatText(s: string) {
    s == "NaN" || IsInfinity(s) || IsNumeral(s)
  }

  type FloatText = s: string | IsFloatText(s) witness "0"

  /** Digits, and a point and more digits behind them or not. */
  predicate DecimalOf(s: string, whole: string, fraction: string) {
    IsDigits(whole) && (s == whole || (IsDigits(fraction) && s == whole + "." + fraction))
  }

  ghost predicate IsDecimal(s: string) {
    exists whole: string, fraction: string :: DecimalOf(s, whole, fraction)
  }

  lemma DecimalIsNumeral(s: string, whole: string, fraction: string)
    requires DecimalOf(s, whole, fraction)
    ensures IsNumeral(s) && IsNumeral("-" + s)
  {
    forall i | 0 <= i < |s| ensures NumeralAt(s, i) && s[i] != '-' {
      assert i < |whole| ==> s[i] == whole[i];
      assert i > |whole| ==> s[i] == fraction[i - |whole| - 1];
      assert forall j :: 0 <= j < |whole| ==> s[j] == whole[j];
    }
    assert s[|s| - 1] == if s == whole then whole[|whole| - 1] else fraction[|fraction| - 1];
    MinusIsNumeral(s);
  }

  lemma MinusIsNumeral(s: string)
    requires IsNumeral(s) && forall i :: 0 <= i < |s| ==> s[i] != '-'
    ensures IsNumeral("-" + s)
  {
    var t := "-" + s;
    assert forall j :: 0 < j < |t| ==> t[j] == s[j - 1];
    forall i | 0 <= i < |t| ensures NumeralAt(t, i) {
      if i > 0 {
        assert NumeralAt(s, i - 1) && NumeralAt(s, 0);
      }
    }
    assert t[|t| - 1] == s[|s| - 1];
  }

  /** All characters from the `a`-th on are digits but perhaps one point that has digits around it. */
  lemma DecimalParts(s: string, a: nat) returns (whole: string, fraction: string)
    requires IsNumeral(s) && a < |s| && s[a] != '-' && forall i :: a < i < |s| ==> s[i] != '-'
    requires a > 0 ==> !IsDecimalDigit(s[a - 1])
    ensures DecimalOf(s[a..], whole, fraction)
  {
    forall i | a <= i < |s| ensures IsDecimalDigit(s[i]) || s[i] == '.' {
      assert NumeralAt(s, i);
    }
    if k :| a <= k < |s| && s[k] == '.' {
      PointInside(s, a, k);
      whole, fraction := s[a..k], s[k + 1..|s|];
      SliceIsDigits(s, a, k);
      SliceIsDigits(s, k + 1, |s|);
      assert s[a..] == whole + "." + fraction;
    } else {
      whole, fraction := s[a..|s|], "";
      SliceIsDigits(s, a, |s|);
      assert s[a..] == whole;
    }
  }

  lemma PointInside(s: string, a: nat, k: nat)
    requires IsNumeral(s) && a <= k < |s| && s[k] == '.' && (a > 0 ==> !IsDecimalDigit(s[a - 1]))
    requires forall i :: a <= i < |s| ==> IsDecimalDigit(s[i]) || s[i] == '.'
    ensures a < k < |s| - 1 && forall i :: a <= i < |s| && i != k ==> '0' <= s[i] <= '9'
  {
    assert NumeralAt(s, k);
    forall i | a <= i < |s| && i != k ensures '0' <= s[i] <= '9' {
      assert NumeralAt(s, i);
    }
  }

  lemma NumeralIsDecimal(s: string)
    requires IsNumeral(s)
    ensures IsDecimal(if s[0] == '-' then s[1..] else s)
  {
    forall i | 0 < i < |s| ensures s[i] != '-' {
      assert NumeralAt(s, i);
    }
    assert NumeralAt(s, 0);
    if s[0] == '-' {
      var whole, fraction := DecimalParts(s, 1);
    } else {
      var whole, fraction := DecimalParts(s, 0);
      assert s[0..] == s;
    }
  }

  lemma SliceIsDigits(s: string, a: nat, b: nat)
    requires a < b <= |s| && forall i :: a <= i < b ==> '0' <= s[i] <= '9'
    ensures IsDigits(s[a..b])
  {
    forall i | 0 <= i < b - a ensures '0' <= s[a..b][i] <= '9' {
      assert s[a..b][i] == s[a + i];
    }
  }

  /** These are the printed texts: the three words, and decimal numbers with a minus sign or without. */
  lemma FloatTextIff(s: string)
    ensures IsFloatText(s) <==>
            || s == "NaN" || s == "inf" || s == "-inf" || IsDecimal(s)
            || (s != "" && s[0] == '-' && IsDecimal(s[1..]))
  {
    if IsNumeral(s) {
      NumeralIsDecimal(s);
    }
    if whole, fraction :| DecimalOf(s, whole, fraction) {
      DecimalIsNumeral(s, whole, fraction);
    }
    if s != "" && s[0] == '-' && IsDecimal(s[1..]) {
      var whole, fraction :| DecimalOf(s[1..], whole, fraction);
      DecimalIsNumeral(s[1..], whole, fraction);
      assert s == "-" + s[1..];
    }
  }

  /** A floating-point number is given by its printed text, a hash map by its entries in iteration order. */
  datatype Elem =
    | Long(i64: I64)
    | Int(i32: I32)
    | Short(i16: I16)
    | Byte(u8: Byte)
    | Bool(flag: bool)
    | Double(f64: FloatText)
    | Float(f32: FloatText)
    | Binder
    | Null
    | WriteFd(path: string)
    | ReadFd(path: string)
    | Str(text: string)
    | RawByteArray(bytes: seq<Byte>)
    | HexByteArray(hex: string)
    | Bundle(entries: seq<Entry>)
    | Map(pairs: seq<Pair>)
    | List(elems: seq<Elem>)
    | Complex(parts: seq<Elem>)
    | Message(what: I32, arg1: I32, arg2: I32, data: Data)

  datatype Entry = Entry(key: string, value: Elem)
  datatype Pair = Pair(key: Elem, value: Elem)
  datatype Data = NoData | Data(entries: seq<Entry>)

  // ---------------------------------------------------------------- whole-tree conditions

  /** `p` holds of the value and of every value inside it. */
  predicate All(p: Elem -> bool, e: Elem)
    decreases e
  {
    p(e) &&
    match e
    case Bundle(entries) => AllEntries(p, entries)
    case Map(pairs) => AllPairs(p, pairs)
    case List(elems) => AllElems(p, elems)
    case Complex(parts) => AllElems(p, parts)
    case Message(_, _, _, Data(data)) => AllEntries(p, data)
    case _ => true
  }

  predicate AllElems(p: Elem -> bool, es: seq<Elem>)
    decreases es
  {
    es != [] ==> All(p, es[0]) && AllElems(p, es[1..])
  }

  predicate AllEntries(p: Elem -> bool, entries: seq<Entry>)
    decreases entries
  {
    entries != [] ==> All(p, entries[0].value) && AllEntries(p, entries[1..])
  }

  predicate AllPairs(p: Elem -> bool, pairs: seq<Pair>)
    decreases pairs
  {
    pairs != [] ==> AllPair(p, pairs[0]) && AllPairs(p, pairs[1..])
  }

  predicate AllPair(p: Elem -> bool, pair: Pair)
    decreases pair
  {
    All(p, pair.key) && All(p, pair.value)
  }

  /** Printing a message with an empty bundle computes `len() - 1` and panics. */
  const HasData: Elem -> bool := (e: Elem) => e.Message? && e.data.Data? ==> e.data.entries != []

  /** The parser only lets hexadecimal digits into a hex byte array; the printer writes them as they are. */
  const HexIsHex: Elem -> bool := (e: Elem) => e.HexByteArray? ==> forall c :: c in e.hex ==> DigitValue(c) < 16

  predicate Printable(e: Elem) {
    All(HasData, e)
  }

  predicate HexSafe(e: Elem) {
    All(HexIsHex, e)
  }

  // ---------------------------------------------------------------- Display

  predicate IsContainer(e: Elem) {
    e.Bundle? || e.Map? || e.List? || e.Complex? || e.Message?
  }

  predicate IsText(e: Elem) {
    e.WriteFd? || e.ReadFd? || e.Str?
  }

  function Tag(e: Elem): (tag: string)
    ensures |tag| == 4
  {
    match e
    case Long(_) => "LONG"
    case Int(_) => "_INT"
    case Short(_) => "SHRT"
    case Byte(_) => "BYTE"
    case Bool(_) => "BOOL"
    case Double(_) => "DUBL"
    case Float(_) => "_FLT"
    case Binder => "BIND"
    case Null => "NULL"
    case WriteFd(_) => "WRFD"
    case ReadFd(_) => "RDFD"
    case Str(_) => "_STR"
    case RawByteArray(_) => "BARR"
    case HexByteArray(_) => "BARR"
    case Bundle(_) => "BUND"
    case Map(_) => "_MAP"
    case List(_) => "_LST"
    case Complex(_) => "_CMB"
    case Message(_, _, _, _) => "_MSG"
  }

  /** The text after the tag of a value that is written as it is. */
  function PlainText(e: Elem): string
    requires !IsContainer(e) && !IsText(e)
  {
    match e
    case Long(v) => ShowInt(v)
    case Int(v) => ShowInt(v)
    case Short(v) => ShowInt(v)
    case Byte(v) => ShowInt(v)
    case Bool(v) => ShowBool(v)
    case Double(v) => v
    case Float(v) => v
    case Binder => ""
    case Null => ""
    case RawByteArray(v) => HexOf(v)
    case HexByteArray(v) => v
  }

  function TextOf(e: Elem): string
    requires IsText(e)
  {
    match e
    case WriteFd(v) => v
    case ReadFd(v) => v
    case Str(v) => v
  }

  function Show(e: Elem): string
    requires Printable(e)
    decreases e, 1
  {
    Tag(e) + ShowBody(e)
  }

  function ShowBody(e: Elem): string
    requires Printable(e)
    decreases e, 0
  {
    if IsText(e) then EscapeString(TextOf(e))
    else if !IsContainer(e) then PlainText(e)
    else
      match e
      case Bundle(v) => Join(":", ShowEntries('=', v))
      case Map(v) => Join(":", ShowPairs(v))
      case List(v) => Join(":", ShowElems(v))
      case Complex(v) => Join("|", ShowElems(v))
      case Message(what, arg1, arg2, data) =>
        ShowInt(what) + "%" + ShowInt(arg1) + "%" + ShowInt(arg2)
        + if data.Data? then "%" + Join(":", ShowEntries('=', data.entries)) else ""
  }

  function ShowBool(b: bool): string {
    if b then "true" else "false"
  }

  function ShowElems(es: seq<Elem>): (r: seq<string>)
    requires AllElems(HasData, es)
    ensures |r| == |es|
    decreases es
  {
    if es == [] then [] else [Show(es[0])] + ShowElems(es[1..])
  }

  /** Keys are escaped text; `kv` is '=' in bundles and '>' in intent strings. */
  function ShowEntries(kv: char, entries: seq<Entry>): (r: seq<string>)
    requires AllEntries(HasData, entries)
    ensures |r| == |entries|
    decreases entries
  {
    if entries == [] then [] else [ShowEntry(kv, entries[0])] + ShowEntries(kv, entries[1..])
  }

  function ShowEntry(kv: char, entry: Entry): string
    requires All(HasData, entry.value)
    decreases entry
  {
    EscapeString(entry.key) + [kv] + Show(entry.value)
  }

  function ShowPairs(pairs: seq<Pair>): (r: seq<string>)
    requires AllPairs(HasData, pairs)
    ensures |r| == |pairs|
    decreases pairs
  {
    if pairs == [] then [] else [ShowPair(pairs[0])] + ShowPairs(pairs[1..])
  }

  function ShowPair(pair: Pair): string
    requires AllPair(HasData, pair)
    decreases pair
  {
    Show(pair.key) + "=" + Show(pair.value)
  }

  /** The source's equality: values are equal when they print alike. */
  predicate WireEqual(a: Elem, b: Elem)
    requires Printable(a) && Printable(b)
  {
    Show(a) == Show(b)
  }

  // ---------------------------------------------------------------- the same texts as units

  function Units(e: Elem): (us: seq<Unit>)
    ensures |us| >= 4
    decreases e, 1
  {
    Bares(Tag(e)) + Body(e)
  }

  function Body(e: Elem): seq<Unit>
    decreases e, 0
  {
    if IsText(e) then TextUnits(TextOf(e))
    else if !IsContainer(e) then Bares(PlainText(e))
    else
      match e
      case Bundle(v) => Join([Bare(':')], EntriesUnits('=', v))
      case Map(v) => Join([Bare(':')], PairsUnits(v))
      case List(v) => Join([Bare(':')], ElemsUnits(v))
      case Complex(v) => Join([Bare('|')], ElemsUnits(v))
      case Message(what, arg1, arg2, data) => MessageHead(what, arg1, arg2) + DataUnits(data)
  }

  function MessageHead(what: int, arg1: int, arg2: int): seq<Unit> {
    Bares(ShowInt(what)) + [Bare('%')] + (Bares(ShowInt(arg1)) + [Bare('%')] + Bares(ShowInt(arg2)))
  }

  function DataUnits(data: Data): seq<Unit>
    decreases data
  {
    if data.Data? then [Bare('%')] + Join([Bare(':')], EntriesUnits('=', data.entries)) else []
  }

  function ElemsUnits(es: seq<Elem>): (r: seq<seq<Unit>>)
    ensures |r| == |es|
    decreases es
  {
    if es == [] then [] else [Units(es[0])] + ElemsUnits(es[1..])
  }

  function EntryUnits(kv: char, entry: Entry): seq<Unit>
    decreases entry
  {
    TextUnits(entry.key) + [Bare(kv)] + Units(entry.value)
  }

  function EntriesUnits(kv: char, entries: seq<Entry>): (r: seq<seq<Unit>>)
    ensures |r| == |entries|
    decreases entries
  {
    if entries == [] then [] else [EntryUnits(kv, entries[0])] + EntriesUnits(kv, entries[1..])
  }

  function PairsUnits(pairs: seq<Pair>): (r: seq<seq<Unit>>)
    ensures |r| == |pairs|
    decreases pairs
  {
    if pairs == [] then [] else [PairUnits(pairs[0])] + PairsUnits(pairs[1..])
  }

  function PairUnits(pair: Pair): seq<Unit>
    decreases pair
  {
    Units(pair.key) + [Bare('=')] + Units(pair.value)
  }

  // ---------------------------------------------------------------- both views agree

  function RenderAll(uss: seq<seq<Unit>>): (r: seq<string>)
    ensures |r| == |uss|
  {
    if uss == [] then [] else [Render(uss[0])] + RenderAll(uss[1..])
  }

  lemma {:induction false} RenderJoin(sep: char, uss: seq<seq<Unit>>)
    ensures Render(Join([Bare(sep)], uss)) == Join([sep], RenderAll(uss))
  {
    if |uss| == 1 {
      assert RenderAll(uss) == [Render(uss[0])];
    } else if |uss| > 1 {
      RenderJoin(sep, uss[1..]);
      assert RenderAll(uss)[1..] == RenderAll(uss[1..]);
      RenderAround(uss[0], sep, Join([Bare(sep)], uss[1..]));
    }
  }

  /** Display writes exactly the units of the value. */
  lemma {:induction false} ShowIsUnits(e: Elem)
    requires Printable(e)
    ensures Show(e) == Render(Units(e))
    decreases e, 1
  {
    ShowBodyIsBody(e);
    RenderAppend(Bares(Tag(e)), Body(e));
    RenderBares(Tag(e));
  }

  lemma {:induction false} ShowBodyIsBody(e: Elem)
    requires Printable(e)
    ensures ShowBody(e) == Render(Body(e))
    decreases e, 0
  {
    if IsText(e) {
      EscapeIsSinglePass(TextOf(e));
    } else if !IsContainer(e) {
      RenderBares(PlainText(e));
    } else {
      match e
      case Bundle(v) => ShowEntriesIsUnits('=', v); RenderJoin(':', EntriesUnits('=', v));
      case Map(v) => ShowPairsIsUnits(v); RenderJoin(':', PairsUnits(v));
      case List(v) => ShowElemsIsUnits(v); RenderJoin(':', ElemsUnits(v));
      case Complex(v) => ShowElemsIsUnits(v); RenderJoin('|', ElemsUnits(v));
      case Message(what, arg1, arg2, data) =>
        if data.Data? {
          ShowEntriesIsUnits('=', data.entries);
          RenderJoin(':', EntriesUnits('=', data.entries));
          RenderAround([], '%', Join([Bare(':')], EntriesUnits('=', data.entries)));
          assert [] + [Bare('%')] == [Bare('%')];
        }
        RenderHead(what, arg1, arg2);
        RenderAppend(MessageHead(what, arg1, arg2), DataUnits(data));
    }
  }

  lemma RenderHead(what: int, arg1: int, arg2: int)
    ensures Render(MessageHead(what, arg1, arg2)) == ShowInt(what) + "%" + ShowInt(arg1) + "%" + ShowInt(arg2)
  {
    var a, b, c := Bares(ShowInt(what)), Bares(ShowInt(arg1)), Bares(ShowInt(arg2));
    RenderAround(a, '%', b + [Bare('%')] + c);
    RenderAround(b, '%', c);
    RenderBares(ShowInt(what));
    RenderBares(ShowInt(arg1));
    RenderBares(ShowInt(arg2));
  }

  lemma {:induction false} ShowElemsIsUnits(es: seq<Elem>)
    requires AllElems(HasData, es)
    ensures ShowElems(es) == RenderAll(ElemsUnits(es))
    decreases es
  {
    if es != [] {
      ShowIsUnits(es[0]);
      ShowElemsIsUnits(es[1..]);
    }
  }

  lemma {:induction false} ShowEntriesIsUnits(kv: char, entries: seq<Entry>)
    requires AllEntries(HasData, entries)
    ensures ShowEntries(kv, entries) == RenderAll(EntriesUnits(kv, entries))
    decreases entries
  {
    if entries != [] {
      ShowEntryIsUnits(kv, entries[0]);
      ShowEntriesIsUnits(kv, entries[1..]);
    }
  }

  lemma {:induction false} ShowEntryIsUnits(kv: char, entry: Entry)
    requires All(HasData, entry.value)
    ensures ShowEntry(kv, entry) == Render(EntryUnits(kv, entry))
    decreases entry
  {
    EscapeIsSinglePass(entry.key);
    ShowIsUnits(entry.value);
    RenderAround(TextUnits(entry.key), kv, Units(entry.value));
  }

  lemma {:induction false} ShowPairsIsUnits(pairs: seq<Pair>)
    requires AllPairs(HasData, pairs)
    ensures ShowPairs(pairs) == RenderAll(PairsUnits(pairs))
    decreases pairs
  {
    if pairs != [] {
      ShowPairIsUnits(pairs[0]);
      ShowPairsIsUnits(pairs[1..]);
    }
  }

  lemma {:induction false} ShowPairIsUnits(pair: Pair)
    requires AllPair(HasData, pair)
    ensures ShowPair(pair) == Render(PairUnits(pair))
    decreases pair
  {
    ShowIsUnits(pair.key);
    ShowIsUnits(pair.value);
    RenderAround(Units(pair.key), '=', Units(pair.value));
  }

  // ---------------------------------------------------------------- separators in the printed text

  const SPECIAL: set<char> := DELIMITERS + {BACKSLASH}

  /** The separators of the outermost level, and the backslash. */
  const OUTER: set<char> := {',', '>', BACKSLASH}

  predicate IsInertText(s: string) {
    forall c :: c in s ==> c !in SPECIAL
  }

  lemma InertBares(s: string)
    requires IsInertText(s)
    ensures Avoids(SPECIAL, Bares(s))
  {
    forall u | u in Bares(s) ensures u.Bare? && u.c !in SPECIAL {
      var i :| 0 <= i < |s| && Bares(s)[i] == u;
      assert s[i] in s;
    }
  }

  lemma TextAvoids(s: string)
    ensures Avoids(SPECIAL, TextUnits(s))
  {
    TextUnitsSafe(s);
  }

  lemma DigitsAreInert(s: string)
    requires forall c :: c in s ==> DigitValue(c) < 16 || c == '-'
    ensures IsInertText(s)
  {
  }

  lemma FloatTextIsInert(s: FloatText)
    ensures IsInertText(s)
  {
    forall i | 0 <= i < |s| ensures s[i] !in SPECIAL {
      assert IsNumeral(s) ==> NumeralAt(s, i);
    }
  }

  lemma PlainTextIsInert(e: Elem)
    requires !IsContainer(e) && !IsText(e) && HexSafe(e)
    ensures IsInertText(PlainText(e))
  {
    match e
    case Bool(v) =>
    case Double(v) => FloatTextIsInert(v);
    case Float(v) => FloatTextIsInert(v);
    case Binder =>
    case Null =>
    case RawByteArray(v) => HexOfIsLowerHex(v); DigitsAreInert(HexOf(v));
    case HexByteArray(v) => assert HexIsHex(e); DigitsAreInert(v);
    case Long(v) => DigitsAreInert(ShowInt(v));
    case Int(v) => DigitsAreInert(ShowInt(v));
    case Short(v) => DigitsAreInert(ShowInt(v));
    case Byte(v) => DigitsAreInert(ShowInt(v));
  }

  lemma ScalarAvoids(e: Elem)
    requires !IsContainer(e) && HexSafe(e)
    ensures Avoids(SPECIAL, Body(e))
  {
    if IsText(e) {
      TextAvoids(TextOf(e));
    } else {
      PlainTextIsInert(e);
      InertBares(PlainText(e));
    }
  }

  lemma HeadAvoids(what: int, arg1: int, arg2: int, bad: set<char>)
    requires '%' !in bad && bad <= SPECIAL
    ensures Avoids(bad, MessageHead(what, arg1, arg2))
  {
    InertBares(ShowInt(what));
    InertBares(ShowInt(arg1));
    InertBares(ShowInt(arg2));
    AvoidsAround(bad, Bares(ShowInt(arg1)), '%', Bares(ShowInt(arg2)));
    AvoidsAround(bad, Bares(ShowInt(what)), '%', Bares(ShowInt(arg1)) + [Bare('%')] + Bares(ShowInt(arg2)));
  }

  /** Tags are made of capital letters and underscores. */
  lemma TagIsInert(e: Elem)
    ensures IsInertText(Tag(e))
  {
    if IsContainer(e) {
      ContainerTag(e);
    } else {
      ScalarTag(e);
    }
    TagTextIsInert(Tag(e));
  }

  lemma TagTextIsInert(s: string)
    requires IsTagText(s)
    ensures IsInertText(s)
  {
  }

  predicate IsTagText(s: string) {
    forall i :: 0 <= i < |s| ==> s[i] == '_' || 'A' <= s[i] <= 'Z'
  }

  lemma ContainerTag(e: Elem)
    requires IsContainer(e)
    ensures IsTagText(Tag(e))
  {
  }

  lemma ScalarTag(e: Elem)
    requires !IsContainer(e)
    ensures IsTagText(Tag(e))
  {
  }

  lemma TagAvoids(e: Elem)
    ensures Avoids(SPECIAL, Bares(Tag(e)))
  {
    TagIsInert(e);
    InertBares(Tag(e));
  }

  /** No separator of the outermost level is exposed at any depth. */
  lemma {:induction false} UnitsQuiet(e: Elem)
    requires HexSafe(e)
    ensures Avoids(OUTER, Units(e))
    decreases e, 1
  {
    TagAvoids(e);
    BodyQuiet(e);
    AvoidsAppend(OUTER, Bares(Tag(e)), Body(e));
  }

  lemma {:induction false} BodyQuiet(e: Elem)
    requires HexSafe(e)
    ensures Avoids(OUTER, Body(e))
    decreases e, 0
  {
    if !IsContainer(e) {
      ScalarAvoids(e);
    } else {
      match e
      case Bundle(v) => EntriesQuiet(v);
      case Map(v) => PairsQuiet(v); AvoidsJoin(OUTER, ':', PairsUnits(v));
      case List(v) => ElemsQuiet(v); AvoidsJoin(OUTER, ':', ElemsUnits(v));
      case Complex(v) => ElemsQuiet(v); AvoidsJoin(OUTER, '|', ElemsUnits(v));
      case Message(what, arg1, arg2, data) =>
        if data.Data? {
          EntriesQuiet(data.entries);
          AvoidsAround(OUTER, [], '%', Join([Bare(':')], EntriesUnits('=', data.entries)));
          assert [] + [Bare('%')] == [Bare('%')];
        }
        HeadAvoids(what, arg1, arg2, OUTER);
        AvoidsAppend(OUTER, MessageHead(what, arg1, arg2), DataUnits(data));
    }
  }

  lemma {:induction false} ElemsQuiet(es: seq<Elem>)
    requires AllElems(HexIsHex, es)
    ensures forall us :: us in ElemsUnits(es) ==> Avoids(OUTER, us)
    decreases es
  {
    if es != [] {
      UnitsQuiet(es[0]);
      ElemsQuiet(es[1..]);
    }
  }

  lemma {:induction false} EntriesQuiet(entries: seq<Entry>)
    requires AllEntries(HexIsHex, entries)
    ensures forall us :: us in EntriesUnits('=', entries) ==> Avoids(OUTER, us)
    ensures Avoids(OUTER, Join([Bare(':')], EntriesUnits('=', entries)))
    decreases entries
  {
    if entries != [] {
      EntryQuiet(entries[0]);
      EntriesQuiet(entries[1..]);
    }
    AvoidsJoin(OUTER, ':', EntriesUnits('=', entries));
  }

  lemma {:induction false} EntryQuiet(entry: Entry)
    requires All(HexIsHex, entry.value)
    ensures Avoids(OUTER, EntryUnits('=', entry))
    decreases entry
  {
    TextAvoids(entry.key);
    UnitsQuiet(entry.value);
    AvoidsAround(OUTER, TextUnits(entry.key), '=', Units(entry.value));
  }

  lemma {:induction false} PairsQuiet(pairs: seq<Pair>)
    requires AllPairs(HexIsHex, pairs)
    ensures forall us :: us in PairsUnits(pairs) ==> Avoids(OUTER, us)
    decreases pairs
  {
    if pairs != [] {
      PairQuiet(pairs[0]);
      PairsQuiet(pairs[1..]);
    }
  }

  lemma {:induction false} PairQuiet(pair: Pair)
    requires AllPair(HexIsHex, pair)
    ensures Avoids(OUTER, PairUnits(pair))
    decreases pair
  {
    UnitsQuiet(pair.key);
    UnitsQuiet(pair.value);
    AvoidsAround(OUTER, Units(pair.key), '=', Units(pair.value));
  }
}

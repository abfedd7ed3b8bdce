/** The test application's reader of parcel and intent strings (ParcelString.kt). */
module AppReader {
  import opened Prelude
  import opened Numbers
  import opened Escape
  import opened ParcelStrings

  // ---------------------------------------------------------------- SimpleEscapeSplitter

  function Longest(parts: seq<string>): (n: nat)
    ensures forall p :: p in parts ==> |p| <= n
  {
    if parts == [] then 0
    else var n := Longest(parts[1..]); if |parts[0]| > n then |parts[0]| else n
  }

  lemma {:induction false} LongestBound(parts: seq<string>, n: nat)
    requires forall p :: p in parts ==> |p| <= n
    ensures Longest(parts) <= n
  {
    if parts != [] {
      assert parts[0] in parts;
      LongestBound(parts[1..], n);
    }
  }

  /** The pieces still to come; `started` says whether the current piece has consumed a character. */
  function Scan(sep: char, s: string, part: string, started: bool, escaped: bool): seq<string>
    decreases |s|
  {
    if s == "" then if started then [part] else []
    else if escaped then
      Scan(sep, s[1..], part + if s[0] != sep then [BACKSLASH, s[0]] else [s[0]], true, false)
    else if s[0] == BACKSLASH then Scan(sep, s[1..], part, true, true)
    else if s[0] == sep then [part] + Scan(sep, s[1..], "", false, false)
    else Scan(sep, s[1..], part + [s[0]], true, false)
  }

  lemma {:induction false} ScanShort(sep: char, s: string, part: string, started: bool, escaped: bool)
    ensures forall p :: p in Scan(sep, s, part, started, escaped) ==> |p| <= |part| + |s| + if escaped then 1 else 0
    decreases |s|
  {
    if s != "" {
      if escaped {
        ScanShort(sep, s[1..], part + if s[0] != sep then [BACKSLASH, s[0]] else [s[0]], true, false);
      } else if s[0] == BACKSLASH {
        ScanShort(sep, s[1..], part, true, true);
      } else if s[0] == sep {
        ScanShort(sep, s[1..], "", false, false);
      } else {
        ScanShort(sep, s[1..], part + [s[0]], true, false);
      }
    }
  }

  function EscapeSplit(sep: char, s: string): (parts: seq<string>)
    ensures Longest(parts) <= |s|
  {
    var parts := Scan(sep, s, "", false, false);
    ScanShort(sep, s, "", false, false);
    LongestBound(parts, |s|);
    parts
  }

  /** The generator loop of the splitter: one round of the outer loop per generated piece. */
  method SimpleEscapeSplitter(splitChar: char, s: string) returns (parts: seq<string>)
    ensures parts == EscapeSplit(splitChar, s)
  {
    parts := [];
    var idx, escaped := 0, false;
    ghost var all := Scan(splitChar, s, "", false, false);
    while idx < |s|
      invariant idx <= |s| && (escaped ==> idx == |s|)
      invariant parts + Scan(splitChar, s[idx..], "", false, false) == all
    {
      var part: string := "";
      var started, returned := false, false;
      while idx < |s| && !returned
        invariant idx <= |s| && (returned ==> !escaped)
        invariant idx < |s| || started || returned
        invariant returned ==> parts + [part] + Scan(splitChar, s[idx..], "", false, false) == all
        invariant !returned ==> parts + Scan(splitChar, s[idx..], part, started, escaped) == all
        decreases |s| - idx
      {
        var c := s[idx];
        assert s[idx..][0] == c && s[idx..][1..] == s[idx + 1..];
        idx := idx + 1;
        if escaped {
          // Only the separator loses its backslash here.
          if c != splitChar {
            part := part + [BACKSLASH, c];
          } else {
            part := part + [c];
          }
          escaped := false;
        } else if c == BACKSLASH {
          escaped := true;
        } else if c == splitChar {
          returned := true;
          assert parts + ([part] + Scan(splitChar, s[idx..], "", false, false))
              == parts + [part] + Scan(splitChar, s[idx..], "", false, false);
        } else {
          part := part + [c];
        }
        started := true;
      }
      assert !returned ==> s[idx..] == "" && Scan(splitChar, s[idx..], part, started, escaped) == [part];
      parts := parts + [part];
    }
  }

  // ---------------------------------------------------------------- unescapeString

  /** `hexCharIdx`: only lower-case digits. */
  function Nibble(c: char): Option<nat> {
    if IsLowerHex(c) then Some(DigitValue(c)) else None
  }

  function ByteFromNibbles(high: char, low: char): Option<Byte> {
    match (Nibble(high), Nibble(low))
    case (Some(h), Some(l)) => Some(h * 16 + l)
    case _ => None
  }

  function ToAsciiChar(b: Byte): char {
    if 33 <= b <= 125 then b as char else '.'
  }

  /** The UTF-16 code unit of `\uXXYY`: the low byte is sign-extended before it is or-ed in. */
  function CodeUnit(high: Byte, low: Byte): nat {
    if low >= 0x80 then 0xFF00 + low else high * 256 + low
  }

  /** None models every exception. A `\u` escape that names half of a surrogate pair is outside the model. */
  function UnescapeApp(s: string): Option<string>
    decreases |s|
  {
    if s == "" then Some("")
    else if s[0] != BACKSLASH then Cons(s[0], UnescapeApp(s[1..]))
    else if |s| == 1 then Some("")
    else
      var c := s[1];
      if c == 'n' then Cons('\n', UnescapeApp(s[2..]))
      else if c == 't' then Cons('\t', UnescapeApp(s[2..]))
      else if c == 'b' then Cons(8 as char, UnescapeApp(s[2..]))
      else if c == 'r' then Cons('\r', UnescapeApp(s[2..]))
      else if c == 'x' then
        if |s| < 4 then None
        else
          match ByteFromNibbles(s[2], s[3])
          case None => None
          case Some(b) => Cons(ToAsciiChar(b), UnescapeApp(s[4..]))
      else if c == 'u' then
        if |s| < 6 then None
        else
          match (ByteFromNibbles(s[2], s[3]), ByteFromNibbles(s[4], s[5]))
          case (Some(h), Some(l)) =>
            if IsScalar(CodeUnit(h, l)) then Cons(CodeUnit(h, l) as char, UnescapeApp(s[6..])) else None
          case _ => None
      else if c == BACKSLASH || c == '\"' || c == '\'' || c in DELIMITERS then Cons(c, UnescapeApp(s[2..]))
      else None
  }

  // ---------------------------------------------------------------- values

  datatype Value =
    | VBinder
    | VNull
    | VLong(i64: int)
    | VInt(i32: int)
    | VShort(i16: int)
    | VByte(bits: int)
    | VBool(flag: bool)
    | VDouble(f64: string)
    | VFloat(f32: string)
    | VWriteFd(path: string)
    | VReadFd(path: string)
    | VString(text: string)
    | VByteArray(bytes: seq<Byte>)
    | VBundle(puts: seq<Put>)
    | VMap(pairs: seq<ValuePair>)
    | VList(elems: seq<Value>)
    | VCombined(parts: seq<Value>)
    | VMessage(what: int, arg1: int, arg2: int, data: PutData)

  /** A bundle is given by the `putX` calls made on it, in order. */
  datatype Put = Put(key: string, value: Value)
  datatype ValuePair = ValuePair(key: Value, value: Value)
  datatype PutData = NoPuts | Puts(puts: seq<Put>)

  /** The value classes that VBundle.fromString knows how to put. */
  predicate CanPut(v: Value) {
    v.VString? || v.VBinder? || v.VBool? || v.VBundle? || v.VDouble? || v.VFloat? || v.VByte? || v.VInt?
    || v.VLong? || v.VShort? || v.VByteArray?
  }

  /**
   * Two readers of the same shape. `DeviceApp` is ParcelString.kt as it stands. `Reference` keeps its splitting
   * and differs where that file and the printer disagree: it takes the printer's list tag, decimal bytes,
   * infinities, `\u{...}` escapes, and any value in a bundle.
   */
  datatype Reader = DeviceApp | Reference

  datatype Prefix =
    | PBinder | PByte | PBool | PInt | PShort | PString | PFloat | PDouble | PLong | PReadFd | PWriteFd | PNull
    | PBundle | PMessage | PMap | PList | PByteArray | PCombined

  /** The enumeration ParcelStringPrefix, searched by its text. */
  function FindPrefix(r: Reader, tag: string): Option<Prefix> {
    if tag == "BIND" then Some(PBinder)
    else if tag == "BYTE" then Some(PByte)
    else if tag == "BOOL" then Some(PBool)
    else if tag == "_INT" then Some(PInt)
    else if tag == "SHRT" then Some(PShort)
    else if tag == "_STR" then Some(PString)
    else if tag == "_FLT" then Some(PFloat)
    else if tag == "DUBL" then Some(PDouble)
    else if tag == "LONG" then Some(PLong)
    else if tag == "RDFD" then Some(PReadFd)
    else if tag == "WRFD" then Some(PWriteFd)
    else if tag == "NULL" then Some(PNull)
    else if tag == "BUND" then Some(PBundle)
    else if tag == "_MSG" then Some(PMessage)
    else if tag == "_MAP" then Some(PMap)
    else if tag == (if r.DeviceApp? then "LIST" else "_LST") then Some(PList)
    else if tag == "BARR" then Some(PByteArray)
    else if tag == "_CMB" then Some(PCombined)
    else None
  }

  function UnescapeText(r: Reader, s: string): Option<string> {
    if r.DeviceApp? then UnescapeApp(s) else Unescape(s)
  }

  function ReadByte(r: Reader, s: string): Option<int> {
    if r.Reference? then ParseInt(s, 0, 255)
    else if |s| < 2 then None
    else
      match ByteFromNibbles(s[0], s[1])
      case None => None
      case Some(b) => Some(b)
  }

  /** `parseDouble` and `parseFloat` on what `Display` may write: they do not know the word `inf`. */
  function ReadFloat(r: Reader, s: string): Option<string> {
    if IsFloatText(s) && (r.Reference? || !IsInfinity(s)) then Some(s) else None
  }

  function HexToBytes(s: string): Option<seq<Byte>>
    decreases |s|
  {
    if s == "" then Some([])
    else if |s| == 1 || DigitValue(s[0]) >= 16 || DigitValue(s[1]) >= 16 then None
    else
      match HexToBytes(s[2..])
      case None => None
      case Some(bs) => Some([DigitValue(s[0]) * 16 + DigitValue(s[1])] + bs)
  }

  function Wrap<T>(r: Option<T>, make: T -> Value): Option<Value> {
    match r
    case None => None
    case Some(x) => Some(make(x))
  }

  function MessageOf(what: int, arg1: int, arg2: int, r: Option<seq<Put>>): Option<Value> {
    Wrap(r, puts => VMessage(what, arg1, arg2, Puts(puts)))
  }

  /** Value.fromString: a four-character tag selects the class that reads the rest. */
  function Read(r: Reader, s: string): Option<Value>
    decreases |s|, 1, 0
  {
    if |s| < 4 then None
    else
      match FindPrefix(r, s[..4])
      case None => None
      case Some(p) => ReadBody(r, p, s[4..])
  }

  /** The `fromString` of the classes that hold no other values. */
  function ReadScalar(r: Reader, p: Prefix, s: string): Option<Value> {
    match p
    case PBinder => Some(VBinder)
    case PNull => Some(VNull)
    case PByte => Wrap(ReadByte(r, s), x => VByte(x))
    case PBool => Some(VBool(Lower(s) == "true"))
    case PInt => Wrap(ParseI32(s), x => VInt(x))
    case PShort => Wrap(ParseInt(s, -0x8000, 0x7FFF), x => VShort(x))
    case PLong => Wrap(ParseInt(s, -0x8000_0000_0000_0000, 0x7FFF_FFFF_FFFF_FFFF), x => VLong(x))
    case PFloat => Wrap(ReadFloat(r, s), x => VFloat(x))
    case PDouble => Wrap(ReadFloat(r, s), x => VDouble(x))
    case PString => Wrap(UnescapeText(r, s), x => VString(x))
    case PReadFd => Wrap(UnescapeText(r, s), x => VReadFd(x))
    case PWriteFd => Wrap(UnescapeText(r, s), x => VWriteFd(x))
    case PByteArray => Wrap(HexToBytes(if "0x" <= s then s[2..] else s), x => VByteArray(x))
    case _ => None
  }

  function ReadBody(r: Reader, p: Prefix, s: string): Option<Value>
    decreases |s|, 5, 0
  {
    match p
    case PBundle => Wrap(ReadPuts(r, '=', r.Reference?, EscapeSplit(':', s)), puts => VBundle(puts))
    case PMap => Wrap(ReadPairs(r, EscapeSplit(':', s)), pairs => VMap(pairs))
    case PList => Wrap(ReadAll(r, EscapeSplit(':', s)), vs => VList(vs))
    case PCombined => Wrap(ReadAll(r, EscapeSplit('|', s)), vs => VCombined(vs))
    case PMessage => ReadMessage(r, EscapeSplit('%', s))
    case _ => ReadScalar(r, p, s)
  }

  function ReadMessage(r: Reader, parts: seq<string>): Option<Value>
    decreases Longest(parts), 4, |parts|
  {
    if |parts| < 3 then None
    else
      match (ParseI32(parts[0]), ParseI32(parts[1]), ParseI32(parts[2]))
      case (Some(what), Some(arg1), Some(arg2)) =>
        if |parts| == 3 then Some(VMessage(what, arg1, arg2, NoPuts))
        else
          MessageOf(what, arg1, arg2, ReadPuts(r, '=', r.Reference?, EscapeSplit(':', parts[3])))
      case _ => None
  }

  function ReadAll(r: Reader, parts: seq<string>): Option<seq<Value>>
    decreases Longest(parts), 2, |parts|
  {
    if parts == [] then Some([])
    else
      match (Read(r, parts[0]), ReadAll(r, parts[1..]))
      case (Some(v), Some(vs)) => Some([v] + vs)
      case _ => None
  }

  function ReadPut(r: Reader, kv: char, any: bool, s: string): Option<Put>
    decreases |s|, 2, 0
  {
    var parts := EscapeSplit(kv, s);
    if |parts| != 2 then None
    else
      match (UnescapeText(r, parts[0]), Read(r, parts[1]))
      case (Some(key), Some(v)) => if any || CanPut(v) then Some(Put(key, v)) else None
      case _ => None
  }

  function ReadPuts(r: Reader, kv: char, any: bool, parts: seq<string>): Option<seq<Put>>
    decreases Longest(parts), 3, |parts|
  {
    if parts == [] then Some([])
    else
      match (ReadPut(r, kv, any, parts[0]), ReadPuts(r, kv, any, parts[1..]))
      case (Some(p), Some(ps)) => Some([p] + ps)
      case _ => None
  }

  function ReadPair(r: Reader, s: string): Option<ValuePair>
    decreases |s|, 2, 0
  {
    var parts := EscapeSplit('=', s);
    if |parts| != 2 then None
    else
      match (Read(r, parts[0]), Read(r, parts[1]))
      case (Some(key), Some(v)) => Some(ValuePair(key, v))
      case _ => None
  }

  function ReadPairs(r: Reader, parts: seq<string>): Option<seq<ValuePair>>
    decreases Longest(parts), 3, |parts|
  {
    if parts == [] then Some([])
    else
      match (ReadPair(r, parts[0]), ReadPairs(r, parts[1..]))
      case (Some(p), Some(ps)) => Some([p] + ps)
      case _ => None
  }

  /** ParcelString.parse. */
  function ParseParcel(r: Reader, s: string): Option<seq<Value>> {
    ReadAll(r, EscapeSplit(',', s))
  }

  /** The entries that IntentString.parse puts into its map. */
  function ParseIntent(r: Reader, s: string): Option<seq<Put>> {
    ReadPuts(r, '>', true, EscapeSplit(',', s))
  }

  // ---------------------------------------------------------------- the map of an intent string

  function PutIn(entries: seq<Put>, p: Put): seq<Put> {
    if entries == [] then [p]
    else if entries[0].key == p.key then [p] + entries[1..]
    else [entries[0]] + PutIn(entries[1..], p)
  }

  /** `toMap`: the keys in the order in which they first occur, each with its last value. */
  function ToMap(puts: seq<Put>): seq<Put> {
    if puts == [] then [] else PutIn(ToMap(puts[..|puts| - 1]), puts[|puts| - 1])
  }

  /** IntentString.parse. */
  function ParseIntentMap(r: Reader, s: string): Option<seq<Put>> {
    match ParseIntent(r, s)
    case None => None
    case Some(puts) => Some(ToMap(puts))
  }
}

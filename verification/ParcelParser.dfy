/** The command-line grammar of parcel and intent strings: `parse_single_str` and its callers. */
module ParcelParser {
  import opened Prelude
  import opened Numbers
  import opened ParcelStrings
  import opened Builders
  import opened Worlds

  datatype Error =
    | NeedsArgument
    | UnknownType
    | BadNumber
    | BadBool
    | BadHex
    | NeedsEndOrBundle
    | NoEnd
    | NoValue
    | Panicked

  datatype Parsed<+T> = Fail(error: Error) | Done(value: T, rest: seq<string>)

  // ---------------------------------------------------------------- the grammar on token lists

  /** `HashMap::insert` on string keys. */
  function InsertEntry(entries: seq<Entry>, key: string, value: Elem): seq<Entry> {
    if entries == [] then [Entry(key, value)]
    else if entries[0].key == key then [Entry(key, value)] + entries[1..]
    else [entries[0]] + InsertEntry(entries[1..], key, value)
  }

  /** `HashMap::insert` on value keys: equality is by printed text, and the old key stays. */
  function InsertPair(pairs: seq<Pair>, key: Elem, value: Elem): seq<Pair>
    requires Printable(key) && forall p :: p in pairs ==> Printable(p.key)
  {
    if pairs == [] then [Pair(key, value)]
    else if WireEqual(pairs[0].key, key) then [Pair(pairs[0].key, value)] + pairs[1..]
    else [pairs[0]] + InsertPair(pairs[1..], key, value)
  }

  lemma {:induction false} InsertPairKeys(pairs: seq<Pair>, key: Elem, value: Elem)
    requires Printable(key) && forall p :: p in pairs ==> Printable(p.key)
    ensures forall p :: p in InsertPair(pairs, key, value) ==> Printable(p.key)
  {
    if pairs != [] && !WireEqual(pairs[0].key, key) {
      InsertPairKeys(pairs[1..], key, value);
    }
  }

  predicate IsHexArgument(s: string) {
    |s| % 2 == 0 && forall c :: c in s ==> DigitValue(c) < 16
  }

  /** The types that take one argument. */
  function ParseScalar(w: World, ident: string, next: string): Option<Elem> {
    match ident
    case "barr" => if IsHexArgument(next) then Some(HexByteArray(Lower(next))) else None
    case "str" => Some(Str(next))
    case "f64" => (match w.rounding.f64(next) case None => None case Some(v) => Some(Double(v)))
    case "f32" => (match w.rounding.f32(next) case None => None case Some(v) => Some(Float(v)))
    case "i64" =>
      (match ParseInt(next, -0x8000_0000_0000_0000, 0x7FFF_FFFF_FFFF_FFFF)
       case None => None
       case Some(n) => Some(Long(n)))
    case "i32" => (match ParseI32(next) case None => None case Some(n) => Some(Int(n)))
    case "i16" => (match ParseInt(next, -0x8000, 0x7FFF) case None => None case Some(n) => Some(Short(n)))
    case "u8" => (match ParseInt(next, 0, 255) case None => None case Some(n) => Some(Elem.Byte(n)))
    case "z" => if next == "true" then Some(Bool(true)) else if next == "false" then Some(Bool(false)) else None
    case "wfd" => Some(WriteFd(next))
    case "rfd" => Some(ReadFd(next))
    case _ => None
  }

  function ScalarError(ident: string): Error {
    if ident == "barr" then BadHex
    else if ident == "z" then BadBool
    else if ident in {"f64", "f32", "i64", "i32", "i16", "u8"} then BadNumber
    else UnknownType
  }

  /** Done(None, _) is the source's Ok(None): the word `end`, or no word left. */
  function ParseSingle(w: World, ts: seq<string>): (r: Parsed<Option<Elem>>)
    ensures r.Done? ==> |r.rest| <= |ts| && (ts != [] ==> |r.rest| < |ts|) && (r.value.Some? ==> ts != [])
    decreases |ts|, 1
  {
    if ts == [] then Done(None, []) else ParseIdent(w, ts[0], ts[1..])
  }

  function ParseIdent(w: World, ident: string, ts: seq<string>): (r: Parsed<Option<Elem>>)
    ensures r.Done? ==> |r.rest| <= |ts|
    decreases |ts|, 3
  {
    if ident == "end" then Done(None, ts)
    else if ident == "bind" then Done(Some(Binder), ts)
    else if ident == "null" then Done(Some(Null), ts)
    else if ident == "msg" then ParseMessage(w, ts)
    else if ident == "map" then
      match ParsePairs(w, ts, [])
      case Fail(e) => Fail(e)
      case Done(pairs, rest) => Done(Some(Map(Ordered(w, |ts|, pairs))), rest)
    else if ident == "bund" then
      match ParseEntries(w, ts, [])
      case Fail(e) => Fail(e)
      case Done(entries, rest) => Done(Some(Bundle(Ordered(w, |ts|, entries))), rest)
    else if ident == "list" then
      match ParseElems(w, ts, [])
      case Fail(e) => Fail(e)
      case Done(elems, rest) => Done(Some(List(elems)), rest)
    else if ts == [] then Fail(NeedsArgument)
    else
      match ParseScalar(w, ident, ts[0])
      case None => Fail(ScalarError(ident))
      case Some(e) => Done(Some(e), ts[1..])
  }

  function ParseMessage(w: World, ts: seq<string>): (r: Parsed<Option<Elem>>)
    ensures r.Done? ==> |r.rest| <= |ts|
    decreases |ts|, 2
  {
    if ts == [] then Fail(NeedsArgument) else
    match ParseI32(ts[0])
    case None => Fail(BadNumber)
    case Some(what) =>
      if |ts| == 1 then Fail(NeedsArgument) else
      match ParseI32(ts[1])
      case None => Fail(BadNumber)
      case Some(arg1) =>
        if |ts| == 2 then Fail(NeedsArgument) else
        match ParseI32(ts[2])
        case None => Fail(BadNumber)
        case Some(arg2) =>
          if |ts| == 3 then Fail(NeedsEndOrBundle)
          else if ts[3] == "end" then Done(Some(Message(what, arg1, arg2, NoData)), ts[4..])
          else if ts[3] != "bund" then Fail(NeedsEndOrBundle)
          else
            match ParseEntries(w, ts[4..], [])
            case Fail(e) => Fail(e)
            case Done(entries, rest) => Done(Some(Message(what, arg1, arg2, Data(Ordered(w, |ts| - 4, entries)))), rest)
  }

  function ParseElems(w: World, ts: seq<string>, acc: seq<Elem>): (r: Parsed<seq<Elem>>)
    ensures r.Done? ==> |r.rest| <= |ts|
    decreases |ts|, 2
  {
    match ParseSingle(w, ts)
    case Fail(e) => Fail(e)
    case Done(None, rest) => Done(acc, rest)
    case Done(Some(v), rest) => ParseElems(w, rest, acc + [v])
  }

  function ParseEntries(w: World, ts: seq<string>, acc: seq<Entry>): (r: Parsed<seq<Entry>>)
    ensures r.Done? ==> |r.rest| <= |ts|
    decreases |ts|, 2
  {
    if ts == [] then Fail(NoEnd)
    else if ts[0] == "end" then Done(acc, ts[1..])
    else
      match ParseSingle(w, ts[1..])
      case Fail(e) => Fail(e)
      case Done(None, _) => Fail(NoValue)
      case Done(Some(v), rest) => ParseEntries(w, rest, InsertEntry(acc, ts[0], v))
  }

  /** A key that cannot be printed panics, whether it is hashed or quoted in the error. */
  function ParsePairs(w: World, ts: seq<string>, acc: seq<Pair>): (r: Parsed<seq<Pair>>)
    requires forall p :: p in acc ==> Printable(p.key)
    ensures r.Done? ==> |r.rest| <= |ts|
    decreases |ts|, 2
  {
    match ParseSingle(w, ts)
    case Fail(e) => Fail(e)
    case Done(None, rest) => Done(acc, rest)
    case Done(Some(key), rest) =>
      match ParseSingle(w, rest)
      case Fail(e) => Fail(e)
      case Done(None, _) => if Printable(key) then Fail(NoValue) else Fail(Panicked)
      case Done(Some(v), rest') =>
        if !Printable(key) then Fail(Panicked)
        else
          InsertPairKeys(acc, key, v);
          ParsePairs(w, rest', InsertPair(acc, key, v))
  }

  /** `parse_intent_string`: here any word, `end` included, is a key. */
  function ParseIntentWords(w: World, ts: seq<string>, acc: seq<Entry>): Parsed<seq<Entry>>
    decreases |ts|
  {
    if ts == [] then Done(acc, [])
    else
      match ParseSingle(w, ts[1..])
      case Fail(e) => Fail(e)
      case Done(None, _) => Fail(NoValue)
      case Done(Some(v), rest) => ParseIntentWords(w, rest, acc + [Entry(ts[0], v)])
  }

  // ---------------------------------------------------------------- the parser over a shared iterator

  class TokenIter {
    const args: seq<string>
    var pos: nat

    ghost predicate Valid()
      reads this
    {
      pos <= |args|
    }

    ghost function Rest(): seq<string>
      requires Valid()
      reads this
    {
      args[pos..]
    }

    function Left(): (n: nat)
      requires Valid()
      reads this
      ensures n == |Rest()|
    {
      |args| - pos
    }

    constructor (args: seq<string>)
      ensures Valid() && Rest() == args
    {
      this.args := args;
      pos := 0;
    }

    method Next() returns (r: Option<string>)
      requires Valid()
      modifies this
      ensures Valid()
      ensures if old(Rest()) == [] then r == None && Rest() == []
              else r == Some(old(Rest())[0]) && Rest() == old(Rest())[1..]
    {
      if pos == |args| {
        return None;
      }
      r := Some(args[pos]);
      pos := pos + 1;
    }
  }

  datatype Outcome<+T> = Ok(value: T) | Err(error: Error)

  /** What a method over the iterator must do to follow the grammar. */
  predicate Follows<T(==)>(spec: Parsed<T>, r: Outcome<T>, rest: seq<string>) {
    match spec
    case Fail(e) => r == Err(e)
    case Done(v, left) => r == Ok(v) && rest == left
  }

  method ParseSingleFrom(w: World, iter: TokenIter) returns (r: Outcome<Option<Elem>>)
    requires iter.Valid()
    modifies iter
    ensures iter.Valid() && Follows(ParseSingle(w, old(iter.Rest())), r, iter.Rest())
    decreases |iter.Rest()|, 1
  {
    var ident := iter.Next();
    if ident.None? {
      return Ok(None);
    }
    r := ParseSingleStr(w, ident.value, iter);
  }

  method ParseSingleStr(w: World, ident: string, iter: TokenIter) returns (r: Outcome<Option<Elem>>)
    requires iter.Valid()
    modifies iter
    ensures iter.Valid() && Follows(ParseIdent(w, ident, old(iter.Rest())), r, iter.Rest())
    decreases |iter.Rest()|, 3
  {
    if ident == "end" {
      return Ok(None);
    } else if ident == "bind" {
      return Ok(Some(Binder));
    } else if ident == "null" {
      return Ok(Some(Null));
    } else if ident == "msg" {
      r := ParseMessageFrom(w, iter);
    } else if ident == "map" {
      r := ParseMapFrom(w, iter);
    } else if ident == "bund" {
      var start := iter.Left();
      var entries := ParseEntriesFrom(w, iter);
      r := if entries.Err? then Err(entries.error) else Ok(Some(Bundle(Ordered(w, start, entries.value))));
    } else if ident == "list" {
      r := ParseListFrom(w, iter);
    } else {
      var next := iter.Next();
      if next.None? {
        return Err(NeedsArgument);
      }
      var e := ParseScalar(w, ident, next.value);
      r := if e.None? then Err(ScalarError(ident)) else Ok(e);
    }
  }

  lemma MessageFails(w: World, ts: seq<string>, i: nat)
    requires i < 3 && i <= |ts| && forall k :: 0 <= k < i ==> ParseI32(ts[k]).Some?
    ensures |ts| == i ==> ParseMessage(w, ts) == Fail(NeedsArgument)
    ensures |ts| > i && ParseI32(ts[i]).None? ==> ParseMessage(w, ts) == Fail(BadNumber)
  {
  }

  lemma MessageTail(w: World, ts: seq<string>, what: I32, arg1: I32, arg2: I32)
    requires |ts| >= 3
    requires ParseI32(ts[0]) == Some(what) && ParseI32(ts[1]) == Some(arg1) && ParseI32(ts[2]) == Some(arg2)
    ensures ParseMessage(w, ts) ==
            if |ts| == 3 then Fail(NeedsEndOrBundle)
            else if ts[3] == "end" then Done(Some(Message(what, arg1, arg2, NoData)), ts[4..])
            else if ts[3] != "bund" then Fail(NeedsEndOrBundle)
            else
              match ParseEntries(w, ts[4..], [])
              case Fail(e) => Fail(e)
              case Done(entries, rest) =>
                Done(Some(Message(what, arg1, arg2, Data(Ordered(w, |ts| - 4, entries)))), rest)
  {
  }

  method ParseMessageFrom(w: World, iter: TokenIter) returns (r: Outcome<Option<Elem>>)
    requires iter.Valid()
    modifies iter
    ensures iter.Valid() && Follows(ParseMessage(w, old(iter.Rest())), r, iter.Rest())
    decreases |iter.Rest()|, 2
  {
    ghost var ts := iter.Rest();
    var numbers: seq<I32> := [];
    for i := 0 to 3
      invariant iter.Valid() && |numbers| == i <= |ts| && iter.Rest() == ts[i..]
      invariant forall k :: 0 <= k < i ==> ParseI32(ts[k]) == Some(numbers[k])
    {
      MessageFails(w, ts, i);
      var s := iter.Next();
      if s.None? {
        return Err(NeedsArgument);
      }
      assert s.value == ts[i];
      var n := ParseI32(s.value);
      if n.None? {
        return Err(BadNumber);
      }
      numbers := numbers + [n.value];
    }
    MessageTail(w, ts, numbers[0], numbers[1], numbers[2]);
    var next := iter.Next();
    if next.None? {
      return Err(NeedsEndOrBundle);
    }
    if next.value == "end" {
      return Ok(Some(Message(numbers[0], numbers[1], numbers[2], NoData)));
    }
    if next.value != "bund" {
      return Err(NeedsEndOrBundle);
    }
    assert iter.Rest() == ts[4..];
    var start := iter.Left();
    var entries := ParseEntriesFrom(w, iter);
    r := if entries.Err? then Err(entries.error)
         else Ok(Some(Message(numbers[0], numbers[1], numbers[2], Data(Ordered(w, start, entries.value)))));
  }

  method ParseEntriesFrom(w: World, iter: TokenIter) returns (r: Outcome<seq<Entry>>)
    requires iter.Valid()
    modifies iter
    ensures iter.Valid() && Follows(ParseEntries(w, old(iter.Rest()), []), r, iter.Rest())
    decreases |iter.Rest()|, 2
  {
    var entries: seq<Entry> := [];
    while true
      invariant iter.Valid() && |iter.Rest()| <= |old(iter.Rest())|
      invariant ParseEntries(w, iter.Rest(), entries) == ParseEntries(w, old(iter.Rest()), [])
      decreases |iter.Rest()|
    {
      var key := iter.Next();
      if key.None? {
        return Err(NoEnd);
      }
      if key.value == "end" {
        return Ok(entries);
      }
      var value := ParseSingleFrom(w, iter);
      if value.Err? {
        return Err(value.error);
      }
      if value.value.None? {
        return Err(NoValue);
      }
      entries := InsertEntry(entries, key.value, value.value.value);
    }
  }

  method ParseMapFrom(w: World, iter: TokenIter) returns (r: Outcome<Option<Elem>>)
    requires iter.Valid()
    modifies iter
    ensures iter.Valid()
    ensures Follows(match ParsePairs(w, old(iter.Rest()), [])
                    case Fail(e) => Fail(e)
                    case Done(pairs, rest) => Done(Some(Map(Ordered(w, |old(iter.Rest())|, pairs))), rest),
                    r, iter.Rest())
    decreases |iter.Rest()|, 2
  {
    var start := iter.Left();
    var pairs: seq<Pair> := [];
    while true
      invariant iter.Valid() && |iter.Rest()| <= |old(iter.Rest())|
      invariant forall p :: p in pairs ==> Printable(p.key)
      invariant ParsePairs(w, iter.Rest(), pairs) == ParsePairs(w, old(iter.Rest()), [])
      decreases |iter.Rest()|
    {
      var key := ParseSingleFrom(w, iter);
      if key.Err? {
        return Err(key.error);
      }
      if key.value.None? {
        return Ok(Some(Map(Ordered(w, start, pairs))));
      }
      var value := ParseSingleFrom(w, iter);
      if value.Err? {
        return Err(value.error);
      }
      if !Printable(key.value.value) {
        return Err(Panicked);
      }
      if value.value.None? {
        return Err(NoValue);
      }
      InsertPairKeys(pairs, key.value.value, value.value.value);
      pairs := InsertPair(pairs, key.value.value, value.value.value);
    }
  }

  method ParseListFrom(w: World, iter: TokenIter) returns (r: Outcome<Option<Elem>>)
    requires iter.Valid()
    modifies iter
    ensures iter.Valid()
    ensures Follows(match ParseElems(w, old(iter.Rest()), [])
                    case Fail(e) => Fail(e)
                    case Done(elems, rest) => Done(Some(List(elems)), rest), r, iter.Rest())
    decreases |iter.Rest()|, 2
  {
    var elems: seq<Elem> := [];
    while true
      invariant iter.Valid() && |iter.Rest()| <= |old(iter.Rest())|
      invariant ParseElems(w, iter.Rest(), elems) == ParseElems(w, old(iter.Rest()), [])
      decreases |iter.Rest()|
    {
      var e := ParseSingleFrom(w, iter);
      if e.Err? {
        return Err(e.error);
      }
      if e.value.None? {
        return Ok(Some(List(elems)));
      }
      elems := elems + [e.value.value];
    }
  }

  method ParseParcelString(w: World, args: seq<string>) returns (r: Outcome<ParcelString>)
    ensures match ParseElems(w, args, [])
            case Fail(e) => r == Err(e)
            case Done(elems, _) => r.Ok? && fresh(r.value) && r.value.elems == elems
  {
    var parcel := new ParcelString();
    var iter := new TokenIter(args);
    while true
      invariant iter.Valid() && fresh(iter) && fresh(parcel)
      invariant ParseElems(w, iter.Rest(), parcel.elems) == ParseElems(w, args, [])
      decreases |iter.Rest()|
    {
      var e := ParseSingleFrom(w, iter);
      if e.Err? {
        return Err(e.error);
      }
      if e.value.None? {
        return Ok(parcel);
      }
      parcel.Push(e.value.value);
    }
  }

  method ParseIntentString(w: World, args: seq<string>) returns (r: Outcome<IntentString>)
    ensures match ParseIntentWords(w, args, [])
            case Fail(e) => r == Err(e)
            case Done(values, _) => r.Ok? && fresh(r.value) && r.value.values == values
  {
    var intent := new IntentString();
    var iter := new TokenIter(args);
    while true
      invariant iter.Valid() && fresh(iter) && fresh(intent)
      invariant ParseIntentWords(w, iter.Rest(), intent.values) == ParseIntentWords(w, args, [])
      decreases |iter.Rest()|
    {
      var key := iter.Next();
      if key.None? {
        return Ok(intent);
      }
      var value := ParseSingleFrom(w, iter);
      if value.Err? {
        return Err(value.error);
      }
      if value.value.None? {
        return Err(NoValue);
      }
      intent.Push(key.value, value.value.value);
    }
  }
}

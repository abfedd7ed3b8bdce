/** The command-line words of a value, and what they parse to in the orders of a given world. */
module ParcelWords {
  import opened Numbers
  import opened ParcelStrings
  import opened Worlds

  function ScalarWords(e: Elem): (ws: seq<string>)
    requires !IsContainer(e)
    ensures |ws| >= 1
  {
    match e
    case Long(v) => ["i64", ShowInt(v)]
    case Int(v) => ["i32", ShowInt(v)]
    case Short(v) => ["i16", ShowInt(v)]
    case Byte(v) => ["u8", ShowInt(v)]
    case Bool(v) => ["z", ShowBool(v)]
    case Double(v) => ["f64", v]
    case Float(v) => ["f32", v]
    case Binder => ["bind"]
    case Null => ["null"]
    case WriteFd(v) => ["wfd", v]
    case ReadFd(v) => ["rfd", v]
    case Str(v) => ["str", v]
    case RawByteArray(v) => ["barr", HexOf(v)]
    case HexByteArray(v) => ["barr", v]
  }

  function Words(e: Elem): (ws: seq<string>)
    ensures |ws| >= 1
    decreases e
  {
    if !IsContainer(e) then ScalarWords(e)
    else
      match e
      case Bundle(v) => ["bund"] + EntriesWords(v) + ["end"]
      case Map(v) => ["map"] + PairsWords(v) + ["end"]
      case List(v) => ["list"] + ElemsWords(v) + ["end"]
      case Complex(v) => ["list"] + ElemsWords(v) + ["end"]
      case Message(what, arg1, arg2, data) =>
        ["msg", ShowInt(what), ShowInt(arg1), ShowInt(arg2)] + DataWords(data)
  }

  function DataWords(data: Data): seq<string>
    decreases data
  {
    if data.Data? then ["bund"] + EntriesWords(data.entries) + ["end"] else ["end"]
  }

  function ElemsWords(es: seq<Elem>): seq<string>
    decreases es
  {
    if es == [] then [] else Words(es[0]) + ElemsWords(es[1..])
  }

  function EntriesWords(entries: seq<Entry>): seq<string>
    decreases entries
  {
    if entries == [] then [] else [entries[0].key] + Words(entries[0].value) + EntriesWords(entries[1..])
  }

  function PairWords(pair: Pair): seq<string>
    decreases pair
  {
    Words(pair.key) + Words(pair.value)
  }

  function PairsWords(pairs: seq<Pair>): seq<string>
    decreases pairs
  {
    if pairs == [] then [] else PairWords(pairs[0]) + PairsWords(pairs[1..])
  }

  // ---------------------------------------------------------------- the value in the orders of a world

  /** The value with each bundle and map in the order this world gives it, when `n` words follow those of the value. */
  function Arranged(w: World, e: Elem, n: nat): Elem
    decreases e
  {
    if e.Bundle? then Bundle(Ordered(w, |EntriesWords(e.entries)| + 1 + n, ArrangedEntries(w, e.entries, n + 1)))
    else if e.Map? then Map(Ordered(w, |PairsWords(e.pairs)| + 1 + n, ArrangedPairs(w, e.pairs, n + 1)))
    else if e.List? then List(ArrangedElems(w, e.elems, n + 1))
    else if e.Complex? then Complex(ArrangedElems(w, e.parts, n + 1))
    else if e.Message? then e.(data := ArrangedData(w, e.data, n))
    else e
  }

  function ArrangedData(w: World, data: Data, n: nat): Data
    decreases data
  {
    if data.NoData? then NoData
    else Data(Ordered(w, |EntriesWords(data.entries)| + 1 + n, ArrangedEntries(w, data.entries, n + 1)))
  }

  function ArrangedElems(w: World, es: seq<Elem>, n: nat): (r: seq<Elem>)
    ensures |r| == |es|
    decreases es
  {
    if es == [] then []
    else [Arranged(w, es[0], |ElemsWords(es[1..])| + n)] + ArrangedElems(w, es[1..], n)
  }

  function ArrangedEntry(w: World, entry: Entry, n: nat): Entry
    decreases entry
  {
    Entry(entry.key, Arranged(w, entry.value, n))
  }

  function ArrangedEntries(w: World, entries: seq<Entry>, n: nat): (r: seq<Entry>)
    ensures |r| == |entries|
    decreases entries
  {
    if entries == [] then []
    else [ArrangedEntry(w, entries[0], |EntriesWords(entries[1..])| + n)] + ArrangedEntries(w, entries[1..], n)
  }

  function ArrangedPair(w: World, pair: Pair, n: nat): Pair
    decreases pair
  {
    Pair(Arranged(w, pair.key, |Words(pair.value)| + n), Arranged(w, pair.value, n))
  }

  function ArrangedPairs(w: World, pairs: seq<Pair>, n: nat): (r: seq<Pair>)
    ensures |r| == |pairs|
    decreases pairs
  {
    if pairs == [] then []
    else [ArrangedPair(w, pairs[0], |PairsWords(pairs[1..])| + n)] + ArrangedPairs(w, pairs[1..], n)
  }

  // ---------------------------------------------------------------- keys that stay apart in a world

  predicate PrintableKeys(pairs: seq<Pair>) {
    forall p :: p in pairs ==> Printable(p.key)
  }

  /** Keys that print differently as they are. */
  predicate Unequal(pairs: seq<Pair>) {
    PrintableKeys(pairs) && forall i, j :: 0 <= i < j < |pairs| ==> !WireEqual(pairs[i].key, pairs[j].key)
  }

  /** In every map inside, the keys print differently in the orders this world gives them. */
  predicate KeysApart(w: World, e: Elem, n: nat)
    decreases e
  {
    if e.Bundle? then KeysApartEntries(w, e.entries, n + 1)
    else if e.Map? then KeysApartPairs(w, e.pairs, n + 1) && Unequal(ArrangedPairs(w, e.pairs, n + 1))
    else if e.List? then KeysApartElems(w, e.elems, n + 1)
    else if e.Complex? then KeysApartElems(w, e.parts, n + 1)
    else if e.Message? then KeysApartData(w, e.data, n)
    else true
  }

  predicate KeysApartData(w: World, data: Data, n: nat)
    decreases data
  {
    data.Data? ==> KeysApartEntries(w, data.entries, n + 1)
  }

  predicate KeysApartElems(w: World, es: seq<Elem>, n: nat)
    decreases es
  {
    es != [] ==> KeysApart(w, es[0], |ElemsWords(es[1..])| + n) && KeysApartElems(w, es[1..], n)
  }

  predicate KeysApartEntry(w: World, entry: Entry, n: nat)
    decreases entry
  {
    KeysApart(w, entry.value, n)
  }

  predicate KeysApartEntries(w: World, entries: seq<Entry>, n: nat)
    decreases entries
  {
    entries != [] ==>
      KeysApartEntry(w, entries[0], |EntriesWords(entries[1..])| + n) && KeysApartEntries(w, entries[1..], n)
  }

  predicate KeysApartPair(w: World, pair: Pair, n: nat)
    decreases pair
  {
    KeysApart(w, pair.key, |Words(pair.value)| + n) && KeysApart(w, pair.value, n)
  }

  predicate KeysApartPairs(w: World, pairs: seq<Pair>, n: nat)
    decreases pairs
  {
    pairs != [] ==> KeysApartPair(w, pairs[0], |PairsWords(pairs[1..])| + n) && KeysApartPairs(w, pairs[1..], n)
  }
}

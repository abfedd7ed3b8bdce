/** Which values the command line can express, and that parsing their words gives exactly them. */
module ParcelGrammar {
  import opened Prelude
  import opened Numbers
  import opened ParcelStrings
  import opened Worlds
  import opened ParcelWords
  import opened ParcelParser

  /** In which iteration orders of hash maps keys have to be apart: in none, the ones at hand, or every one. */
  datatype Orders = Loose | Given | Every

  ghost predicate Comes(o: Orders, a: Elem, b: Elem) {
    if o.Given? then b == a else Same(a, b)
  }

  /** The printed texts of the two keys differ, in these orders of the maps inside them. */
  ghost predicate Apart(o: Orders, a: Elem, b: Elem) {
    forall x, y :: Comes(o, a, x) && Comes(o, b, y) && Printable(x) && Printable(y) ==> !WireEqual(x, y)
  }

  /** The values a command line can spell: map keys are apart as printed text, `end` is no bundle key. */
  ghost predicate Expressible(f: Rounding, o: Orders, e: Elem)
    decreases e
  {
    if !IsContainer(e) then ScalarExpressible(f, e)
    else
      match e
      case Bundle(v) => GoodKeys(v) && ExpressibleEntries(f, o, v)
      case Map(v) => ExpressiblePairs(f, o, v) && DistinctPairs(o, v)
      case List(v) => ExpressibleElems(f, o, v)
      case Complex(_) => false
      case Message(_, _, _, data) => data.Data? ==> GoodKeys(data.entries) && ExpressibleEntries(f, o, data.entries)
  }

  predicate ScalarExpressible(f: Rounding, e: Elem)
    requires !IsContainer(e)
  {
    && !e.RawByteArray?
    && (e.HexByteArray? ==> |e.hex| % 2 == 0 && forall c :: c in e.hex ==> IsLowerHex(c))
    && (e.Double? ==> f.f64(e.f64) == Some(e.f64))
    && (e.Float? ==> f.f32(e.f32) == Some(e.f32))
  }

  ghost predicate ExpressibleElems(f: Rounding, o: Orders, es: seq<Elem>)
    decreases es
  {
    forall i :: 0 <= i < |es| ==> Expressible(f, o, es[i])
  }

  predicate GoodKeys(entries: seq<Entry>) {
    && (forall i :: 0 <= i < |entries| ==> entries[i].key != "end")
    && (forall i, j :: 0 <= i < j < |entries| ==> entries[i].key != entries[j].key)
  }

  ghost predicate ExpressibleEntries(f: Rounding, o: Orders, entries: seq<Entry>)
    decreases entries
  {
    forall i :: 0 <= i < |entries| ==> Expressible(f, o, entries[i].value)
  }

  ghost predicate ExpressiblePair(f: Rounding, o: Orders, pair: Pair)
    decreases pair
  {
    Printable(pair.key) && Expressible(f, o, pair.key) && Expressible(f, o, pair.value)
  }

  ghost predicate ExpressiblePairs(f: Rounding, o: Orders, pairs: seq<Pair>)
    decreases pairs
  {
    forall i :: 0 <= i < |pairs| ==> ExpressiblePair(f, o, pairs[i])
  }

  ghost predicate DistinctPairs(o: Orders, pairs: seq<Pair>) {
    o.Loose? || forall i, j :: 0 <= i < j < |pairs| ==> Apart(o, pairs[i].key, pairs[j].key)
  }

  // ---------------------------------------------------------------- parsing the words

  lemma LowerIsIdentity(s: string)
    requires forall c :: c in s ==> IsLowerHex(c)
    ensures Lower(s) == s
  {
    forall i | 0 <= i < |s| ensures Lower(s)[i] == s[i] {
      assert s[i] in s;
    }
  }

  lemma ParsesLong(w: World, v: I64)
    ensures ParseScalar(w, "i64", ShowInt(v)) == Some(Long(v))
  {
    ParseIntOfShowInt(v, -0x8000_0000_0000_0000, 0x7FFF_FFFF_FFFF_FFFF);
  }

  lemma ParsesInt(w: World, v: I32)
    ensures ParseScalar(w, "i32", ShowInt(v)) == Some(Int(v))
  {
    ParseIntOfShowInt(v, -0x8000_0000, 0x7FFF_FFFF);
  }

  lemma ParsesShort(w: World, v: I16)
    ensures ParseScalar(w, "i16", ShowInt(v)) == Some(Short(v))
  {
    ParseIntOfShowInt(v, -0x8000, 0x7FFF);
  }

  lemma ParsesByte(w: World, v: Numbers.Byte)
    ensures ParseScalar(w, "u8", ShowInt(v)) == Some(Byte(v))
  {
    ParseIntOfShowInt(v, 0, 255);
  }

  lemma ParsesScalarArgument(w: World, e: Elem)
    requires !IsContainer(e) && ScalarExpressible(w.rounding, e) && !e.Binder? && !e.Null?
    ensures ParseScalar(w, ScalarWords(e)[0], ScalarWords(e)[1]) == Some(e)
  {
    if e.Long? {
      ParsesLong(w, e.i64);
    } else if e.Int? {
      ParsesInt(w, e.i32);
    } else if e.Short? {
      ParsesShort(w, e.i16);
    } else if e.Byte? {
      ParsesByte(w, e.u8);
    } else if e.HexByteArray? {
      LowerIsIdentity(e.hex);
    }
  }

  lemma ParsesScalar(w: World, e: Elem, rest: seq<string>)
    requires !IsContainer(e) && ScalarExpressible(w.rounding, e)
    ensures ParseSingle(w, ScalarWords(e) + rest) == Done(Some(e), rest)
  {
    var ws := ScalarWords(e);
    var ts := ws + rest;
    if e.Binder? || e.Null? {
      assert ts[1..] == rest;
    } else {
      ParsesScalarArgument(w, e);
      assert ts[1..] == [ws[1]] + rest && ts[1..][1..] == rest;
      ScalarIdent(w, ws[0], ts[1..]);
    }
  }

  lemma ScalarIdent(w: World, ident: string, ts: seq<string>)
    requires ts != [] && ident in {"barr", "str", "f64", "f32", "i64", "i32", "i16", "u8", "z", "wfd", "rfd"}
    ensures ParseIdent(w, ident, ts) ==
            match ParseScalar(w, ident, ts[0])
            case None => Fail(ScalarError(ident))
            case Some(e) => Done(Some(e), ts[1..])
  {
  }

  lemma BundleStep(w: World, ts: seq<string>, entries: seq<Entry>, rest: seq<string>)
    requires ParseEntries(w, ts, []) == Done(entries, rest)
    ensures ParseSingle(w, ["bund"] + ts) == Done(Some(Bundle(Ordered(w, |ts|, entries))), rest)
  {
    assert (["bund"] + ts)[1..] == ts;
  }

  lemma MapStep(w: World, ts: seq<string>, pairs: seq<Pair>, rest: seq<string>)
    requires ParsePairs(w, ts, []) == Done(pairs, rest)
    ensures ParseSingle(w, ["map"] + ts) == Done(Some(Map(Ordered(w, |ts|, pairs))), rest)
  {
    assert (["map"] + ts)[1..] == ts;
  }

  lemma ListStep(w: World, ts: seq<string>, elems: seq<Elem>, rest: seq<string>)
    requires ParseElems(w, ts, []) == Done(elems, rest)
    ensures ParseSingle(w, ["list"] + ts) == Done(Some(List(elems)), rest)
  {
    assert (["list"] + ts)[1..] == ts;
  }

  lemma MessageWords(e: Elem, rest: seq<string>)
    requires e.Message?
    ensures Words(e) + rest
            == ["msg", ShowInt(e.what), ShowInt(e.arg1), ShowInt(e.arg2)] + (DataWords(e.data) + rest)
  {
  }

  lemma DataParts(data: Data, rest: seq<string>)
    ensures var ts := DataWords(data) + rest;
            ts != [] &&
            if data.Data? then ts[0] == "bund" && ts[1..] == EntriesWords(data.entries) + (["end"] + rest)
            else ts[0] == "end" && ts[1..] == rest
  {
    var ts := DataWords(data) + rest;
    if data.Data? {
      assert ts[1..] == EntriesWords(data.entries) + (["end"] + rest);
    } else {
      assert ts[1..] == rest;
    }
  }

  /** What has to follow the three numbers of a message for it to parse. */
  predicate Carries(w: World, ts: seq<string>, data: Data, rest: seq<string>)
    requires ts != []
  {
    if data.Data? then
      ts[0] == "bund" && ParseEntries(w, ts[1..], []).Done? && ParseEntries(w, ts[1..], []).rest == rest
      && data.entries == Ordered(w, |ts| - 1, ParseEntries(w, ts[1..], []).value)
    else ts[0] == "end" && ts[1..] == rest
  }

  lemma MessageNumbers(w: World, e: Elem, ts: seq<string>, rest: seq<string>)
    requires e.Message? && ts != [] && Carries(w, ts, e.data, rest)
    ensures ParseSingle(w, ["msg", ShowInt(e.what), ShowInt(e.arg1), ShowInt(e.arg2)] + ts) == Done(Some(e), rest)
  {
    ParseIntOfShowInt(e.what, -0x8000_0000, 0x7FFF_FFFF);
    ParseIntOfShowInt(e.arg1, -0x8000_0000, 0x7FFF_FFFF);
    ParseIntOfShowInt(e.arg2, -0x8000_0000, 0x7FFF_FFFF);
    var tail := [ShowInt(e.what), ShowInt(e.arg1), ShowInt(e.arg2)] + ts;
    AfterThree(ShowInt(e.what), ShowInt(e.arg1), ShowInt(e.arg2), ts);
    MessageParts(w, e, tail, ts, rest);
    MessageStep(w, tail);
  }

  lemma AfterThree(a: string, b: string, c: string, ts: seq<string>)
    requires ts != []
    ensures var all := [a, b, c] + ts;
            all[0] == a && all[1] == b && all[2] == c && all[3] == ts[0] && all[4..] == ts[1..]
            && ["msg"] + all == ["msg", a, b, c] + ts
  {
    assert ([a, b, c] + ts)[4..] == ts[1..];
  }

  lemma MessageParts(w: World, e: Elem, ts: seq<string>, more: seq<string>, rest: seq<string>)
    requires e.Message? && |ts| >= 4 && more != [] && ts[3] == more[0] && ts[4..] == more[1..]
    requires ParseI32(ts[0]) == Some(e.what) && ParseI32(ts[1]) == Some(e.arg1) && ParseI32(ts[2]) == Some(e.arg2)
    requires Carries(w, more, e.data, rest)
    ensures ParseMessage(w, ts) == Done(Some(e), rest)
  {
    assert |ts| - 4 == |more| - 1;
  }

  lemma MessageStep(w: World, ts: seq<string>)
    ensures ParseSingle(w, ["msg"] + ts) == ParseMessage(w, ts)
  {
    assert (["msg"] + ts)[1..] == ts;
  }

  // ---------------------------------------------------------------- parsing the words, merged keys and all

  /** What the words of `e` parse to: the value as this world arranges it, or, when keys merge, a smaller one. */
  predicate Outcome(w: World, e: Elem, n: nat, x: Elem) {
    && (Printable(e) ==> Printable(x))
    && Size(x) <= Size(e)
    && if KeysApart(w, e, n) then x == Arranged(w, e, n) else Size(x) < Size(e)
  }

  predicate ElemsOutcome(w: World, es: seq<Elem>, n: nat, xs: seq<Elem>) {
    && |xs| == |es|
    && (AllElems(HasData, es) ==> AllElems(HasData, xs))
    && Sum(ElemSizes(xs)) <= Sum(ElemSizes(es))
    && if KeysApartElems(w, es, n) then xs == ArrangedElems(w, es, n) else Sum(ElemSizes(xs)) < Sum(ElemSizes(es))
  }

  predicate EntryOutcome(w: World, entry: Entry, n: nat, x: Entry) {
    x.key == entry.key && Outcome(w, entry.value, n, x.value)
  }

  predicate EntriesOutcome(w: World, v: seq<Entry>, n: nat, xs: seq<Entry>) {
    && |xs| == |v|
    && (AllEntries(HasData, v) ==> AllEntries(HasData, xs))
    && Sum(EntrySizes(xs)) <= Sum(EntrySizes(v))
    && if KeysApartEntries(w, v, n) then xs == ArrangedEntries(w, v, n) else Sum(EntrySizes(xs)) < Sum(EntrySizes(v))
  }

  predicate DataOutcome(w: World, data: Data, n: nat, x: Data) {
    && (data.Data? ==> x.Data? && |x.entries| == |data.entries|)
    && (data.Data? && AllEntries(HasData, data.entries) ==> AllEntries(HasData, x.entries))
    && DataSize(x) <= DataSize(data)
    && if KeysApartData(w, data, n) then x == ArrangedData(w, data, n) else DataSize(x) < DataSize(data)
  }

  predicate PairOutcome(w: World, pair: Pair, n: nat, x: Pair) {
    && Printable(x.key) && (Printable(pair.value) ==> Printable(x.value))
    && PairSize(x) <= PairSize(pair)
    && if KeysApartPair(w, pair, n) then x == ArrangedPair(w, pair, n) else PairSize(x) < PairSize(pair)
  }

  /** Whether the pairs, arranged, go into the map without one being merged. */
  predicate GoIn(w: World, pairs: seq<Pair>, n: nat, acc: seq<Pair>) {
    KeysApartPairs(w, pairs, n) && Unequal(acc + ArrangedPairs(w, pairs, n))
  }

  predicate PairsOutcome(w: World, pairs: seq<Pair>, n: nat, acc: seq<Pair>, all: seq<Pair>) {
    && (AllPairs(HasData, acc) && AllPairs(HasData, pairs) ==> AllPairs(HasData, all))
    && Sum(PairSizes(all)) <= Sum(PairSizes(acc)) + Sum(PairSizes(pairs))
    && if GoIn(w, pairs, n, acc) then all == acc + ArrangedPairs(w, pairs, n)
       else Sum(PairSizes(all)) < Sum(PairSizes(acc)) + Sum(PairSizes(pairs))
  }

  lemma {:induction false} ConsElemsOutcome(w: World, es: seq<Elem>, n: nat, m: nat, x: Elem, xs: seq<Elem>)
    requires es != [] && m == |ElemsWords(es[1..])| + n
    requires Outcome(w, es[0], m, x) && ElemsOutcome(w, es[1..], n, xs)
    ensures ElemsOutcome(w, es, n, [x] + xs)
  {
    assert ([x] + xs)[1..] == xs;
  }

  lemma {:induction false} ConsEntriesOutcome(w: World, v: seq<Entry>, n: nat, m: nat, x: Entry, xs: seq<Entry>)
    requires v != [] && m == |EntriesWords(v[1..])| + n
    requires EntryOutcome(w, v[0], m, x) && EntriesOutcome(w, v[1..], n, xs)
    ensures EntriesOutcome(w, v, n, [x] + xs)
  {
    assert ([x] + xs)[1..] == xs;
    if AllEntries(HasData, v) {
      assert Printable(v[0].value) && Printable(x.value);
    }
    assert EntrySize(x) == Size(x.value) && EntrySize(v[0]) == Size(v[0].value);
    assert KeysApartEntry(w, v[0], m) == KeysApart(w, v[0].value, m);
    assert ArrangedEntry(w, v[0], m) == Entry(v[0].key, Arranged(w, v[0].value, m));
  }

  lemma OrderedPrintable(w: World, start: nat, v: seq<Entry>)
    ensures AllEntries(HasData, v) ==> AllEntries(HasData, Ordered(w, start, v))
  {
    EntriesIndexed(HasData, v);
    EntriesIndexed(HasData, Ordered(w, start, v));
  }

  lemma OrderedPairsPrintable(w: World, start: nat, v: seq<Pair>)
    ensures AllPairs(HasData, v) ==> AllPairs(HasData, Ordered(w, start, v))
  {
    PairsIndexed(HasData, v);
    PairsIndexed(HasData, Ordered(w, start, v));
  }

  lemma {:induction false} OrderedDataOutcome(w: World, v: seq<Entry>, n: nat, start: nat, got: seq<Entry>)
    requires EntriesOutcome(w, v, n + 1, got) && start == |EntriesWords(v)| + 1 + n
    ensures DataOutcome(w, Data(v), n, Data(Ordered(w, start, got)))
  {
    ArrangedEntrySizes(w.order(start, |got|), got);
    OrderedPrintable(w, start, got);
  }

  lemma {:induction false} BundleOutcome(w: World, v: seq<Entry>, n: nat, start: nat, got: seq<Entry>)
    requires EntriesOutcome(w, v, n + 1, got) && start == |EntriesWords(v)| + 1 + n
    ensures Outcome(w, Bundle(v), n, Bundle(Ordered(w, start, got)))
  {
    OrderedDataOutcome(w, v, n, start, got);
    BundleIsData(w, v, n);
    BundleIsData(w, Ordered(w, start, got), n);
  }

  /** For a bundle everything is as for its data. */
  lemma {:induction false} BundleIsData(w: World, v: seq<Entry>, n: nat)
    ensures Size(Bundle(v)) == DataSize(Data(v)) && (Printable(Bundle(v)) <==> AllEntries(HasData, v))
    ensures KeysApart(w, Bundle(v), n) <==> KeysApartData(w, Data(v), n)
    ensures Data(Arranged(w, Bundle(v), n).entries) == ArrangedData(w, Data(v), n)
  {
  }

  lemma {:induction false} MapOutcome(w: World, v: seq<Pair>, n: nat, start: nat, all: seq<Pair>)
    requires PairsOutcome(w, v, n + 1, [], all) && start == |PairsWords(v)| + 1 + n
    ensures Outcome(w, Map(v), n, Map(Ordered(w, start, all)))
  {
    MapSize(w, start, v, all);
    MapPrintable(w, start, v, all);
    MapArranged(w, v, n, start);
  }

  lemma {:induction false} MapArranged(w: World, v: seq<Pair>, n: nat, start: nat)
    requires start == |PairsWords(v)| + 1 + n
    ensures KeysApart(w, Map(v), n) <==> GoIn(w, v, n + 1, [])
    ensures Arranged(w, Map(v), n) == Map(Ordered(w, start, [] + ArrangedPairs(w, v, n + 1)))
  {
    PrependNothing(ArrangedPairs(w, v, n + 1));
    MapIsArranged(w, v, n, start);
  }

  lemma {:induction false} MapIsArranged(w: World, v: seq<Pair>, n: nat, start: nat)
    requires start == |PairsWords(v)| + 1 + n
    ensures Arranged(w, Map(v), n) == Map(Ordered(w, start, ArrangedPairs(w, v, n + 1)))
    ensures KeysApart(w, Map(v), n) <==> KeysApartPairs(w, v, n + 1) && Unequal(ArrangedPairs(w, v, n + 1))
  {
  }

  lemma MapSize(w: World, start: nat, v: seq<Pair>, all: seq<Pair>)
    ensures Size(Map(v)) == Sum(PairSizes([])) + Sum(PairSizes(v))
    ensures Size(Map(Ordered(w, start, all))) == Sum(PairSizes(all))
  {
    ArrangedPairSizes(w.order(start, |all|), all);
  }

  lemma MapPrintable(w: World, start: nat, v: seq<Pair>, all: seq<Pair>)
    requires AllPairs(HasData, v) ==> AllPairs(HasData, all)
    ensures Printable(Map(v)) ==> Printable(Map(Ordered(w, start, all)))
  {
    OrderedPairsPrintable(w, start, all);
  }

  lemma {:induction false} MessageOutcome(w: World, e: Elem, n: nat, data: Data)
    requires e.Message? && DataOutcome(w, e.data, n, data)
    ensures Outcome(w, e, n, e.(data := data))
  {
    if Printable(e) {
      assert HasData(e);
    }
  }

  lemma ScalarOutcome(w: World, e: Elem, n: nat)
    requires !IsContainer(e)
    ensures Outcome(w, e, n, e)
  {
  }

  /**
   * The words of a value that could be spelled but for its map keys always parse, and leave what follows. If in
   * this world no keys merge the result is the value as the world arranges it, and otherwise it is smaller.
   */
  lemma {:induction false} ParsesLoosely(w: World, o: Orders, e: Elem, rest: seq<string>) returns (x: Elem)
    requires Expressible(w.rounding, o, e)
    ensures ParseSingle(w, Words(e) + rest) == Done(Some(x), rest) && Outcome(w, e, |rest|, x)
    decreases e
  {
    if !IsContainer(e) {
      ParsesScalar(w, e, rest);
      ScalarOutcome(w, e, |rest|);
      x := e;
    } else if e.Message? {
      x := ParsesMessage(w, o, e, rest);
    } else if e.Bundle? {
      x := ParsesBundle(w, o, e, rest);
    } else if e.Map? {
      x := ParsesMap(w, o, e, rest);
    } else {
      x := ParsesList(w, o, e, rest);
    }
  }

  lemma ContainerWords(ident: string, inner: seq<string>, rest: seq<string>)
    ensures [ident] + inner + ["end"] + rest == [ident] + (inner + (["end"] + rest))
  {
  }

  lemma {:induction false} ParsesBundle(w: World, o: Orders, e: Elem, rest: seq<string>) returns (x: Elem)
    requires e.Bundle? && Expressible(w.rounding, o, e)
    ensures ParseSingle(w, Words(e) + rest) == Done(Some(x), rest) && Outcome(w, e, |rest|, x)
    decreases e, 0
  {
    var tail := EntriesWords(e.entries) + (["end"] + rest);
    ContainerWords("bund", EntriesWords(e.entries), rest);
    PrependNothing(e.entries);
    var entries := ParsesEntries(w, o, e.entries, [], rest);
    PrependNothing(entries);
    var start := |tail|;
    BundleStep(w, tail, entries, rest);
    BundleOutcome(w, e.entries, |rest|, start, entries);
    x := Bundle(Ordered(w, start, entries));
  }

  lemma {:induction false} ParsesMap(w: World, o: Orders, e: Elem, rest: seq<string>) returns (x: Elem)
    requires e.Map? && Expressible(w.rounding, o, e)
    ensures ParseSingle(w, Words(e) + rest) == Done(Some(x), rest) && Outcome(w, e, |rest|, x)
    decreases e, 0
  {
    var tail := PairsWords(e.pairs) + (["end"] + rest);
    ContainerWords("map", PairsWords(e.pairs), rest);
    var pairs := ParsesPairs(w, o, e.pairs, [], rest);
    var start := |tail|;
    MapStep(w, tail, pairs, rest);
    MapOutcome(w, e.pairs, |rest|, start, pairs);
    x := Map(Ordered(w, start, pairs));
  }

  lemma {:induction false} ParsesList(w: World, o: Orders, e: Elem, rest: seq<string>) returns (x: Elem)
    requires e.List? && Expressible(w.rounding, o, e)
    ensures ParseSingle(w, Words(e) + rest) == Done(Some(x), rest) && Outcome(w, e, |rest|, x)
    decreases e, 0
  {
    var tail := ElemsWords(e.elems) + (["end"] + rest);
    ContainerWords("list", ElemsWords(e.elems), rest);
    EndStops(w, rest);
    var elems := ParsesElems(w, o, e.elems, [], ["end"] + rest, rest);
    PrependNothing(elems);
    ListStep(w, tail, elems, rest);
    x := List(elems);
  }

  lemma {:induction false} ParsesMessage(w: World, o: Orders, e: Elem, rest: seq<string>) returns (x: Elem)
    requires e.Message? && Expressible(w.rounding, o, e)
    ensures ParseSingle(w, Words(e) + rest) == Done(Some(x), rest) && Outcome(w, e, |rest|, x)
    decreases e, 0
  {
    var data := ParsesData(w, o, e.data, rest);
    x := e.(data := data);
    MessageNumbers(w, x, DataWords(e.data) + rest, rest);
    MessageWords(e, rest);
    MessageOutcome(w, e, |rest|, data);
  }

  lemma {:induction false} ParsesData(w: World, o: Orders, data: Data, rest: seq<string>) returns (x: Data)
    requires data.Data? ==> GoodKeys(data.entries) && ExpressibleEntries(w.rounding, o, data.entries)
    ensures DataWords(data) + rest != [] && Carries(w, DataWords(data) + rest, x, rest)
    ensures DataOutcome(w, data, |rest|, x)
    decreases data
  {
    x := data;
    if data.Data? {
      PrependNothing(data.entries);
      var entries := ParsesEntries(w, o, data.entries, [], rest);
      PrependNothing(entries);
      var start := |EntriesWords(data.entries)| + 1 + |rest|;
      x := Data(Ordered(w, start, entries));
      DataStep(w, data, rest, start, entries);
      OrderedDataOutcome(w, data.entries, |rest|, start, entries);
    } else {
      DataParts(data, rest);
    }
  }

  lemma {:induction false} DataStep(w: World, data: Data, rest: seq<string>, start: nat, entries: seq<Entry>)
    requires data.Data? && start == |EntriesWords(data.entries)| + 1 + |rest|
    requires ParseEntries(w, EntriesWords(data.entries) + (["end"] + rest), []) == Done(entries, rest)
    ensures var ts := DataWords(data) + rest;
            ts != [] && Carries(w, ts, Data(Ordered(w, start, entries)), rest)
  {
    DataParts(data, rest);
    CarriesBundle(w, DataWords(data) + rest, start, entries, rest);
  }

  lemma CarriesBundle(w: World, ts: seq<string>, start: nat, entries: seq<Entry>, rest: seq<string>)
    requires ts != [] && ts[0] == "bund" && |ts| == start + 1 && ParseEntries(w, ts[1..], []) == Done(entries, rest)
    ensures Carries(w, ts, Data(Ordered(w, start, entries)), rest)
  {
  }

  lemma EndStops(w: World, rest: seq<string>)
    ensures ParseSingle(w, ["end"] + rest) == Done(None, rest)
  {
    assert (["end"] + rest)[1..] == rest;
  }

  lemma {:induction false} FirstElemWords(es: seq<Elem>, tail: seq<string>)
    requires es != []
    ensures ElemsWords(es) + tail == Words(es[0]) + (ElemsWords(es[1..]) + tail)
  {
    assert ElemsWords(es) == Words(es[0]) + ElemsWords(es[1..]);
  }

  lemma {:induction false} OtherElems(w: World, o: Orders, es: seq<Elem>)
    requires es != [] && ExpressibleElems(w.rounding, o, es)
    ensures Expressible(w.rounding, o, es[0]) && ExpressibleElems(w.rounding, o, es[1..])
  {
    assert forall i :: 0 <= i < |es[1..]| ==> es[1..][i] == es[i + 1];
  }

  /** The words of values one after the other, up to where there is none: an `end`, or the end of the line. */
  lemma {:induction false} ParsesElems(w: World, o: Orders, es: seq<Elem>, acc: seq<Elem>,
                                       tail: seq<string>, rest: seq<string>) returns (got: seq<Elem>)
    requires ExpressibleElems(w.rounding, o, es) && ParseSingle(w, tail) == Done(None, rest)
    ensures ParseElems(w, ElemsWords(es) + tail, acc) == Done(acc + got, rest)
    ensures ElemsOutcome(w, es, |tail|, got)
    decreases es
  {
    if es == [] {
      got := [];
      assert ElemsWords(es) + tail == tail && acc + got == acc;
    } else {
      FirstElemWords(es, tail);
      OtherElems(w, o, es);
      var after := ElemsWords(es[1..]) + tail;
      var first := ParsesLoosely(w, o, es[0], after);
      var more := ParsesElems(w, o, es[1..], acc + [first], tail, rest);
      got := [first] + more;
      AppendCons(acc, first, more);
      ConsElemsOutcome(w, es, |tail|, |after|, first, more);
    }
  }

  lemma {:induction false} InsertFreshEntry(acc: seq<Entry>, key: string, value: Elem)
    requires forall i :: 0 <= i < |acc| ==> acc[i].key != key
    ensures InsertEntry(acc, key, value) == acc + [Entry(key, value)]
  {
    if acc != [] {
      InsertFreshEntry(acc[1..], key, value);
    }
  }

  lemma EntryStep(w: World, key: string, ts: seq<string>, acc: seq<Entry>, v: Elem, rest: seq<string>)
    requires key != "end" && ParseSingle(w, ts) == Done(Some(v), rest)
    ensures ParseEntries(w, [key] + ts, acc) == ParseEntries(w, rest, InsertEntry(acc, key, v))
  {
    assert ([key] + ts)[1..] == ts;
  }

  /** Keys that are good together stay so when the first pending one moves over, whatever its value. */
  lemma MoveKey(acc: seq<Entry>, entries: seq<Entry>, value: Elem)
    requires GoodKeys(acc + entries) && entries != []
    ensures entries[0].key != "end" && forall i :: 0 <= i < |acc| ==> acc[i].key != entries[0].key
    ensures GoodKeys(acc + [Entry(entries[0].key, value)] + entries[1..])
  {
    var all := acc + entries;
    var moved := acc + [Entry(entries[0].key, value)] + entries[1..];
    assert all[|acc|] == entries[0] && forall i :: 0 <= i < |acc| ==> all[i] == acc[i];
    assert |moved| == |all| && forall i :: 0 <= i < |all| ==> moved[i].key == all[i].key;
  }

  lemma {:induction false} FirstEntryWords(entries: seq<Entry>, tail: seq<string>)
    requires entries != []
    ensures EntriesWords(entries) + tail
            == [entries[0].key] + (Words(entries[0].value) + (EntriesWords(entries[1..]) + tail))
  {
    var key, value, more := [entries[0].key], Words(entries[0].value), EntriesWords(entries[1..]);
    assert EntriesWords(entries) == key + value + more;
    Regroup(key, value, more, tail);
  }

  lemma Regroup(a: seq<string>, b: seq<string>, c: seq<string>, d: seq<string>)
    ensures a + b + c + d == a + (b + (c + d))
  {
  }

  lemma {:induction false} OtherEntries(w: World, o: Orders, entries: seq<Entry>)
    requires entries != [] && ExpressibleEntries(w.rounding, o, entries)
    ensures Expressible(w.rounding, o, entries[0].value) && ExpressibleEntries(w.rounding, o, entries[1..])
  {
    assert forall i :: 0 <= i < |entries[1..]| ==> entries[1..][i] == entries[i + 1];
  }

  lemma {:induction false} ParsesEntries(w: World, o: Orders, entries: seq<Entry>, acc: seq<Entry>, rest: seq<string>)
    returns (got: seq<Entry>)
    requires GoodKeys(acc + entries) && ExpressibleEntries(w.rounding, o, entries)
    ensures ParseEntries(w, EntriesWords(entries) + (["end"] + rest), acc) == Done(acc + got, rest)
    ensures EntriesOutcome(w, entries, 1 + |rest|, got)
    decreases entries
  {
    var tail := ["end"] + rest;
    if entries == [] {
      got := [];
      assert EntriesWords(entries) + tail == tail && tail[1..] == rest && acc + got == acc;
    } else {
      var key, value, more := entries[0].key, entries[0].value, EntriesWords(entries[1..]) + tail;
      FirstEntryWords(entries, tail);
      OtherEntries(w, o, entries);
      var first := ParsesLoosely(w, o, value, more);
      MoveKey(acc, entries, first);
      EntryStep(w, key, Words(value) + more, acc, first, more);
      InsertFreshEntry(acc, key, first);
      var others := ParsesEntries(w, o, entries[1..], acc + [Entry(key, first)], rest);
      got := [Entry(key, first)] + others;
      AppendCons(acc, Entry(key, first), others);
      ConsEntriesOutcome(w, entries, 1 + |rest|, |more|, Entry(key, first), others);
    }
  }

  // ---------------------------------------------------------------- map entries, fresh or merged

  lemma {:induction false} InsertFreshPair(acc: seq<Pair>, key: Elem, value: Elem)
    requires Printable(key) && PrintableKeys(acc) && forall q :: q in acc ==> !WireEqual(q.key, key)
    ensures InsertPair(acc, key, value) == acc + [Pair(key, value)]
  {
    if acc != [] {
      assert acc[0] in acc;
      InsertFreshPair(acc[1..], key, value);
    }
  }

  lemma {:induction false} PairSizesSnoc(acc: seq<Pair>, x: Pair)
    ensures Sum(PairSizes(acc + [x])) == Sum(PairSizes(acc)) + PairSize(x)
  {
    if acc == [] {
      assert acc + [x] == [x] && [x][1..] == [];
    } else {
      assert (acc + [x])[1..] == acc[1..] + [x];
      PairSizesSnoc(acc[1..], x);
    }
  }

  /** A merged pair brings in its value only. */
  lemma {:induction false} MergedSize(acc: seq<Pair>, key: Elem, value: Elem)
    requires Printable(key) && PrintableKeys(acc) && exists q :: q in acc && WireEqual(q.key, key)
    ensures Sum(PairSizes(InsertPair(acc, key, value))) <= Sum(PairSizes(acc)) + Size(value)
  {
    if !WireEqual(acc[0].key, key) {
      assert forall q :: q in acc && q != acc[0] ==> q in acc[1..];
      MergedSize(acc[1..], key, value);
      var tail := InsertPair(acc[1..], key, value);
      assert ([acc[0]] + tail)[1..] == tail;
    } else {
      assert ([Pair(acc[0].key, value)] + acc[1..])[1..] == acc[1..];
    }
  }

  lemma {:induction false} InsertPrintable(acc: seq<Pair>, key: Elem, value: Elem)
    requires Printable(key) && PrintableKeys(acc) && AllPairs(HasData, acc) && Printable(value)
    ensures AllPairs(HasData, InsertPair(acc, key, value))
  {
    if acc != [] && !WireEqual(acc[0].key, key) {
      InsertPrintable(acc[1..], key, value);
    }
  }

  lemma NotUnequal(acc: seq<Pair>, x: Pair, more: seq<Pair>, q: Pair)
    requires PrintableKeys(acc) && Printable(x.key) && q in acc && WireEqual(q.key, x.key)
    ensures !Unequal(acc + ([x] + more))
  {
    var all := acc + ([x] + more);
    var i :| 0 <= i < |acc| && acc[i] == q;
    assert all[i] == q && all[|acc|] == x;
  }

  /** The first pair decides whether the pairs go in together with the others. */
  lemma {:induction false} GoInFirst(w: World, pairs: seq<Pair>, n: nat, m: nat, acc: seq<Pair>, x: Pair)
    requires pairs != [] && m == |PairsWords(pairs[1..])| + n
    requires KeysApartPair(w, pairs[0], m) ==> x == ArrangedPair(w, pairs[0], m)
    ensures GoIn(w, pairs, n, acc) <==> KeysApartPair(w, pairs[0], m) && GoIn(w, pairs[1..], n, acc + [x])
    ensures KeysApartPair(w, pairs[0], m) ==>
              acc + ArrangedPairs(w, pairs, n) == acc + [x] + ArrangedPairs(w, pairs[1..], n)
  {
    var tail := ArrangedPairs(w, pairs[1..], n);
    AppendCons(acc, x, tail);
    assert ArrangedPairs(w, pairs, n) == [ArrangedPair(w, pairs[0], m)] + tail;
  }

  lemma PairSizesFirst(pairs: seq<Pair>)
    requires pairs != []
    ensures Sum(PairSizes(pairs)) == PairSize(pairs[0]) + Sum(PairSizes(pairs[1..]))
  {
  }

  lemma {:induction false} FreshOutcome(
    w: World, pairs: seq<Pair>, n: nat, acc: seq<Pair>, x: Pair, m: nat, more: seq<Pair>, all: seq<Pair>
  )
    requires pairs != [] && m == |PairsWords(pairs[1..])| + n && more == acc + [x]
    requires PairOutcome(w, pairs[0], m, x) && PairsOutcome(w, pairs[1..], n, more, all)
    ensures GoIn(w, pairs, n, acc) ==> all == acc + ArrangedPairs(w, pairs, n)
    ensures !GoIn(w, pairs, n, acc) ==> Sum(PairSizes(all)) < Sum(PairSizes(acc)) + Sum(PairSizes(pairs))
    ensures Sum(PairSizes(all)) <= Sum(PairSizes(acc)) + Sum(PairSizes(pairs))
  {
    PairSizesSnoc(acc, x);
    PairSizesFirst(pairs);
    GoInFirst(w, pairs, n, m, acc, x);
  }

  lemma {:induction false} MergedOutcome(
    w: World, pairs: seq<Pair>, n: nat, acc: seq<Pair>, x: Pair, q: Pair, m: nat, more: seq<Pair>, all: seq<Pair>
  )
    requires pairs != [] && PrintableKeys(acc) && Printable(x.key) && q in acc && WireEqual(q.key, x.key)
    requires m == |PairsWords(pairs[1..])| + n && more == InsertPair(acc, x.key, x.value)
    requires PairOutcome(w, pairs[0], m, x) && PairsOutcome(w, pairs[1..], n, more, all)
    ensures !GoIn(w, pairs, n, acc)
    ensures Sum(PairSizes(all)) < Sum(PairSizes(acc)) + Sum(PairSizes(pairs))
  {
    GoInFirst(w, pairs, n, m, acc, x);
    NotUnequal(acc, x, ArrangedPairs(w, pairs[1..], n), q);
    AppendCons(acc, x, ArrangedPairs(w, pairs[1..], n));
    MergedSize(acc, x.key, x.value);
    PairSizesFirst(pairs);
    assert PairSize(x) == 1 + Size(x.key) + Size(x.value);
  }

  lemma FirstPairPrintable(pairs: seq<Pair>)
    requires pairs != [] && AllPairs(HasData, pairs)
    ensures Printable(pairs[0].value) && AllPairs(HasData, pairs[1..])
  {
    assert AllPair(HasData, pairs[0]);
  }

  lemma {:induction false} PairStepOutcome(
    w: World, pairs: seq<Pair>, n: nat, acc: seq<Pair>, x: Pair, m: nat, more: seq<Pair>, all: seq<Pair>
  )
    requires pairs != [] && PrintableKeys(acc) && Printable(x.key)
    requires m == |PairsWords(pairs[1..])| + n && PairOutcome(w, pairs[0], m, x)
    requires more == InsertPair(acc, x.key, x.value) && PrintableKeys(more)
    requires PairsOutcome(w, pairs[1..], n, more, all)
    ensures PairsOutcome(w, pairs, n, acc, all)
  {
    if AllPairs(HasData, acc) && AllPairs(HasData, pairs) {
      FirstPairPrintable(pairs);
      InsertPrintable(acc, x.key, x.value);
    }
    if q :| q in acc && WireEqual(q.key, x.key) {
      MergedOutcome(w, pairs, n, acc, x, q, m, more, all);
    } else {
      InsertFreshPair(acc, x.key, x.value);
      FreshOutcome(w, pairs, n, acc, x, m, more, all);
    }
  }

  lemma {:induction false} ParsesPair(w: World, o: Orders, pair: Pair, rest: seq<string>, n: nat) returns (x: Pair)
    requires ExpressiblePair(w.rounding, o, pair) && n == |rest|
    ensures ParseSingle(w, PairWords(pair) + rest) == Done(Some(x.key), Words(pair.value) + rest)
    ensures ParseSingle(w, Words(pair.value) + rest) == Done(Some(x.value), rest)
    ensures PairOutcome(w, pair, n, x)
    decreases pair
  {
    assert PairWords(pair) + rest == Words(pair.key) + (Words(pair.value) + rest);
    var key := ParsesLoosely(w, o, pair.key, Words(pair.value) + rest);
    var value := ParsesLoosely(w, o, pair.value, rest);
    x := Pair(key, value);
    var m := |Words(pair.value)| + n;
    assert m == |Words(pair.value) + rest|;
    KeyAndValue(w, pair, n, m, key, value);
  }

  lemma {:induction false} KeyAndValue(w: World, pair: Pair, n: nat, m: nat, key: Elem, value: Elem)
    requires Printable(pair.key) && m == |Words(pair.value)| + n
    requires Outcome(w, pair.key, m, key) && Outcome(w, pair.value, n, value)
    ensures PairOutcome(w, pair, n, Pair(key, value))
  {
  }

  lemma PairStep(w: World, ts: seq<string>, acc: seq<Pair>, key: Elem, mid: seq<string>, v: Elem, rest: seq<string>)
    requires Printable(key) && PrintableKeys(acc)
    requires ParseSingle(w, ts) == Done(Some(key), mid) && ParseSingle(w, mid) == Done(Some(v), rest)
    ensures PrintableKeys(InsertPair(acc, key, v))
    ensures ParsePairs(w, ts, acc) == ParsePairs(w, rest, InsertPair(acc, key, v))
  {
    InsertPairKeys(acc, key, v);
  }

  lemma {:induction false} FirstPairWords(pairs: seq<Pair>, tail: seq<string>)
    requires pairs != []
    ensures PairsWords(pairs) + tail == PairWords(pairs[0]) + (PairsWords(pairs[1..]) + tail)
  {
    assert PairsWords(pairs) == PairWords(pairs[0]) + PairsWords(pairs[1..]);
  }

  lemma {:induction false} OtherPairs(w: World, o: Orders, pairs: seq<Pair>)
    requires pairs != [] && ExpressiblePairs(w.rounding, o, pairs)
    ensures ExpressiblePair(w.rounding, o, pairs[0]) && ExpressiblePairs(w.rounding, o, pairs[1..])
  {
    assert forall i :: 0 <= i < |pairs[1..]| ==> pairs[1..][i] == pairs[i + 1];
  }

  lemma {:induction false} ParsesPairs(w: World, o: Orders, pairs: seq<Pair>, acc: seq<Pair>, rest: seq<string>)
    returns (all: seq<Pair>)
    requires Unequal(acc) && ExpressiblePairs(w.rounding, o, pairs)
    ensures ParsePairs(w, PairsWords(pairs) + (["end"] + rest), acc) == Done(all, rest)
    ensures PairsOutcome(w, pairs, 1 + |rest|, acc, all)
    decreases pairs
  {
    var n, tail := 1 + |rest|, ["end"] + rest;
    if pairs == [] {
      all := acc;
      assert PairsWords(pairs) + tail == tail && tail[1..] == rest && acc + [] == acc;
      assert ParseSingle(w, tail) == Done(None, rest);
    } else {
      var value, more := pairs[0].value, PairsWords(pairs[1..]) + tail;
      FirstPairWords(pairs, tail);
      OtherPairs(w, o, pairs);
      var m := |PairsWords(pairs[1..])| + n;
      var x := ParsesPair(w, o, pairs[0], more, m);
      PairStep(w, PairWords(pairs[0]) + more, acc, x.key, Words(value) + more, x.value, more);
      InsertPairKeepsUnequal(acc, x.key, x.value);
      var acc' := InsertPair(acc, x.key, x.value);
      all := ParsesPairs(w, o, pairs[1..], acc', rest);
      PairStepOutcome(w, pairs, n, acc, x, m, acc', all);
    }
  }

  // ---------------------------------------------------------------- values whose keys never merge

  /** A statement about the given order is one about the world that has it. */
  ghost predicate Suits(w: World, o: Orders) {
    o.Given? ==> w == InOrder(w.rounding)
  }

  ghost predicate ElemsCome(o: Orders, a: seq<Elem>, b: seq<Elem>) {
    |a| == |b| && forall i :: 0 <= i < |a| ==> Comes(o, a[i], b[i])
  }

  ghost predicate EntryComes(o: Orders, a: Entry, b: Entry) {
    a.key == b.key && Comes(o, a.value, b.value)
  }

  ghost predicate EntriesCome(o: Orders, a: seq<Entry>, b: seq<Entry>) {
    |a| == |b| && forall i :: 0 <= i < |a| ==> EntryComes(o, a[i], b[i])
  }

  ghost predicate PairComes(o: Orders, a: Pair, b: Pair) {
    Comes(o, a.key, b.key) && Comes(o, a.value, b.value)
  }

  ghost predicate PairsCome(o: Orders, a: seq<Pair>, b: seq<Pair>) {
    |a| == |b| && forall i :: 0 <= i < |a| ==> PairComes(o, a[i], b[i])
  }

  lemma BundleComes(w: World, o: Orders, start: nat, v: seq<Entry>, got: seq<Entry>)
    requires Suits(w, o) && EntriesCome(o, v, got)
    ensures Comes(o, Bundle(v), Bundle(Ordered(w, start, got)))
    ensures !o.Given? ==> SameData(Data(v), Data(Ordered(w, start, got)))
    ensures o.Given? ==> Ordered(w, start, got) == v
  {
    if o.Given? {
      assert got == v;
      OrderedInOrder(w.rounding, start, got);
    } else {
      assert SameEntries(v, Ordered(w, start, got), w.order(start, |v|));
    }
  }

  lemma MapComes(w: World, o: Orders, start: nat, v: seq<Pair>, got: seq<Pair>)
    requires Suits(w, o) && PairsCome(o, v, got)
    ensures Comes(o, Map(v), Map(Ordered(w, start, got)))
  {
    if o.Given? {
      assert got == v;
      OrderedInOrder(w.rounding, start, got);
    } else {
      assert SamePairs(v, Ordered(w, start, got), w.order(start, |v|));
    }
  }

  lemma ListComes(o: Orders, v: seq<Elem>, got: seq<Elem>)
    requires ElemsCome(o, v, got)
    ensures Comes(o, List(v), List(got))
  {
    if o.Given? {
      assert got == v;
    } else {
      assert SameElems(v, got);
    }
  }

  lemma ComplexComes(o: Orders, v: seq<Elem>, got: seq<Elem>)
    requires ElemsCome(o, v, got)
    ensures Comes(o, Complex(v), Complex(got))
  {
    if o.Given? {
      assert got == v;
    } else {
      assert SameElems(v, got);
    }
  }

  lemma MessageComes(o: Orders, e: Elem, data: Data)
    requires e.Message? && if o.Given? then data == e.data else SameData(e.data, data)
    ensures Comes(o, e, e.(data := data))
  {
  }

  /** A world arranges a value in one of its orders. */
  lemma {:induction false} ArrangedComes(w: World, o: Orders, e: Elem, n: nat)
    requires Suits(w, o)
    ensures Comes(o, e, Arranged(w, e, n))
    decreases e
  {
    if e.Bundle? {
      ArrangedEntriesCome(w, o, e.entries, n + 1);
      BundleComes(w, o, |EntriesWords(e.entries)| + 1 + n, e.entries, ArrangedEntries(w, e.entries, n + 1));
    } else if e.Map? {
      ArrangedPairsCome(w, o, e.pairs, n + 1);
      MapComes(w, o, |PairsWords(e.pairs)| + 1 + n, e.pairs, ArrangedPairs(w, e.pairs, n + 1));
    } else if e.List? {
      ArrangedElemsCome(w, o, e.elems, n + 1);
      ListComes(o, e.elems, ArrangedElems(w, e.elems, n + 1));
    } else if e.Complex? {
      ArrangedElemsCome(w, o, e.parts, n + 1);
      ComplexComes(o, e.parts, ArrangedElems(w, e.parts, n + 1));
    } else if e.Message? {
      ArrangedDataComes(w, o, e.data, n);
      MessageComes(o, e, ArrangedData(w, e.data, n));
    }
  }

  lemma {:induction false} ArrangedDataComes(w: World, o: Orders, data: Data, n: nat)
    requires Suits(w, o)
    ensures if o.Given? then ArrangedData(w, data, n) == data else SameData(data, ArrangedData(w, data, n))
    decreases data
  {
    if data.Data? {
      ArrangedEntriesCome(w, o, data.entries, n + 1);
      BundleComes(w, o, |EntriesWords(data.entries)| + 1 + n, data.entries, ArrangedEntries(w, data.entries, n + 1));
    }
  }

  lemma {:induction false} ArrangedElemsCome(w: World, o: Orders, es: seq<Elem>, n: nat)
    requires Suits(w, o)
    ensures ElemsCome(o, es, ArrangedElems(w, es, n))
    decreases es
  {
    if es != [] {
      ArrangedComes(w, o, es[0], |ElemsWords(es[1..])| + n);
      ArrangedElemsCome(w, o, es[1..], n);
      ConsElems(o, es, ArrangedElems(w, es, n)[0], ArrangedElems(w, es[1..], n));
    }
  }

  lemma {:induction false} ArrangedEntryComes(w: World, o: Orders, entry: Entry, n: nat)
    requires Suits(w, o)
    ensures EntryComes(o, entry, ArrangedEntry(w, entry, n))
    decreases entry
  {
    ArrangedComes(w, o, entry.value, n);
  }

  lemma {:induction false} ArrangedEntriesCome(w: World, o: Orders, entries: seq<Entry>, n: nat)
    requires Suits(w, o)
    ensures EntriesCome(o, entries, ArrangedEntries(w, entries, n))
    decreases entries
  {
    if entries != [] {
      ArrangedEntryComes(w, o, entries[0], |EntriesWords(entries[1..])| + n);
      ArrangedEntriesCome(w, o, entries[1..], n);
      ConsEntries(o, entries, ArrangedEntries(w, entries, n)[0], ArrangedEntries(w, entries[1..], n));
    }
  }

  lemma {:induction false} ArrangedPairComes(w: World, o: Orders, pair: Pair, n: nat)
    requires Suits(w, o)
    ensures PairComes(o, pair, ArrangedPair(w, pair, n))
    decreases pair
  {
    ArrangedComes(w, o, pair.key, |Words(pair.value)| + n);
    ArrangedComes(w, o, pair.value, n);
  }

  lemma {:induction false} ArrangedPairsCome(w: World, o: Orders, pairs: seq<Pair>, n: nat)
    requires Suits(w, o)
    ensures PairsCome(o, pairs, ArrangedPairs(w, pairs, n))
    decreases pairs
  {
    if pairs != [] {
      ArrangedPairComes(w, o, pairs[0], |PairsWords(pairs[1..])| + n);
      ArrangedPairsCome(w, o, pairs[1..], n);
      ConsPairs(o, pairs, ArrangedPairs(w, pairs, n)[0], ArrangedPairs(w, pairs[1..], n));
    }
  }

  lemma ConsElems(o: Orders, es: seq<Elem>, first: Elem, others: seq<Elem>)
    requires es != [] && Comes(o, es[0], first) && ElemsCome(o, es[1..], others)
    ensures ElemsCome(o, es, [first] + others)
  {
    assert forall i :: 0 < i < |es| ==> es[i] == es[1..][i - 1];
  }

  lemma ConsEntries(o: Orders, entries: seq<Entry>, first: Entry, others: seq<Entry>)
    requires entries != [] && EntryComes(o, entries[0], first) && EntriesCome(o, entries[1..], others)
    ensures EntriesCome(o, entries, [first] + others)
  {
    assert forall i :: 0 < i < |entries| ==> entries[i] == entries[1..][i - 1];
  }

  lemma ConsPairs(o: Orders, pairs: seq<Pair>, first: Pair, others: seq<Pair>)
    requires pairs != [] && PairComes(o, pairs[0], first) && PairsCome(o, pairs[1..], others)
    ensures PairsCome(o, pairs, [first] + others)
  {
    assert forall i :: 0 < i < |pairs| ==> pairs[i] == pairs[1..][i - 1];
  }

  lemma ComesPrintable(o: Orders, a: Elem, b: Elem)
    requires Comes(o, a, b) && Printable(a)
    ensures Printable(b)
  {
    if !o.Given? {
      SamePrintable(a, b);
    }
  }

  /** Keys that are apart in the orders in question are so in a world that has them. */
  lemma {:induction false} ApartInWorld(w: World, o: Orders, e: Elem, n: nat)
    requires Expressible(w.rounding, o, e) && Suits(w, o) && !o.Loose?
    ensures KeysApart(w, e, n)
    decreases e
  {
    if e.Bundle? {
      EntriesApartInWorld(w, o, e.entries, n + 1);
    } else if e.Map? {
      PairsApartInWorld(w, o, e.pairs, n + 1);
      ArrangedPairsCome(w, o, e.pairs, n + 1);
      DistinctWhenArranged(w, o, e.pairs, ArrangedPairs(w, e.pairs, n + 1));
    } else if e.List? {
      ElemsApartInWorld(w, o, e.elems, n + 1);
    } else if e.Message? && e.data.Data? {
      EntriesApartInWorld(w, o, e.data.entries, n + 1);
    }
  }

  lemma DistinctWhenArranged(w: World, o: Orders, pairs: seq<Pair>, got: seq<Pair>)
    requires PairsCome(o, pairs, got) && DistinctPairs(o, pairs) && !o.Loose?
    requires ExpressiblePairs(w.rounding, o, pairs)
    ensures Unequal(got)
  {
    forall q | q in got ensures Printable(q.key) {
      var i :| 0 <= i < |got| && got[i] == q;
      assert PairComes(o, pairs[i], got[i]) && ExpressiblePair(w.rounding, o, pairs[i]);
      ComesPrintable(o, pairs[i].key, got[i].key);
    }
    forall i, j | 0 <= i < j < |got| ensures !WireEqual(got[i].key, got[j].key) {
      assert PairComes(o, pairs[i], got[i]) && PairComes(o, pairs[j], got[j]);
      assert got[i] in got && got[j] in got;
      assert Apart(o, pairs[i].key, pairs[j].key);
    }
  }

  lemma {:induction false} ElemsApartInWorld(w: World, o: Orders, es: seq<Elem>, n: nat)
    requires ExpressibleElems(w.rounding, o, es) && Suits(w, o) && !o.Loose?
    ensures KeysApartElems(w, es, n)
    decreases es
  {
    if es != [] {
      assert forall i :: 0 <= i < |es[1..]| ==> es[1..][i] == es[i + 1];
      ApartInWorld(w, o, es[0], |ElemsWords(es[1..])| + n);
      ElemsApartInWorld(w, o, es[1..], n);
    }
  }

  lemma {:induction false} EntriesApartInWorld(w: World, o: Orders, entries: seq<Entry>, n: nat)
    requires ExpressibleEntries(w.rounding, o, entries) && Suits(w, o) && !o.Loose?
    ensures KeysApartEntries(w, entries, n)
    decreases entries
  {
    if entries != [] {
      assert forall i :: 0 <= i < |entries[1..]| ==> entries[1..][i] == entries[i + 1];
      ApartInWorld(w, o, entries[0].value, |EntriesWords(entries[1..])| + n);
      EntriesApartInWorld(w, o, entries[1..], n);
    }
  }

  lemma {:induction false} PairApartInWorld(w: World, o: Orders, pair: Pair, n: nat)
    requires ExpressiblePair(w.rounding, o, pair) && Suits(w, o) && !o.Loose?
    ensures KeysApartPair(w, pair, n)
    decreases pair
  {
    ApartInWorld(w, o, pair.key, |Words(pair.value)| + n);
    ApartInWorld(w, o, pair.value, n);
  }

  lemma {:induction false} PairsApartInWorld(w: World, o: Orders, pairs: seq<Pair>, n: nat)
    requires ExpressiblePairs(w.rounding, o, pairs) && Suits(w, o) && !o.Loose?
    ensures KeysApartPairs(w, pairs, n)
    decreases pairs
  {
    if pairs != [] {
      assert forall i :: 0 <= i < |pairs[1..]| ==> pairs[1..][i] == pairs[i + 1];
      PairApartInWorld(w, o, pairs[0], |PairsWords(pairs[1..])| + n);
      PairsApartInWorld(w, o, pairs[1..], n);
    }
  }

  /**
   * Parsing the words of an expressible value, whatever follows them, yields the value, in whatever order the
   * world iterates its maps, and leaves what follows.
   */
  lemma ParsesWords(w: World, o: Orders, e: Elem, rest: seq<string>) returns (got: Elem)
    requires Expressible(w.rounding, o, e) && Suits(w, o) && !o.Loose?
    ensures ParseSingle(w, Words(e) + rest) == Done(Some(got), rest) && Comes(o, e, got)
  {
    got := ParsesLoosely(w, o, e, rest);
    ApartInWorld(w, o, e, |rest|);
    ArrangedComes(w, o, e, |rest|);
  }

  // ---------------------------------------------------------------- the parser yields nothing else

  lemma ScalarIsExpressible(w: World, ident: string, next: string)
    ensures var r := ParseScalar(w, ident, next);
            r.Some? ==> !IsContainer(r.value) && ScalarExpressible(w.rounding, r.value)
  {
    if ident == "barr" && IsHexArgument(next) {
      LowerHexIsLower(next);
    }
  }

  lemma LowerHexIsLower(s: string)
    requires forall c :: c in s ==> DigitValue(c) < 16
    ensures forall c :: c in Lower(s) ==> IsLowerHex(c)
  {
    forall i | 0 <= i < |s| ensures IsLowerHex(Lower(s)[i]) {
      assert s[i] in s;
    }
  }

  ghost predicate Results(w: World, r: Parsed<Option<Elem>>) {
    r.Done? && r.value.Some? ==> Expressible(w.rounding, Given, r.value.value)
  }

  lemma {:induction false} OutputExpressible(w: World, ts: seq<string>)
    ensures Results(w, ParseSingle(w, ts))
    decreases |ts|, 1
  {
    if ts != [] {
      IdentOutputExpressible(w, ts[0], ts[1..]);
    }
  }

  lemma {:induction false} IdentOutputExpressible(w: World, ident: string, ts: seq<string>)
    ensures Results(w, ParseIdent(w, ident, ts))
    decreases |ts|, 3
  {
    if ident == "msg" {
      MessageOutputExpressible(w, ts);
    } else if ident == "map" {
      PairsOutputExpressible(w, ts, []);
      var r := ParsePairs(w, ts, []);
      if r.Done? {
        ArrangeKeepsPairs(w.rounding, w.order(|ts|, |r.value|), r.value);
      }
    } else if ident == "bund" {
      EntriesOutputExpressible(w, ts, []);
      var r := ParseEntries(w, ts, []);
      if r.Done? {
        ArrangeKeepsEntries(w.rounding, w.order(|ts|, |r.value|), r.value);
      }
    } else if ident == "list" {
      ElemsOutputExpressible(w, ts, []);
    } else if ts != [] {
      ScalarIsExpressible(w, ident, ts[0]);
    }
  }

  lemma {:induction false} MessageOutputExpressible(w: World, ts: seq<string>)
    ensures Results(w, ParseMessage(w, ts))
    decreases |ts|, 2
  {
    if |ts| >= 4 {
      EntriesOutputExpressible(w, ts[4..], []);
      var r := ParseEntries(w, ts[4..], []);
      if r.Done? {
        ArrangeKeepsEntries(w.rounding, w.order(|ts| - 4, |r.value|), r.value);
      }
    }
  }

  lemma {:induction false} ElemsOutputExpressible(w: World, ts: seq<string>, acc: seq<Elem>)
    requires ExpressibleElems(w.rounding, Given, acc)
    ensures var r := ParseElems(w, ts, acc); r.Done? ==> ExpressibleElems(w.rounding, Given, r.value)
    decreases |ts|, 2
  {
    OutputExpressible(w, ts);
    var r := ParseSingle(w, ts);
    if r.Done? && r.value.Some? {
      ElemsOutputExpressible(w, r.rest, acc + [r.value.value]);
    }
  }

  ghost predicate GoodEntries(f: Rounding, entries: seq<Entry>) {
    GoodKeys(entries) && ExpressibleEntries(f, Given, entries)
  }

  lemma ArrangeKeepsEntries(f: Rounding, p: seq<nat>, entries: seq<Entry>)
    requires GoodEntries(f, entries) && IsPermutation(p, |entries|)
    ensures GoodEntries(f, Arrange(p, entries))
  {
    var r := Arrange(p, entries);
    assert forall i :: 0 <= i < |r| ==> r[i] == entries[p[i]];
  }

  lemma {:induction false} InsertMembers(entries: seq<Entry>, key: string, value: Elem)
    ensures forall e :: e in InsertEntry(entries, key, value) ==> e == Entry(key, value) || e in entries
  {
    if entries != [] && entries[0].key != key {
      InsertMembers(entries[1..], key, value);
    }
  }

  lemma {:induction false} InsertKeepsKeys(entries: seq<Entry>, key: string, value: Elem)
    requires GoodKeys(entries) && key != "end"
    ensures GoodKeys(InsertEntry(entries, key, value))
  {
    if entries != [] && entries[0].key != key {
      assert GoodKeys(entries[1..]);
      InsertKeepsKeys(entries[1..], key, value);
      InsertMembers(entries[1..], key, value);
      var tail := InsertEntry(entries[1..], key, value);
      forall i | 0 <= i < |tail| ensures tail[i].key != entries[0].key {
        assert tail[i] in tail;
      }
    }
  }

  lemma InsertKeepsGood(f: Rounding, entries: seq<Entry>, key: string, value: Elem)
    requires GoodEntries(f, entries) && key != "end" && Expressible(f, Given, value)
    ensures GoodEntries(f, InsertEntry(entries, key, value))
  {
    InsertKeepsKeys(entries, key, value);
    InsertMembers(entries, key, value);
    var r := InsertEntry(entries, key, value);
    forall i | 0 <= i < |r| ensures Expressible(f, Given, r[i].value) {
      assert r[i] in r;
    }
  }

  lemma {:induction false} EntriesOutputExpressible(w: World, ts: seq<string>, acc: seq<Entry>)
    requires GoodEntries(w.rounding, acc)
    ensures var r := ParseEntries(w, ts, acc); r.Done? ==> GoodEntries(w.rounding, r.value)
    decreases |ts|, 2
  {
    if ts != [] && ts[0] != "end" {
      OutputExpressible(w, ts[1..]);
      var r := ParseSingle(w, ts[1..]);
      if r.Done? && r.value.Some? {
        InsertKeepsGood(w.rounding, acc, ts[0], r.value.value);
        EntriesOutputExpressible(w, r.rest, InsertEntry(acc, ts[0], r.value.value));
      }
    }
  }

  lemma UnequalIsDistinct(pairs: seq<Pair>)
    requires PrintableKeys(pairs)
    ensures Unequal(pairs) <==> DistinctPairs(Given, pairs)
  {
    if DistinctPairs(Given, pairs) {
      forall i, j | 0 <= i < j < |pairs| ensures !WireEqual(pairs[i].key, pairs[j].key) {
        assert Apart(Given, pairs[i].key, pairs[j].key);
        assert Comes(Given, pairs[i].key, pairs[i].key) && Comes(Given, pairs[j].key, pairs[j].key);
      }
    }
  }

  ghost predicate GoodPairs(f: Rounding, pairs: seq<Pair>) {
    Unequal(pairs) && ExpressiblePairs(f, Given, pairs)
  }

  lemma ArrangeKeepsPairs(f: Rounding, p: seq<nat>, pairs: seq<Pair>)
    requires GoodPairs(f, pairs) && IsPermutation(p, |pairs|)
    ensures GoodPairs(f, Arrange(p, pairs)) && DistinctPairs(Given, Arrange(p, pairs))
  {
    var r := Arrange(p, pairs);
    assert forall i :: 0 <= i < |r| ==> r[i] == pairs[p[i]];
    assert PrintableKeys(r);
    forall i, j | 0 <= i < j < |r| ensures !WireEqual(r[i].key, r[j].key) {
      assert p[i] != p[j];
    }
    UnequalIsDistinct(r);
  }

  lemma {:induction false} InsertPairMembers(pairs: seq<Pair>, key: Elem, value: Elem)
    requires PrintableKeys(pairs) && Printable(key)
    ensures forall e :: e in InsertPair(pairs, key, value) ==>
              e in pairs || (e.value == value && (e.key == key || exists q :: q in pairs && q.key == e.key))
  {
    if pairs != [] && !WireEqual(pairs[0].key, key) {
      InsertPairMembers(pairs[1..], key, value);
    }
  }

  lemma ConsUnequal(first: Pair, tail: seq<Pair>)
    requires Printable(first.key) && Unequal(tail)
    requires forall i :: 0 <= i < |tail| ==> !WireEqual(first.key, tail[i].key)
    ensures Unequal([first] + tail)
  {
  }

  lemma TailUnequal(pairs: seq<Pair>)
    requires Unequal(pairs) && pairs != []
    ensures var tail := pairs[1..];
            Unequal(tail) && forall i :: 0 <= i < |tail| ==> !WireEqual(pairs[0].key, tail[i].key)
  {
    var tail := pairs[1..];
    assert forall i :: 0 <= i < |tail| ==> tail[i] == pairs[i + 1];
  }

  lemma {:induction false} InsertPairKeepsUnequal(pairs: seq<Pair>, key: Elem, value: Elem)
    requires Unequal(pairs) && Printable(key)
    ensures Unequal(InsertPair(pairs, key, value))
  {
    if pairs == [] {
      ConsUnequal(Pair(key, value), []);
    } else {
      TailUnequal(pairs);
      if WireEqual(pairs[0].key, key) {
        ConsUnequal(Pair(pairs[0].key, value), pairs[1..]);
      } else {
        InsertPairKeepsUnequal(pairs[1..], key, value);
        HeadStaysUnequal(pairs, key, value, InsertPair(pairs[1..], key, value));
        ConsUnequal(pairs[0], InsertPair(pairs[1..], key, value));
      }
    }
  }

  lemma HeadStaysUnequal(pairs: seq<Pair>, key: Elem, value: Elem, tail: seq<Pair>)
    requires Unequal(pairs) && Printable(key) && pairs != [] && !WireEqual(pairs[0].key, key)
    requires PrintableKeys(pairs[1..]) && tail == InsertPair(pairs[1..], key, value) && PrintableKeys(tail)
    ensures forall i :: 0 <= i < |tail| ==> !WireEqual(pairs[0].key, tail[i].key)
  {
    InsertPairMembers(pairs[1..], key, value);
    forall i | 0 <= i < |tail| ensures !WireEqual(pairs[0].key, tail[i].key) {
      assert tail[i] in tail;
    }
  }

  lemma InsertPairKeepsGood(f: Rounding, pairs: seq<Pair>, key: Elem, value: Elem)
    requires GoodPairs(f, pairs) && Printable(key) && Expressible(f, Given, key) && Expressible(f, Given, value)
    ensures GoodPairs(f, InsertPair(pairs, key, value))
  {
    InsertPairKeepsUnequal(pairs, key, value);
    InsertPairMembers(pairs, key, value);
    var r := InsertPair(pairs, key, value);
    forall i | 0 <= i < |r| ensures ExpressiblePair(f, Given, r[i]) {
      assert r[i] in r;
      if r[i] !in pairs && r[i].key != key {
        var q :| q in pairs && q.key == r[i].key;
        MemberExpressible(f, pairs, q);
      } else if r[i] in pairs {
        MemberExpressible(f, pairs, r[i]);
      }
    }
  }

  lemma MemberExpressible(f: Rounding, pairs: seq<Pair>, q: Pair)
    requires ExpressiblePairs(f, Given, pairs) && q in pairs
    ensures ExpressiblePair(f, Given, q)
  {
    var k :| 0 <= k < |pairs| && pairs[k] == q;
  }

  lemma {:induction false} PairsOutputExpressible(w: World, ts: seq<string>, acc: seq<Pair>)
    requires GoodPairs(w.rounding, acc)
    ensures var r := ParsePairs(w, ts, acc); r.Done? ==> GoodPairs(w.rounding, r.value)
    decreases |ts|, 2
  {
    OutputExpressible(w, ts);
    var k := ParseSingle(w, ts);
    if k.Done? && k.value.Some? {
      OutputExpressible(w, k.rest);
      var v := ParseSingle(w, k.rest);
      if v.Done? && v.value.Some? && Printable(k.value.value) {
        InsertPairKeepsGood(w.rounding, acc, k.value.value, v.value.value);
        PairsOutputExpressible(w, v.rest, InsertPair(acc, k.value.value, v.value.value));
      }
    }
  }

  /** A value, its maps in the order given, is what some command line parses to exactly when it is expressible. */
  lemma {:induction false} ParserImage(f: Rounding, e: Elem)
    ensures (exists w: World, ts, rest :: w.rounding == f && ParseSingle(w, ts) == Done(Some(e), rest))
            <==> Expressible(f, Given, e)
  {
    if Expressible(f, Given, e) {
      var got := ParsesWords(InOrder(f), Given, e, []);
      assert InOrder(f).rounding == f && ParseSingle(InOrder(f), Words(e) + []) == Done(Some(e), []);
    }
    if exists w: World, ts, rest :: w.rounding == f && ParseSingle(w, ts) == Done(Some(e), rest) {
      var w: World, ts, rest :| w.rounding == f && ParseSingle(w, ts) == Done(Some(e), rest);
      OutputExpressible(w, ts);
    }
  }

  // ---------------------------------------------------------------- exactly when words parse back

  /** If a value is expressible in one order, it is in another, but for keys that may merge there. */
  lemma {:induction false} ExpressibleLoosely(f: Rounding, x: Elem, e: Elem)
    requires Same(x, e) && Expressible(f, Given, x)
    ensures Expressible(f, Loose, e)
    decreases x
  {
    if x.Bundle? {
      var p :| SameEntries(x.entries, e.entries, p);
      EntriesLoosely(f, x.entries, e.entries, p);
    } else if x.Map? {
      var p :| SamePairs(x.pairs, e.pairs, p);
      PairsLoosely(f, x.pairs, e.pairs, p);
    } else if x.List? {
      forall i | 0 <= i < |e.elems| ensures Expressible(f, Loose, e.elems[i]) {
        ExpressibleLoosely(f, x.elems[i], e.elems[i]);
      }
    } else if x.Message? && x.data.Data? {
      assert SameData(x.data, e.data);
      var p :| SameEntries(x.data.entries, e.data.entries, p);
      EntriesLoosely(f, x.data.entries, e.data.entries, p);
    }
  }

  lemma {:induction false} EntriesLoosely(f: Rounding, u: seq<Entry>, v: seq<Entry>, p: seq<nat>)
    requires SameEntries(u, v, p) && GoodKeys(u) && ExpressibleEntries(f, Given, u)
    ensures GoodKeys(v) && ExpressibleEntries(f, Loose, v)
    decreases u
  {
    assert forall i :: 0 <= i < |v| ==> SameEntry(u[p[i]], v[i]) && v[i].key == u[p[i]].key;
    forall i | 0 <= i < |v| ensures Expressible(f, Loose, v[i].value) {
      ExpressibleLoosely(f, u[p[i]].value, v[i].value);
    }
  }

  lemma {:induction false} PairsLoosely(f: Rounding, u: seq<Pair>, v: seq<Pair>, p: seq<nat>)
    requires SamePairs(u, v, p) && ExpressiblePairs(f, Given, u)
    ensures ExpressiblePairs(f, Loose, v)
    decreases u
  {
    forall i | 0 <= i < |v| ensures ExpressiblePair(f, Loose, v[i]) {
      assert SamePair(u[p[i]], v[i]) && ExpressiblePair(f, Given, u[p[i]]);
      PairLoosely(f, u[p[i]], v[i]);
    }
  }

  lemma {:induction false} PairLoosely(f: Rounding, a: Pair, b: Pair)
    requires SamePair(a, b) && ExpressiblePair(f, Given, a)
    ensures ExpressiblePair(f, Loose, b)
    decreases a
  {
    SamePrintable(a.key, b.key);
    ExpressibleLoosely(f, a.key, b.key);
    ExpressibleLoosely(f, a.value, b.value);
  }

  ghost predicate ParsesBack(w: World, e: Elem, rest: seq<string>) {
    exists x :: ParseSingle(w, Words(e) + rest) == Done(Some(x), rest) && Same(e, x)
  }

  /**
   * In each world, the words of a value parse back to it, up to the order of its maps, exactly when it can be
   * spelled at all and no two keys of a map print alike in the orders that this world gives them.
   */
  lemma {:induction false} WordsParseBack(w: World, e: Elem, rest: seq<string>)
    ensures ParsesBack(w, e, rest) <==> Expressible(w.rounding, Loose, e) && KeysApart(w, e, |rest|)
  {
    if Expressible(w.rounding, Loose, e) && KeysApart(w, e, |rest|) {
      ComesBack(w, e, rest);
    }
    if ParsesBack(w, e, rest) {
      var x :| ParseSingle(w, Words(e) + rest) == Done(Some(x), rest) && Same(e, x);
      BackIsApart(w, e, rest, x);
    }
  }

  lemma {:induction false} ComesBack(w: World, e: Elem, rest: seq<string>)
    requires Expressible(w.rounding, Loose, e) && KeysApart(w, e, |rest|)
    ensures ParsesBack(w, e, rest)
  {
    var x := ParsesLoosely(w, Loose, e, rest);
    ArrangedComes(w, Loose, e, |rest|);
    assert Same(e, x);
  }

  /** If keys had merged, the result would hold fewer map entries. */
  lemma {:induction false} BackIsApart(w: World, e: Elem, rest: seq<string>, x: Elem)
    requires ParseSingle(w, Words(e) + rest) == Done(Some(x), rest) && Same(e, x)
    ensures Expressible(w.rounding, Loose, e) && KeysApart(w, e, |rest|)
  {
    OutputExpressible(w, Words(e) + rest);
    SameSymmetric(e, x);
    ExpressibleLoosely(w.rounding, x, e);
    var y := ParsesLoosely(w, Loose, e, rest);
    SameSize(e, x);
  }

  /** Where maps keep the order of insertion, words parse back to exactly the value if and only if it is expressible. */
  lemma {:induction false} WordsParseBackInOrder(f: Rounding, e: Elem, rest: seq<string>)
    ensures ParseSingle(InOrder(f), Words(e) + rest) == Done(Some(e), rest) <==> Expressible(f, Given, e)
  {
    OutputExpressible(InOrder(f), Words(e) + rest);
    if Expressible(f, Given, e) {
      var x := ParsesWords(InOrder(f), Given, e, rest);
    }
  }
}

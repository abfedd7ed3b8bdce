/** From the words on the command line to what the application on the device reads, in every world. */
module EndToEnd {
  import opened Prelude
  import opened Numbers
  import opened ParcelStrings
  import opened Worlds
  import opened ParcelWords
  import opened ParcelParser
  import opened ParcelGrammar
  import opened CommandLines
  import opened Builders
  import opened AppReader
  import opened AppReading
  import opened WireTheorems
  import opened FlatValues
  import opened IntentMaps

  // ---------------------------------------------------------------- the parser lets only hex digits through

  lemma {:induction false} ExpressibleIsHexSafe(f: Rounding, e: Elem)
    requires Expressible(f, Given, e)
    ensures HexSafe(e)
    decreases e
  {
    if e.HexByteArray? {
      LowerHexDigits(e.hex);
    } else if e.Bundle? {
      EntriesHexSafe(f, e.entries);
    } else if e.Map? {
      PairsHexSafe(f, e.pairs);
    } else if e.List? {
      ElemsHexSafe(f, e.elems);
    } else if e.Message? && e.data.Data? {
      EntriesHexSafe(f, e.data.entries);
    }
  }

  lemma LowerHexDigits(s: string)
    requires forall c :: c in s ==> IsLowerHex(c)
    ensures forall c :: c in s ==> DigitValue(c) < 16
  {
  }

  lemma {:induction false} ElemsHexSafe(f: Rounding, es: seq<Elem>)
    requires ExpressibleElems(f, Given, es)
    ensures AllElems(HexIsHex, es)
    decreases es
  {
    if es != [] {
      assert forall i :: 0 <= i < |es[1..]| ==> es[1..][i] == es[i + 1];
      ExpressibleIsHexSafe(f, es[0]);
      ElemsHexSafe(f, es[1..]);
    }
  }

  lemma {:induction false} EntriesHexSafe(f: Rounding, entries: seq<Entry>)
    requires ExpressibleEntries(f, Given, entries)
    ensures AllEntries(HexIsHex, entries)
    decreases entries
  {
    if entries != [] {
      assert forall i :: 0 <= i < |entries[1..]| ==> entries[1..][i] == entries[i + 1];
      ExpressibleIsHexSafe(f, entries[0].value);
      EntriesHexSafe(f, entries[1..]);
    }
  }

  lemma {:induction false} PairsHexSafe(f: Rounding, pairs: seq<Pair>)
    requires ExpressiblePairs(f, Given, pairs)
    ensures AllPairs(HexIsHex, pairs)
    decreases pairs
  {
    if pairs != [] {
      assert forall i :: 0 <= i < |pairs[1..]| ==> pairs[1..][i] == pairs[i + 1];
      PairHexSafe(f, pairs[0]);
      PairsHexSafe(f, pairs[1..]);
    }
  }

  lemma {:induction false} PairHexSafe(f: Rounding, pair: Pair)
    requires ExpressiblePair(f, Given, pair)
    ensures AllPair(HexIsHex, pair)
    decreases pair
  {
    ExpressibleIsHexSafe(f, pair.key);
    ExpressibleIsHexSafe(f, pair.value);
  }

  // ---------------------------------------------------------------- parcel strings

  /**
   * The words parse to these values, with every bundle and map in the order in which this world iterates it,
   * and `build` prints them so without a panic.
   */
  ghost predicate Sends(w: World, args: seq<string>, values: seq<Elem>) {
    && values != [] && AllElems(HasData, values)
    && exists rest: seq<string> :: ParseElems(w, args, []) == Done(values, rest)
  }

  lemma SentIsHexSafe(w: World, args: seq<string>, values: seq<Elem>)
    requires Sends(w, args, values)
    ensures AllElems(HexIsHex, values)
  {
    ElemsOutputExpressible(w, args, []);
    ElemsHexSafe(w.rounding, values);
  }

  /** Whatever words and world: the parcel string splits at its bare commas into one text for each value. */
  lemma SentTextSplits(w: World, args: seq<string>, values: seq<Elem>)
    requires Sends(w, args, values)
    ensures Pieces(',', Join(",", ShowElems(values))) == ShowElems(values)
  {
    SentIsHexSafe(w, args, values);
    BuildSplits(values);
  }

  /** And a reader gets back exactly the values of the command line if and only if each of them is readable. */
  lemma SentValuesArrive(w: World, args: seq<string>, values: seq<Elem>, r: Reader)
    requires Sends(w, args, values)
    ensures ParseParcel(r, Join(",", ShowElems(values))) == Some(Vals(values))
            <==> forall i :: 0 <= i < |values| ==> Readable(r, values[i], {','})
  {
    SentIsHexSafe(w, args, values);
    ParcelReadsBack(r, values);
  }

  /**
   * From values to values: spelled on the command line, printed in the orders of the world, and read. What arrives
   * is the values in those orders, if and only if each of them is readable.
   */
  lemma SpelledValuesArrive(w: World, values: seq<Elem>, r: Reader)
    requires values != [] && AllElems(HasData, values)
    requires ExpressibleElems(w.rounding, Loose, values) && KeysApartElems(w, values, 0)
    ensures var sent := ArrangedElems(w, values, 0);
            && Sends(w, ElemsWords(values), sent) && SameElems(values, sent)
            && (ParseParcel(r, Join(",", ShowElems(sent))) == Some(Vals(sent))
                <==> forall i :: 0 <= i < |sent| ==> Readable(r, sent[i], {','}))
  {
    var sent := LineParses(w, values);
    ArrangedElemsAreSame(w, values, 0);
    SentValuesArrive(w, ElemsWords(values), sent, r);
  }

  /** The same values sent in another order of their bundles and maps: splitting and reading are as exact. */
  lemma ReorderedValuesArrive(w: World, args: seq<string>, values: seq<Elem>, sent: seq<Elem>, r: Reader)
    requires Sends(w, args, values) && SameElems(values, sent)
    ensures AllElems(HasData, sent)
    ensures Pieces(',', Join(",", ShowElems(sent))) == ShowElems(sent)
    ensures ParseParcel(r, Join(",", ShowElems(sent))) == Some(Vals(sent))
            <==> forall i :: 0 <= i < |sent| ==> Readable(r, sent[i], {','})
  {
    SentIsHexSafe(w, args, values);
    PrintingIsOrderBlind();
    SameAllElems(HasData, values, sent);
    SameAllElems(HexIsHex, values, sent);
    BuildSplits(sent);
    ParcelReadsBack(r, sent);
  }

  // ---------------------------------------------------------------- what never arrives

  /** Neither a list, nor a byte, nor an infinity. */
  const Known: Elem -> bool := (e: Elem) =>
    !e.List? && !e.Byte? && !(e.Double? && IsInfinity(e.f64)) && !(e.Float? && IsInfinity(e.f32))

  lemma {:induction false} ReadableIsKnown(e: Elem, stripped: set<char>)
    requires Readable(DeviceApp, e, stripped)
    ensures All(Known, e)
    decreases e
  {
    assert Known(e);
    if e.Bundle? {
      EntriesAreKnown(':', '=', false, e.entries, stripped);
    } else if e.Map? {
      PairsAreKnown(e.pairs, stripped);
    } else if e.Complex? {
      ElemsAreKnown('|', e.parts, stripped);
    } else if e.Message? && e.data.Data? {
      EntriesAreKnown(':', '=', false, e.data.entries, stripped + {'%'});
    }
  }

  lemma {:induction false} ElemsAreKnown(sep: char, es: seq<Elem>, stripped: set<char>)
    requires ElemsReadable(DeviceApp, sep, es, stripped)
    ensures AllElems(Known, es)
    decreases es
  {
    if es != [] {
      ReadableIsKnown(es[0], stripped + {sep});
      ElemsAreKnown(sep, es[1..], stripped);
    }
  }

  lemma {:induction false} EntriesAreKnown(sep: char, kv: char, any: bool, entries: seq<Entry>, stripped: set<char>)
    requires EntriesReadable(DeviceApp, sep, kv, any, entries, stripped)
    ensures AllEntries(Known, entries)
    decreases entries
  {
    if entries != [] {
      ReadableIsKnown(entries[0].value, stripped + {sep} + {kv});
      EntriesAreKnown(sep, kv, any, entries[1..], stripped);
    }
  }

  lemma {:induction false} PairsAreKnown(pairs: seq<Pair>, stripped: set<char>)
    requires PairsReadable(DeviceApp, pairs, stripped)
    ensures AllPairs(Known, pairs)
    decreases pairs
  {
    if pairs != [] {
      PairIsKnown(pairs[0], stripped + {':'});
      PairsAreKnown(pairs[1..], stripped);
    }
  }

  lemma {:induction false} PairIsKnown(pair: Pair, stripped: set<char>)
    requires PairReadable(DeviceApp, pair, stripped)
    ensures AllPair(Known, pair)
    decreases pair
  {
    ReadableIsKnown(pair.key, stripped + {'='});
    ReadableIsKnown(pair.value, stripped + {'='});
  }

  /** No command line arrives as it was that holds a list, a byte or an infinity, at any depth. */
  lemma UnknownDoesNotArrive(w: World, args: seq<string>, values: seq<Elem>, i: nat)
    requires Sends(w, args, values) && i < |values| && !All(Known, values[i])
    ensures ParseParcel(DeviceApp, Join(",", ShowElems(values))) != Some(Vals(values))
  {
    SentValuesArrive(w, args, values, DeviceApp);
    if Readable(DeviceApp, values[i], {','}) {
      ReadableIsKnown(values[i], {','});
    }
  }

  /** For one, `f64 inf` or `f64 -inf`, in a world whose parser takes the word as Rust does. */
  lemma InfinityDoesNotArrive(w: World, s: FloatText)
    requires (s == "inf" || s == "-inf") && w.rounding.f64(s) == Some(s)
    ensures Sends(w, ["f64", s], [Double(s)])
    ensures ParseParcel(DeviceApp, Join(",", ShowElems([Double(s)]))) != Some(Vals([Double(s)]))
  {
    var e := Double(s);
    ParsesScalar(w, e, []);
    assert ScalarWords(e) + [] == ["f64", s] && [] + [e] == [e];
    assert ParseElems(w, ["f64", s], []) == ParseElems(w, [], [e]);
    assert ParseElems(w, [], [e]) == Done([e], []);
    assert HasData(e) && Printable(e);
    ElemsIndexed(HasData, [e]);
    assert !Known(e);
    UnknownDoesNotArrive(w, ["f64", s], [e], 0);
  }

  // ---------------------------------------------------------------- intent strings

  ghost predicate SendsIntent(w: World, args: seq<string>, values: seq<Entry>) {
    && values != [] && AllEntries(HasData, values)
    && exists rest: seq<string> :: ParseIntentWords(w, args, []) == Done(values, rest)
  }

  lemma SentIntentIsHexSafe(w: World, args: seq<string>, values: seq<Entry>)
    requires SendsIntent(w, args, values)
    ensures AllEntries(HexIsHex, values)
  {
    IntentOutputExpressible(w, args, []);
    EntriesHexSafe(w.rounding, values);
  }

  /** Every key and value text of the command line can be split out of the intent string, in order. */
  lemma SentIntentSplits(w: World, args: seq<string>, values: seq<Entry>)
    requires SendsIntent(w, args, values)
    ensures ReadIntent(Join(",", ShowEntries('>', values))) == Shown(values)
  {
    SentIntentIsHexSafe(w, args, values);
    IntentReadsBack(values);
  }

  /**
   * The application holds the last value given for each key if and only if that value is readable, every key is, and
   * every overwritten value reads as something. When no key is given twice: if and only if every entry is readable.
   */
  lemma SentIntentArrives(w: World, args: seq<string>, values: seq<Entry>, r: Reader)
    requires SendsIntent(w, args, values)
    ensures var got := ParseIntentMap(r, Join(",", ShowEntries('>', values)));
            var readable := forall i :: 0 <= i < |values| ==> IntentEntryReadable(r, values[i]);
            && (got == Some(ToMap(PutsOf(values))) <==> LastReadable(r, values))
            && (DistinctEntryKeys(values) ==> (got == Some(PutsOf(values)) <==> readable))
  {
    SentIntentIsHexSafe(w, args, values);
    IntentArrives(r, values);
  }

  // ---------------------------------------------------------------- keys whose text depends on an order

  const ONE_WAY := [Entry("a", Null), Entry("b", Null)]
  const OTHER_WAY := [Entry("b", Null), Entry("a", Null)]

  lemma NullsPrint(v: seq<Entry>)
    requires forall i :: 0 <= i < |v| ==> v[i].value == Null
    ensures Printable(Bundle(v)) && HexSafe(Bundle(v)) && Layered(Reference, Bundle(v), {})
  {
    EntriesIndexed(HasData, v);
    EntriesIndexed(HexIsHex, v);
    FlatIsLayered(Reference, Bundle(v), {});
  }

  lemma TwoWaysPrintDiffer()
    ensures Printable(Bundle(ONE_WAY)) && Printable(Bundle(OTHER_WAY))
    ensures Show(Bundle(ONE_WAY)) != Show(Bundle(OTHER_WAY))
  {
    NullsPrint(ONE_WAY);
    NullsPrint(OTHER_WAY);
    LayeredPrintsDiffer(Bundle(ONE_WAY), Bundle(OTHER_WAY));
    NullsInBytes(ONE_WAY);
    NullsInBytes(OTHER_WAY);
    WaysDiffer();
  }

  lemma {:induction false} NullsInBytes(v: seq<Entry>)
    requires forall i :: 0 <= i < |v| ==> v[i].value == Null
    ensures EntriesInBytes(v) == v && InBytes(Bundle(v)) == Bundle(v)
  {
    if v != [] {
      NullsInBytes(v[1..]);
      assert EntryInBytes(v[0]) == v[0];
    }
  }

  /** The bundle with its i-th entry first. */
  function Way(i: nat): seq<Entry> {
    if i == 0 then ONE_WAY else OTHER_WAY
  }

  lemma WaysAgree(i: nat, j: nat)
    requires i < 2 && j < 2
    ensures Way(i) == Way(j) <==> i == j
  {
    WaysDiffer();
  }

  /** The two iteration orders of that bundle. */
  lemma TwoOrders(w: World, start: nat)
    ensures w.order(start, 2)[0] < 2 && Ordered(w, start, ONE_WAY) == Way(w.order(start, 2)[0])
  {
    var p := w.order(start, 2);
    assert IsPermutation(p, 2) && p[0] != p[1] && p[0] < 2 && p[1] < 2;
    var r := Ordered(w, start, ONE_WAY);
    assert r[0] == ONE_WAY[p[0]] && r[1] == ONE_WAY[p[1]];
  }

  lemma OneWayIsExpressible(f: Rounding)
    ensures GoodKeys(ONE_WAY) && ExpressibleEntries(f, Loose, ONE_WAY)
  {
    assert |"end"| == 3 && |"a"| == 1 && |"b"| == 1 && "a"[0] != "b"[0];
  }

  lemma ParsesOneWay(w: World, rest: seq<string>)
    ensures ParseEntries(w, EntriesWords(ONE_WAY) + (["end"] + rest), []) == Done(ONE_WAY, rest)
  {
    PrependNothing(ONE_WAY);
    OneWayIsExpressible(w.rounding);
    var entries := ParsesEntries(w, Loose, ONE_WAY, [], rest);
    PrependNothing(entries);
    NullsStay(w, ONE_WAY, 1 + |rest|);
  }

  lemma {:induction false} NullsStay(w: World, v: seq<Entry>, n: nat)
    requires forall i :: 0 <= i < |v| ==> v[i].value == Null
    ensures KeysApartEntries(w, v, n) && ArrangedEntries(w, v, n) == v
  {
    if v != [] {
      assert ArrangedEntry(w, v[0], |EntriesWords(v[1..])| + n) == v[0];
      NullsStay(w, v[1..], n);
    }
  }

  lemma ParsesBundleOf(w: World, v: seq<Entry>, rest: seq<string>)
    requires ParseEntries(w, EntriesWords(v) + (["end"] + rest), []) == Done(v, rest)
    ensures ParseSingle(w, Words(Bundle(v)) + rest)
            == Done(Some(Bundle(Ordered(w, |EntriesWords(v)| + 1 + |rest|, v))), rest)
  {
    var tail := EntriesWords(v) + (["end"] + rest);
    assert Words(Bundle(v)) + rest == ["bund"] + tail;
    BundleStep(w, tail, v, rest);
  }

  lemma WordCounts()
    ensures |EntriesWords(ONE_WAY)| == 4 && |Words(Bundle(ONE_WAY))| == 6
  {
    assert ONE_WAY[1..] == [Entry("b", Null)] && ONE_WAY[1..][1..] == [];
    assert |EntriesWords(ONE_WAY[1..])| == 2;
  }

  lemma SameTextSameOrder(w: World, s: nat, t: nat)
    ensures Printable(Bundle(Ordered(w, s, ONE_WAY))) && Printable(Bundle(Ordered(w, t, ONE_WAY)))
    ensures WireEqual(Bundle(Ordered(w, s, ONE_WAY)), Bundle(Ordered(w, t, ONE_WAY)))
            <==> w.order(s, 2)[0] == w.order(t, 2)[0]
  {
    var x, y := Ordered(w, s, ONE_WAY), Ordered(w, t, ONE_WAY);
    TwoOrders(w, s);
    TwoOrders(w, t);
    WaysAgree(w.order(s, 2)[0], w.order(t, 2)[0]);
    SameTextSameWay(x, y);
  }

  lemma WaysDiffer()
    ensures ONE_WAY != OTHER_WAY
  {
    assert "a"[0] != "b"[0] && ONE_WAY[0].key == "a" && OTHER_WAY[0].key == "b";
  }

  lemma SameTextSameWay(x: seq<Entry>, y: seq<Entry>)
    requires (x == ONE_WAY || x == OTHER_WAY) && (y == ONE_WAY || y == OTHER_WAY)
    ensures Printable(Bundle(x)) && Printable(Bundle(y)) && (WireEqual(Bundle(x), Bundle(y)) <==> x == y)
  {
    TwoWaysPrintDiffer();
  }

  /** These words parse to the bundle in the order it has where they stand. */
  ghost predicate SpellsKey(w: World, words: seq<string>) {
    forall rest: seq<string> {:trigger words + rest} ::
      ParseSingle(w, words + rest) == Done(Some(Bundle(Ordered(w, 5 + |rest|, ONE_WAY))), rest)
  }

  lemma InsertsKey(w: World, words: seq<string>, acc: seq<Pair>, rest: seq<string>) returns (key: Elem)
    requires PrintableKeys(acc) && SpellsKey(w, words)
    ensures key == Bundle(Ordered(w, 6 + |rest|, ONE_WAY)) && Printable(key)
    ensures PrintableKeys(InsertPair(acc, key, Null))
    ensures ParsePairs(w, words + (["null"] + rest), acc) == ParsePairs(w, rest, InsertPair(acc, key, Null))
  {
    key := Bundle(Ordered(w, 6 + |rest|, ONE_WAY));
    SameTextSameOrder(w, 6 + |rest|, 6 + |rest|);
    ParsesScalar(w, Null, rest);
    assert ScalarWords(Null) == ["null"];
    assert |["null"] + rest| == 1 + |rest|;
    PairStep(w, words + (["null"] + rest), acc, key, ["null"] + rest, Null, rest);
  }

  lemma InsertsTwoKeys(w: World, words: seq<string>)
    requires SpellsKey(w, words) && |words| == 6
    ensures var r := ParsePairs(w, words + ["null"] + (words + ["null"]) + ["end"], []);
            r.Done? && |r.value| == if w.order(14, 2)[0] == w.order(7, 2)[0] then 1 else 2
  {
    var rest := words + (["null"] + ["end"]);
    assert words + ["null"] + (words + ["null"]) + ["end"] == words + (["null"] + rest);
    var first := InsertsKey(w, words, [], rest);
    var acc := [Pair(first, Null)];
    var second := InsertsKey(w, words, acc, ["end"]);
    SameTextSameOrder(w, 14, 7);
    InsertsSecond(first, second);
    EndsMap(w, InsertPair(acc, second, Null));
  }

  lemma InsertsSecond(first: Elem, second: Elem)
    requires Printable(first) && Printable(second)
    ensures InsertPair([], first, Null) == [Pair(first, Null)]
    ensures |InsertPair([Pair(first, Null)], second, Null)| == if WireEqual(first, second) then 1 else 2
  {
    assert [Pair(first, Null)][1..] == [];
  }

  lemma EndsMap(w: World, all: seq<Pair>)
    requires PrintableKeys(all)
    ensures ParsePairs(w, ["end"], all) == Done(all, [])
  {
    assert ParseSingle(w, ["end"]) == Done(None, []);
  }

  /**
   * `map bund a null b null end null bund a null b null end null end`: the two keys are one if and only if their
   * two hash maps happen to be iterated in the same order.
   */
  lemma MergingDependsOnOrder(w: World)
    ensures var key := Words(Bundle(ONE_WAY)) + ["null"];
            var r := ParsePairs(w, key + key + ["end"], []);
            r.Done? && |r.value| == if w.order(14, 2)[0] == w.order(7, 2)[0] then 1 else 2
  {
    WordCounts();
    var words := Words(Bundle(ONE_WAY));
    forall rest: seq<string> ensures
      ParseSingle(w, words + rest) == Done(Some(Bundle(Ordered(w, 5 + |rest|, ONE_WAY))), rest)
    {
      ParsesOneWay(w, rest);
      ParsesBundleOf(w, ONE_WAY, rest);
    }
    InsertsTwoKeys(w, words);
  }
}

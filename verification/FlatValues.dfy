/** Values of one level, which most command lines consist of: what exactly arrives of them. */
module FlatValues {
  import opened Prelude
  import opened ParcelStrings
  import opened AppReader
  import opened AppReading
  import opened WireTheorems

  /** A scalar, or a container that holds only scalars. */
  predicate Shallow(e: Elem) {
    match e
    case Bundle(v) => forall i :: 0 <= i < |v| ==> !IsContainer(v[i].value)
    case Map(v) => forall i :: 0 <= i < |v| ==> !IsContainer(v[i].key) && !IsContainer(v[i].value)
    case List(v) => forall i :: 0 <= i < |v| ==> !IsContainer(v[i])
    case Complex(v) => forall i :: 0 <= i < |v| ==> !IsContainer(v[i])
    case Message(_, _, _, Data(v)) => forall i :: 0 <= i < |v| ==> !IsContainer(v[i].value)
    case _ => true
  }

  predicate FlatElem(r: Reader, e: Elem) {
    !IsContainer(e) && ScalarReadable(r, e)
  }

  predicate FlatEntry(r: Reader, entry: Entry) {
    && TextReadable(r, entry.key) && FlatElem(r, entry.value)
    && (r.Reference? || CanPut(ScalarVal(entry.value)))
  }

  /** Such a value of parts that the reader knows: for the application no list, and in bundles only what it can put. */
  predicate Flat(r: Reader, e: Elem) {
    match e
    case Bundle(v) => forall i :: 0 <= i < |v| ==> FlatEntry(r, v[i])
    case Map(v) => forall i :: 0 <= i < |v| ==> FlatElem(r, v[i].key) && FlatElem(r, v[i].value)
    case List(v) => r.Reference? && forall i :: 0 <= i < |v| ==> FlatElem(r, v[i])
    case Complex(v) => forall i :: 0 <= i < |v| ==> FlatElem(r, v[i])
    case Message(_, _, _, Data(v)) => forall i :: 0 <= i < |v| ==> FlatEntry(r, v[i])
    case _ => e.Message? || FlatElem(r, e)
  }

  // ---------------------------------------------------------------- flat values are layered

  lemma ScalarIsFlat(r: Reader, e: Elem, used: set<char>)
    requires !IsContainer(e)
    ensures Layered(r, e, used) <==> FlatElem(r, e)
    ensures Readable(r, e, used) <==> FlatElem(r, e)
    ensures Val(e) == ScalarVal(e)
  {
  }

  lemma EntryIsFlat(r: Reader, entry: Entry, used: set<char>)
    requires !IsContainer(entry.value)
    ensures LayeredEntry(r, entry, used) <==> FlatEntry(r, entry)
    ensures EntryReadable(r, '=', r.Reference?, entry, used) ==> FlatEntry(r, entry)
  {
    ScalarIsFlat(r, entry.value, used);
    ScalarIsFlat(r, entry.value, used + {'='});
  }

  lemma PairIsFlat(r: Reader, pair: Pair, used: set<char>)
    requires !IsContainer(pair.key) && !IsContainer(pair.value)
    ensures LayeredPair(r, pair, used) <==> FlatElem(r, pair.key) && FlatElem(r, pair.value)
    ensures PairReadable(r, pair, used) ==> FlatElem(r, pair.key) && FlatElem(r, pair.value)
  {
    ScalarIsFlat(r, pair.key, used);
    ScalarIsFlat(r, pair.value, used);
    ScalarIsFlat(r, pair.key, used + {'='});
    ScalarIsFlat(r, pair.value, used + {'='});
  }

  lemma {:induction false} FlatElemsAreLayered(r: Reader, es: seq<Elem>, used: set<char>)
    requires forall i :: 0 <= i < |es| ==> FlatElem(r, es[i])
    ensures LayeredElems(r, es, used)
  {
    if es != [] {
      assert forall i :: 0 <= i < |es[1..]| ==> es[1..][i] == es[i + 1];
      FlatElemsAreLayered(r, es[1..], used);
    }
  }

  lemma {:induction false} FlatEntriesAreLayered(r: Reader, entries: seq<Entry>, used: set<char>)
    requires forall i :: 0 <= i < |entries| ==> FlatEntry(r, entries[i])
    ensures LayeredEntries(r, entries, used)
  {
    if entries != [] {
      assert forall i :: 0 <= i < |entries[1..]| ==> entries[1..][i] == entries[i + 1];
      EntryIsFlat(r, entries[0], used);
      FlatEntriesAreLayered(r, entries[1..], used);
    }
  }

  lemma {:induction false} FlatPairsAreLayered(r: Reader, pairs: seq<Pair>, used: set<char>)
    requires forall i :: 0 <= i < |pairs| ==> FlatElem(r, pairs[i].key) && FlatElem(r, pairs[i].value)
    ensures LayeredPairs(r, pairs, used)
  {
    if pairs != [] {
      assert forall i :: 0 <= i < |pairs[1..]| ==> pairs[1..][i] == pairs[i + 1];
      PairIsFlat(r, pairs[0], used);
      FlatPairsAreLayered(r, pairs[1..], used);
    }
  }

  /** Whatever separators are used around it, as long as containers do not use them. */
  lemma FlatIsLayered(r: Reader, e: Elem, used: set<char>)
    requires Flat(r, e) && used !! {':', '=', '|', '%'}
    ensures Layered(r, e, used)
  {
    if e.Bundle? {
      FlatEntriesAreLayered(r, e.entries, used + {':', '='});
    } else if e.Map? {
      FlatPairsAreLayered(r, e.pairs, used + {':', '='});
    } else if e.List? {
      FlatElemsAreLayered(r, e.elems, used + {':'});
    } else if e.Complex? {
      FlatElemsAreLayered(r, e.parts, used + {'|'});
    } else if e.Message? && e.data.Data? {
      FlatEntriesAreLayered(r, e.data.entries, used + {'%', ':', '='});
    }
  }

  // ---------------------------------------------------------------- and nothing else of one level is readable

  lemma {:induction false} ReadableElemsAreFlat(r: Reader, sep: char, es: seq<Elem>, stripped: set<char>)
    requires ElemsReadable(r, sep, es, stripped) && forall i :: 0 <= i < |es| ==> !IsContainer(es[i])
    ensures forall i :: 0 <= i < |es| ==> FlatElem(r, es[i])
  {
    if es != [] {
      assert forall i :: 0 <= i < |es[1..]| ==> es[1..][i] == es[i + 1];
      ReadableElemsAreFlat(r, sep, es[1..], stripped);
      assert forall i :: 0 < i < |es| ==> es[i] == es[1..][i - 1];
    }
  }

  lemma {:induction false} ReadableEntriesAreFlat(r: Reader, entries: seq<Entry>, stripped: set<char>)
    requires EntriesReadable(r, ':', '=', r.Reference?, entries, stripped)
    requires forall i :: 0 <= i < |entries| ==> !IsContainer(entries[i].value)
    ensures forall i :: 0 <= i < |entries| ==> FlatEntry(r, entries[i])
  {
    if entries != [] {
      assert forall i :: 0 <= i < |entries[1..]| ==> entries[1..][i] == entries[i + 1];
      EntryIsFlat(r, entries[0], stripped + {':'});
      ReadableEntriesAreFlat(r, entries[1..], stripped);
      assert forall i :: 0 < i < |entries| ==> entries[i] == entries[1..][i - 1];
    }
  }

  lemma {:induction false} ReadablePairsAreFlat(r: Reader, pairs: seq<Pair>, stripped: set<char>)
    requires PairsReadable(r, pairs, stripped)
    requires forall i :: 0 <= i < |pairs| ==> !IsContainer(pairs[i].key) && !IsContainer(pairs[i].value)
    ensures forall i :: 0 <= i < |pairs| ==> FlatElem(r, pairs[i].key) && FlatElem(r, pairs[i].value)
  {
    if pairs != [] {
      assert forall i :: 0 <= i < |pairs[1..]| ==> pairs[1..][i] == pairs[i + 1];
      PairIsFlat(r, pairs[0], stripped + {':'});
      ReadablePairsAreFlat(r, pairs[1..], stripped);
      assert forall i :: 0 < i < |pairs| ==> pairs[i] == pairs[1..][i - 1];
    }
  }

  lemma ReadableIsFlat(r: Reader, e: Elem, stripped: set<char>)
    requires Shallow(e) && Readable(r, e, stripped)
    ensures Flat(r, e)
  {
    if e.Bundle? {
      ReadableEntriesAreFlat(r, e.entries, stripped);
    } else if e.Map? {
      ReadablePairsAreFlat(r, e.pairs, stripped);
    } else if e.List? {
      ReadableElemsAreFlat(r, ':', e.elems, stripped);
    } else if e.Complex? {
      ReadableElemsAreFlat(r, '|', e.parts, stripped);
    } else if e.Message? && e.data.Data? {
      assert DataReadable(r, e.data, stripped);
      ReadableEntriesAreFlat(r, e.data.entries, stripped + {'%'});
    }
  }

  lemma FlatIffReadable(r: Reader, e: Elem, stripped: set<char>)
    requires Shallow(e) && HexSafe(e) && stripped <= {',', '>'}
    ensures Readable(r, e, stripped) <==> Flat(r, e)
  {
    if Flat(r, e) {
      FlatIsLayered(r, e, stripped);
      LayeredIsReadable(r, e, stripped, stripped);
    } else if Readable(r, e, stripped) {
      ReadableIsFlat(r, e, stripped);
    }
  }

  // ---------------------------------------------------------------- whole strings

  lemma {:induction false} EachHexSafe(es: seq<Elem>)
    requires AllElems(HexIsHex, es)
    ensures forall i :: 0 <= i < |es| ==> HexSafe(es[i])
  {
    if es != [] {
      EachHexSafe(es[1..]);
      assert forall i :: 0 < i < |es| ==> es[i] == es[1..][i - 1];
    }
  }

  /** A parcel string of values of one level is read back if and only if each of them is flat to the reader. */
  lemma FlatParcelReadsBack(r: Reader, es: seq<Elem>)
    requires es != [] && AllElems(HasData, es) && AllElems(HexIsHex, es)
    requires forall i :: 0 <= i < |es| ==> Shallow(es[i])
    ensures ParseParcel(r, Join(",", ShowElems(es))) == Some(Vals(es)) <==> forall i :: 0 <= i < |es| ==> Flat(r, es[i])
  {
    ParcelReadsBack(r, es);
    EachHexSafe(es);
    forall i | 0 <= i < |es| ensures Readable(r, es[i], {','}) <==> Flat(r, es[i]) {
      FlatIffReadable(r, es[i], {','});
    }
  }

  lemma {:induction false} EachValueHexSafe(values: seq<Entry>)
    requires AllEntries(HexIsHex, values)
    ensures forall i :: 0 <= i < |values| ==> HexSafe(values[i].value)
  {
    if values != [] {
      EachValueHexSafe(values[1..]);
      assert forall i :: 0 < i < |values| ==> values[i] == values[1..][i - 1];
    }
  }

  /** And so is an intent string, whose keys have to be readable too. */
  lemma FlatIntentReadsBack(r: Reader, values: seq<Entry>)
    requires values != [] && AllEntries(HasData, values) && AllEntries(HexIsHex, values)
    requires forall i :: 0 <= i < |values| ==> Shallow(values[i].value)
    ensures ParseIntent(r, Join(",", ShowEntries('>', values))) == Some(PutsOf(values))
            <==> forall i :: 0 <= i < |values| ==> TextReadable(r, values[i].key) && Flat(r, values[i].value)
  {
    IntentReadsBackInApp(r, values);
    EachValueHexSafe(values);
    forall i | 0 <= i < |values|
      ensures IntentEntryReadable(r, values[i]) <==> TextReadable(r, values[i].key) && Flat(r, values[i].value)
    {
      FlatIffReadable(r, values[i].value, {',', '>'});
    }
  }
}

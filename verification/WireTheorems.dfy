/** What printing and reading promise to their callers. */
module WireTheorems {
  import opened Prelude
  import opened Wire
  import opened Escape
  import opened ParcelStrings
  import opened AppReader
  import opened AppReading

  // ---------------------------------------------------------------- whole strings

  lemma {:induction false} TopElemsReadable(r: Reader, es: seq<Elem>)
    requires AllElems(HexIsHex, es)
    ensures ElemsReadable(r, ',', es, {}) <==> forall i :: 0 <= i < |es| ==> Readable(r, es[i], {','})
  {
    if es != [] {
      UnitsQuiet(es[0]);
      StripNothing(Units(es[0]));
      assert ',' in OUTER && {} + {','} == {','};
      TopElemsReadable(r, es[1..]);
      assert forall i :: 0 < i < |es| ==> es[i] == es[1..][i - 1];
      if ElemsReadable(r, ',', es, {}) {
        forall i | 0 <= i < |es| ensures Readable(r, es[i], {','}) {
          if i > 0 {
            assert es[i] == es[1..][i - 1];
          }
        }
      }
    }
  }

  /** A reader gets back exactly the values of a parcel string if and only if each of them is readable. */
  lemma {:induction false} ParcelReadsBack(r: Reader, es: seq<Elem>)
    requires es != [] && AllElems(HasData, es) && AllElems(HexIsHex, es)
    ensures ParseParcel(r, Join(",", ShowElems(es))) == Some(Vals(es))
            <==> forall i :: 0 <= i < |es| ==> Readable(r, es[i], {','})
  {
    var joined := Join([Bare(',')], ElemsUnits(es));
    ShowElemsIsUnits(es);
    RenderJoin(',', ElemsUnits(es));
    assert [','] == ",";
    StripNothing(joined);
    ExactElems(r, ',', es, {}, joined);
    TopElemsReadable(r, es);
  }

  predicate IntentEntryReadable(r: Reader, entry: Entry) {
    TextReadable(r, entry.key) && Readable(r, entry.value, {',', '>'})
  }

  lemma {:induction false} TopEntriesReadable(r: Reader, values: seq<Entry>)
    requires AllEntries(HexIsHex, values)
    ensures EntriesReadable(r, ',', '>', true, values, {})
            <==> forall i :: 0 <= i < |values| ==> IntentEntryReadable(r, values[i])
  {
    if values != [] {
      TopEntryReadable(r, values[0]);
      TopEntriesReadable(r, values[1..]);
      assert forall i :: 0 < i < |values| ==> values[i] == values[1..][i - 1];
      if EntriesReadable(r, ',', '>', true, values, {}) {
        forall i | 0 <= i < |values| ensures IntentEntryReadable(r, values[i]) {
          if i > 0 {
            assert values[i] == values[1..][i - 1];
          }
        }
      }
    }
  }

  lemma TopEntryReadable(r: Reader, entry: Entry)
    requires All(HexIsHex, entry.value)
    ensures !Exposes(',', {}, EntryUnits('>', entry))
    ensures EntryReadable(r, '>', true, entry, {} + {','}) <==> IntentEntryReadable(r, entry)
  {
    var key, value := TextUnits(entry.key), Units(entry.value);
    TextAvoids(entry.key);
    UnitsQuiet(entry.value);
    assert ',' in OUTER && '>' in OUTER && ',' in SPECIAL && '>' in SPECIAL;
    StripNothing(EntryUnits('>', entry));
    assert {} + {','} == {','} && {','} + {'>'} == {',', '>'};
    StripKeepsHidden('>', {','}, key);
    StripKeepsHidden('>', {','}, value);
  }

  /** The same for intent strings: keys and values come back in order exactly when all are readable. */
  lemma {:induction false} IntentReadsBackInApp(r: Reader, values: seq<Entry>)
    requires values != [] && AllEntries(HasData, values) && AllEntries(HexIsHex, values)
    ensures ParseIntent(r, Join(",", ShowEntries('>', values))) == Some(PutsOf(values))
            <==> forall i :: 0 <= i < |values| ==> IntentEntryReadable(r, values[i])
  {
    var joined := Join([Bare(',')], EntriesUnits('>', values));
    ShowEntriesIsUnits('>', values);
    RenderJoin(',', EntriesUnits('>', values));
    assert [','] == ",";
    StripNothing(joined);
    ExactPuts(r, ',', '>', true, values, {}, joined);
    TopEntriesReadable(r, values);
  }

  // ---------------------------------------------------------------- a simple condition

  /** Along every path from the root each separator is used by one container only. */
  predicate Layered(r: Reader, e: Elem, used: set<char>)
    decreases e
  {
    if !IsContainer(e) then ScalarReadable(r, e)
    else
      match e
      case Bundle(v) => {':', '='} !! used && LayeredEntries(r, v, used + {':', '='})
      case Map(v) => {':', '='} !! used && LayeredPairs(r, v, used + {':', '='})
      case List(v) => r.Reference? && ':' !in used && LayeredElems(r, v, used + {':'})
      case Complex(v) => '|' !in used && LayeredElems(r, v, used + {'|'})
      case Message(_, _, _, data) =>
        '%' !in used
        && (data.Data? ==> {':', '='} !! used && LayeredEntries(r, data.entries, used + {'%', ':', '='}))
  }

  predicate LayeredElems(r: Reader, es: seq<Elem>, used: set<char>)
    decreases es
  {
    es != [] ==> Layered(r, es[0], used) && LayeredElems(r, es[1..], used)
  }

  predicate LayeredEntry(r: Reader, entry: Entry, used: set<char>)
    decreases entry
  {
    TextReadable(r, entry.key) && Layered(r, entry.value, used) && (r.Reference? || CanPut(Val(entry.value)))
  }

  predicate LayeredEntries(r: Reader, entries: seq<Entry>, used: set<char>)
    decreases entries
  {
    entries != [] ==> LayeredEntry(r, entries[0], used) && LayeredEntries(r, entries[1..], used)
  }

  predicate LayeredPair(r: Reader, pair: Pair, used: set<char>)
    decreases pair
  {
    Layered(r, pair.key, used) && Layered(r, pair.value, used)
  }

  predicate LayeredPairs(r: Reader, pairs: seq<Pair>, used: set<char>)
    decreases pairs
  {
    pairs != [] ==> LayeredPair(r, pairs[0], used) && LayeredPairs(r, pairs[1..], used)
  }

  lemma StripKeepsHidden(c: char, stripped: set<char>, us: seq<Unit>)
    requires c !in stripped && Bare(c) !in us
    ensures !Exposes(c, stripped, us)
  {
    var r := Strip(stripped, us);
    forall i | 0 <= i < |r| ensures r[i] != Bare(c) {
      assert us[i] in us;
    }
  }

  /** A layered value shows none of the separators used around it. */
  lemma {:induction false} LayeredAvoids(r: Reader, e: Elem, used: set<char>)
    requires used <= DELIMITERS && HexSafe(e) && Layered(r, e, used)
    ensures Avoids(used, Units(e))
    decreases e, 1
  {
    TagAvoids(e);
    assert Avoids(used, Bares(Tag(e)));
    LayeredBodyAvoids(r, e, used);
    AvoidsAppend(used, Bares(Tag(e)), Body(e));
  }

  lemma {:induction false} LayeredBodyAvoids(r: Reader, e: Elem, used: set<char>)
    requires used <= DELIMITERS && HexSafe(e) && Layered(r, e, used)
    ensures Avoids(used, Body(e))
    decreases e, 0
  {
    if !IsContainer(e) {
      ScalarAvoids(e);
    } else {
      match e
      case Bundle(v) =>
        LayeredEntriesAvoid(r, v, used, {':', '='});
      case Map(v) =>
        LayeredPairsAvoid(r, v, used, {':', '='});
        AvoidsJoin(used, ':', PairsUnits(v));
      case List(v) =>
        LayeredElemsAvoid(r, v, used, {':'});
        AvoidsJoin(used, ':', ElemsUnits(v));
      case Complex(v) =>
        LayeredElemsAvoid(r, v, used, {'|'});
        AvoidsJoin(used, '|', ElemsUnits(v));
      case Message(what, arg1, arg2, data) =>
        HeadAvoids(what, arg1, arg2, used);
        if data.Data? {
          LayeredEntriesAvoid(r, data.entries, used, {'%', ':', '='});
          AvoidsAround(used, [], '%', Join([Bare(':')], EntriesUnits('=', data.entries)));
          assert [] + [Bare('%')] == [Bare('%')];
        }
        AvoidsAppend(used, MessageHead(what, arg1, arg2), DataUnits(data));
    }
  }

  lemma AvoidsSubset(a: set<char>, b: set<char>, us: seq<Unit>)
    requires a <= b && Avoids(b, us)
    ensures Avoids(a, us)
  {
  }

  lemma {:induction false} LayeredElemsAvoid(r: Reader, es: seq<Elem>, used: set<char>, own: set<char>)
    requires used <= DELIMITERS && own <= DELIMITERS && AllElems(HexIsHex, es) && LayeredElems(r, es, used + own)
    ensures forall us :: us in ElemsUnits(es) ==> Avoids(used, us)
    decreases es
  {
    if es != [] {
      LayeredAvoids(r, es[0], used + own);
      AvoidsSubset(used, used + own, Units(es[0]));
      LayeredElemsAvoid(r, es[1..], used, own);
    }
  }

  lemma {:induction false} LayeredEntriesAvoid(r: Reader, entries: seq<Entry>, used: set<char>, own: set<char>)
    requires used <= DELIMITERS && own <= DELIMITERS && {':', '='} !! used
    requires AllEntries(HexIsHex, entries) && LayeredEntries(r, entries, used + own)
    ensures forall us :: us in EntriesUnits('=', entries) ==> Avoids(used, us)
    ensures Avoids(used, Join([Bare(':')], EntriesUnits('=', entries)))
    decreases entries
  {
    if entries != [] {
      LayeredEntryAvoids(r, entries[0], used, own);
      LayeredEntriesAvoid(r, entries[1..], used, own);
    }
    assert ':' !in used;
    AvoidsJoin(used, ':', EntriesUnits('=', entries));
  }

  lemma {:induction false} LayeredEntryAvoids(r: Reader, entry: Entry, used: set<char>, own: set<char>)
    requires used <= DELIMITERS && own <= DELIMITERS && {':', '='} !! used
    requires All(HexIsHex, entry.value) && LayeredEntry(r, entry, used + own)
    ensures Avoids(used, EntryUnits('=', entry))
    decreases entry
  {
    TextAvoids(entry.key);
    assert Avoids(used, TextUnits(entry.key)) && '=' !in used;
    LayeredAvoids(r, entry.value, used + own);
    AvoidsSubset(used, used + own, Units(entry.value));
    AvoidsAround(used, TextUnits(entry.key), '=', Units(entry.value));
  }

  lemma {:induction false} LayeredPairsAvoid(r: Reader, pairs: seq<Pair>, used: set<char>, own: set<char>)
    requires used <= DELIMITERS && own <= DELIMITERS && {':', '='} !! used
    requires AllPairs(HexIsHex, pairs) && LayeredPairs(r, pairs, used + own)
    ensures forall us :: us in PairsUnits(pairs) ==> Avoids(used, us)
    decreases pairs
  {
    if pairs != [] {
      LayeredPairAvoids(r, pairs[0], used, own);
      LayeredPairsAvoid(r, pairs[1..], used, own);
    }
  }

  lemma {:induction false} LayeredPairAvoids(r: Reader, pair: Pair, used: set<char>, own: set<char>)
    requires used <= DELIMITERS && own <= DELIMITERS && {':', '='} !! used
    requires AllPair(HexIsHex, pair) && LayeredPair(r, pair, used + own)
    ensures Avoids(used, PairUnits(pair))
    decreases pair
  {
    LayeredAvoids(r, pair.key, used + own);
    LayeredAvoids(r, pair.value, used + own);
    AvoidsSubset(used, used + own, Units(pair.key));
    AvoidsSubset(used, used + own, Units(pair.value));
    assert '=' !in used;
    AvoidsAround(used, Units(pair.key), '=', Units(pair.value));
  }

  /** Layered values are readable: the caller's condition implies the exact one. */
  lemma {:induction false} LayeredIsReadable(r: Reader, e: Elem, stripped: set<char>, used: set<char>)
    requires stripped <= used <= DELIMITERS && HexSafe(e) && Layered(r, e, used)
    ensures Readable(r, e, stripped)
    decreases e
  {
    if IsContainer(e) {
      match e
      case Bundle(v) => LayeredEntriesReadable(r, v, stripped, used);
      case Map(v) => LayeredPairsReadable(r, v, stripped, used);
      case List(v) => LayeredElemsReadable(r, ':', v, stripped, used);
      case Complex(v) => LayeredElemsReadable(r, '|', v, stripped, used);
      case Message(_, _, _, data) =>
        if data.Data? {
          var joined := Join([Bare(':')], EntriesUnits('=', data.entries));
          assert used + {'%', ':', '='} == (used + {'%'}) + {':', '='};
          LayeredEntriesAvoid(r, data.entries, used + {'%'}, {':', '='});
          assert '%' in used + {'%'};
          StripKeepsHidden('%', stripped, joined);
          LayeredEntriesReadable(r, data.entries, stripped + {'%'}, used + {'%'});
        }
    }
  }

  lemma {:induction false} LayeredElemsReadable(r: Reader, sep: char, es: seq<Elem>,
                                                stripped: set<char>, used: set<char>)
    requires sep in DELIMITERS && sep !in used && stripped <= used <= DELIMITERS
    requires AllElems(HexIsHex, es) && LayeredElems(r, es, used + {sep})
    ensures ElemsReadable(r, sep, es, stripped)
    decreases es
  {
    if es != [] {
      LayeredAvoids(r, es[0], used + {sep});
      assert sep in used + {sep};
      StripKeepsHidden(sep, stripped, Units(es[0]));
      LayeredIsReadable(r, es[0], stripped + {sep}, used + {sep});
      LayeredElemsReadable(r, sep, es[1..], stripped, used);
    }
  }

  lemma {:induction false} LayeredEntriesReadable(r: Reader, entries: seq<Entry>, stripped: set<char>, used: set<char>)
    requires stripped <= used <= DELIMITERS && {':', '='} !! used
    requires AllEntries(HexIsHex, entries) && LayeredEntries(r, entries, used + {':', '='})
    ensures EntriesReadable(r, ':', '=', r.Reference?, entries, stripped)
    decreases entries
  {
    if entries != [] {
      LayeredEntryReadable(r, entries[0], stripped, used);
      LayeredEntriesReadable(r, entries[1..], stripped, used);
    }
  }

  lemma {:induction false} LayeredEntryReadable(r: Reader, entry: Entry, stripped: set<char>, used: set<char>)
    requires stripped <= used <= DELIMITERS && {':', '='} !! used
    requires All(HexIsHex, entry.value) && LayeredEntry(r, entry, used + {':', '='})
    ensures !Exposes(':', stripped, EntryUnits('=', entry))
    ensures EntryReadable(r, '=', r.Reference?, entry, stripped + {':'})
    decreases entry
  {
    var key, value, inner := TextUnits(entry.key), Units(entry.value), used + {':', '='};
    TextAvoids(entry.key);
    LayeredAvoids(r, entry.value, inner);
    assert ':' in inner && '=' in inner && ':' in SPECIAL && '=' in SPECIAL && ':' !in used && '=' !in used;
    AvoidsAround({':'}, key, '=', value);
    assert ':' in {':'};
    StripKeepsHidden(':', stripped, EntryUnits('=', entry));
    StripKeepsHidden('=', stripped + {':'}, key);
    StripKeepsHidden('=', stripped + {':'}, value);
    LayeredIsReadable(r, entry.value, stripped + {':'} + {'='}, inner);
  }

  lemma {:induction false} LayeredPairsReadable(r: Reader, pairs: seq<Pair>, stripped: set<char>, used: set<char>)
    requires stripped <= used <= DELIMITERS && {':', '='} !! used
    requires AllPairs(HexIsHex, pairs) && LayeredPairs(r, pairs, used + {':', '='})
    ensures PairsReadable(r, pairs, stripped)
    decreases pairs
  {
    if pairs != [] {
      LayeredPairReadable(r, pairs[0], stripped, used);
      LayeredPairsReadable(r, pairs[1..], stripped, used);
    }
  }

  lemma {:induction false} LayeredPairReadable(r: Reader, pair: Pair, stripped: set<char>, used: set<char>)
    requires stripped <= used <= DELIMITERS && {':', '='} !! used
    requires AllPair(HexIsHex, pair) && LayeredPair(r, pair, used + {':', '='})
    ensures !Exposes(':', stripped, PairUnits(pair)) && PairReadable(r, pair, stripped + {':'})
    decreases pair
  {
    var key, value, inner := Units(pair.key), Units(pair.value), used + {':', '='};
    LayeredAvoids(r, pair.key, inner);
    LayeredAvoids(r, pair.value, inner);
    assert ':' in inner && '=' in inner && ':' !in used && '=' !in used;
    AvoidsAround({':'}, key, '=', value);
    assert ':' in {':'};
    StripKeepsHidden(':', stripped, PairUnits(pair));
    StripKeepsHidden('=', stripped + {':'}, key);
    StripKeepsHidden('=', stripped + {':'}, value);
    LayeredIsReadable(r, pair.key, stripped + {':'} + {'='}, inner);
    LayeredIsReadable(r, pair.value, stripped + {':'} + {'='}, inner);
  }

  // ---------------------------------------------------------------- unambiguity and its limit

  /** Layered values are recovered from their printed text. */
  lemma LayeredReadsBack(e: Elem)
    requires Printable(e) && HexSafe(e) && Layered(Reference, e, {})
    ensures Read(Reference, Show(e)) == Some(Val(e))
  {
    LayeredIsReadable(Reference, e, {}, {});
    ShowIsUnits(e);
    StripNothing(Units(e));
    Exact(Reference, e, {}, Units(e));
  }

  /** The value with every byte array given by its bytes. */
  function InBytes(e: Elem): Elem
    decreases e
  {
    match e
    case HexByteArray(v) => RawByteArray(BytesOf(v))
    case Bundle(v) => Bundle(EntriesInBytes(v))
    case Map(v) => Map(PairsInBytes(v))
    case List(v) => List(ElemsInBytes(v))
    case Complex(v) => Complex(ElemsInBytes(v))
    case Message(_, _, _, Data(v)) => e.(data := Data(EntriesInBytes(v)))
    case _ => e
  }

  function ElemsInBytes(es: seq<Elem>): seq<Elem>
    decreases es
  {
    if es == [] then [] else [InBytes(es[0])] + ElemsInBytes(es[1..])
  }

  function EntryInBytes(entry: Entry): Entry
    decreases entry
  {
    Entry(entry.key, InBytes(entry.value))
  }

  function EntriesInBytes(entries: seq<Entry>): seq<Entry>
    decreases entries
  {
    if entries == [] then [] else [EntryInBytes(entries[0])] + EntriesInBytes(entries[1..])
  }

  function PairInBytes(pair: Pair): Pair
    decreases pair
  {
    Pair(InBytes(pair.key), InBytes(pair.value))
  }

  function PairsInBytes(pairs: seq<Pair>): seq<Pair>
    decreases pairs
  {
    if pairs == [] then [] else [PairInBytes(pairs[0])] + PairsInBytes(pairs[1..])
  }

  lemma ConsSame<T>(x: T, xs: seq<T>, y: T, ys: seq<T>)
    ensures [x] + xs == [y] + ys <==> x == y && xs == ys
  {
    assert ([x] + xs)[0] == x && ([x] + xs)[1..] == xs && ([y] + ys)[0] == y && ([y] + ys)[1..] == ys;
  }

  function KindOf(v: Value): Prefix {
    match v
    case VBinder => PBinder
    case VNull => PNull
    case VLong(_) => PLong
    case VInt(_) => PInt
    case VShort(_) => PShort
    case VByte(_) => PByte
    case VBool(_) => PBool
    case VDouble(_) => PDouble
    case VFloat(_) => PFloat
    case VWriteFd(_) => PWriteFd
    case VReadFd(_) => PReadFd
    case VString(_) => PString
    case VByteArray(_) => PByteArray
    case VBundle(_) => PBundle
    case VMap(_) => PMap
    case VList(_) => PList
    case VCombined(_) => PCombined
    case VMessage(_, _, _, _) => PMessage
  }

  lemma KindIsKept(e: Elem)
    ensures KindOf(Val(e)) == PrefixOf(e) == PrefixOf(InBytes(e))
  {
  }

  lemma SameScalarVal(a: Elem, b: Elem)
    requires PrefixOf(a) == PrefixOf(b) && !IsContainer(a) && !IsContainer(b)
    ensures ScalarVal(a) == ScalarVal(b) <==> InBytes(a) == InBytes(b)
  {
  }

  /** Two values read as the same exactly when they are the same but for the way byte arrays are given. */
  lemma {:induction false} SameVal(a: Elem, b: Elem)
    ensures Val(a) == Val(b) <==> InBytes(a) == InBytes(b)
    decreases a
  {
    KindIsKept(a);
    KindIsKept(b);
    if PrefixOf(a) == PrefixOf(b) {
      if !IsContainer(a) {
        SameScalarVal(a, b);
      } else if a.Bundle? {
        SamePuts(a.entries, b.entries);
      } else if a.Map? {
        SameValPairs(a.pairs, b.pairs);
      } else if a.List? {
        SameVals(a.elems, b.elems);
      } else if a.Complex? {
        SameVals(a.parts, b.parts);
      } else if a.data.Data? && b.data.Data? {
        SamePuts(a.data.entries, b.data.entries);
      }
    }
  }

  lemma {:induction false} SameVals(a: seq<Elem>, b: seq<Elem>)
    ensures Vals(a) == Vals(b) <==> ElemsInBytes(a) == ElemsInBytes(b)
    decreases a
  {
    if a != [] && b != [] {
      SameVal(a[0], b[0]);
      SameVals(a[1..], b[1..]);
      ConsSame(Val(a[0]), Vals(a[1..]), Val(b[0]), Vals(b[1..]));
      ConsSame(InBytes(a[0]), ElemsInBytes(a[1..]), InBytes(b[0]), ElemsInBytes(b[1..]));
    }
  }

  lemma {:induction false} SamePut(a: Entry, b: Entry)
    ensures PutOf(a) == PutOf(b) <==> EntryInBytes(a) == EntryInBytes(b)
    decreases a
  {
    SameVal(a.value, b.value);
  }

  lemma {:induction false} SamePuts(a: seq<Entry>, b: seq<Entry>)
    ensures PutsOf(a) == PutsOf(b) <==> EntriesInBytes(a) == EntriesInBytes(b)
    decreases a
  {
    if a != [] && b != [] {
      SamePut(a[0], b[0]);
      SamePuts(a[1..], b[1..]);
      ConsSame(PutOf(a[0]), PutsOf(a[1..]), PutOf(b[0]), PutsOf(b[1..]));
      ConsSame(EntryInBytes(a[0]), EntriesInBytes(a[1..]), EntryInBytes(b[0]), EntriesInBytes(b[1..]));
    }
  }

  lemma {:induction false} SameValPair(a: Pair, b: Pair)
    ensures PairOf(a) == PairOf(b) <==> PairInBytes(a) == PairInBytes(b)
    decreases a
  {
    SameVal(a.key, b.key);
    SameVal(a.value, b.value);
  }

  lemma {:induction false} SameValPairs(a: seq<Pair>, b: seq<Pair>)
    ensures PairsOf(a) == PairsOf(b) <==> PairsInBytes(a) == PairsInBytes(b)
    decreases a
  {
    if a != [] && b != [] {
      SameValPair(a[0], b[0]);
      SameValPairs(a[1..], b[1..]);
      ConsSame(PairOf(a[0]), PairsOf(a[1..]), PairOf(b[0]), PairsOf(b[1..]));
      ConsSame(PairInBytes(a[0]), PairsInBytes(a[1..]), PairInBytes(b[0]), PairsInBytes(b[1..]));
    }
  }

  /** So on layered values printing is injective, up to the two ways of giving a byte array. */
  lemma LayeredPrintsDiffer(a: Elem, b: Elem)
    requires Printable(a) && HexSafe(a) && Layered(Reference, a, {})
    requires Printable(b) && HexSafe(b) && Layered(Reference, b, {})
    ensures Show(a) == Show(b) ==> InBytes(a) == InBytes(b)
  {
    LayeredReadsBack(a);
    LayeredReadsBack(b);
    SameVal(a, b);
  }

  lemma ShowOne(x: Elem)
    requires Printable(x)
    ensures Printable(List([x])) && Show(List([x])) == "_LST" + Show(x)
  {
    assert [x][1..] == [] && AllElems(HasData, [x]);
    assert ShowElems([x]) == [Show(x)];
  }

  lemma ShowTwo(x: Elem, y: Elem)
    requires Printable(x) && Printable(y)
    ensures Printable(List([x, y])) && Show(List([x, y])) == "_LST" + (Show(x) + ":" + Show(y))
  {
    assert [y][1..] == [] && AllElems(HasData, [y]) && [x, y][1..] == [y];
    assert AllElems(HasData, [x, y]);
    assert ShowElems([y]) == [Show(y)];
    assert ShowElems([x, y]) == [Show(x)] + [Show(y)];
    assert ([Show(x)] + [Show(y)])[1..] == [Show(y)];
    assert Join(":", [Show(y)]) == Show(y);
    assert Join(":", [Show(x)] + [Show(y)]) == Show(x) + ":" + Show(y);
  }

  /** Containers that share a separator are not: [[a, b]] and [[a], b] print alike. */
  lemma SharedSeparatorIsAmbiguous(a: Elem, b: Elem)
    requires Printable(a) && Printable(b)
    ensures Printable(List([List([a, b])])) && Printable(List([List([a]), b]))
    ensures Show(List([List([a, b])])) == Show(List([List([a]), b]))
  {
    ShowTwo(a, b);
    ShowOne(List([a, b]));
    ShowOne(a);
    ShowTwo(List([a]), b);
    Regroup("_LST", Show(a), ":", Show(b));
  }

  lemma Regroup(tag: string, x: string, sep: string, y: string)
    ensures (tag + x) + sep + y == tag + (x + sep + y)
  {
  }
}

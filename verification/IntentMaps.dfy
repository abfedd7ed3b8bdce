/** What the application holds of an intent string: a map, in which repeated keys are merged. */
module IntentMaps {
  import opened Prelude
  import opened Numbers
  import opened Wire
  import opened Escape
  import opened ParcelStrings
  import opened Worlds
  import opened Builders
  import opened AppReader
  import opened AppReading
  import opened WireTheorems

  // ---------------------------------------------------------------- toMap

  predicate DistinctKeys(puts: seq<Put>) {
    forall i, j :: 0 <= i < j < |puts| ==> puts[i].key != puts[j].key
  }

  /** No later put has the same key. */
  predicate IsLast(puts: seq<Put>, i: nat) {
    i < |puts| && forall j :: i < j < |puts| ==> puts[j].key != puts[i].key
  }

  lemma {:induction false} PutInMembers(m: seq<Put>, p: Put)
    requires DistinctKeys(m)
    ensures forall x :: x in PutIn(m, p) <==> x == p || (x in m && x.key != p.key)
  {
    if m != [] {
      assert m == [m[0]] + m[1..];
      assert forall i :: 0 < i < |m| ==> m[0].key != m[i].key;
      if m[0].key != p.key {
        PutInMembers(m[1..], p);
      }
    }
  }

  lemma {:induction false} PutInKeys(m: seq<Put>, p: Put)
    requires DistinctKeys(m)
    ensures DistinctKeys(PutIn(m, p))
  {
    if m != [] && m[0].key != p.key {
      PutInKeys(m[1..], p);
      PutInMembers(m[1..], p);
      var tail := PutIn(m[1..], p);
      forall i | 0 <= i < |tail| ensures tail[i].key != m[0].key {
        assert tail[i] in tail;
      }
    }
  }

  /** The map has each key once, and holds exactly the last puts. */
  lemma {:induction false} ToMapHoldsLast(puts: seq<Put>)
    ensures DistinctKeys(ToMap(puts))
    ensures forall x :: x in ToMap(puts) <==> exists i: nat :: IsLast(puts, i) && puts[i] == x
  {
    if puts != [] {
      var n := |puts| - 1;
      var m := ToMap(puts[..n]);
      ToMapHoldsLast(puts[..n]);
      PutInKeys(m, puts[n]);
      PutInMembers(m, puts[n]);
      forall x ensures x in ToMap(puts) <==> exists i: nat :: IsLast(puts, i) && puts[i] == x {
        LastSnoc(puts, x);
      }
    }
  }

  lemma LastSnoc(puts: seq<Put>, x: Put)
    requires puts != []
    ensures var n := |puts| - 1;
            (exists i: nat :: IsLast(puts, i) && puts[i] == x)
            <==> x == puts[n] || (x.key != puts[n].key && exists i: nat :: IsLast(puts[..n], i) && puts[..n][i] == x)
  {
    var n := |puts| - 1;
    assert IsLast(puts, n);
    forall i: nat | i < n ensures IsLast(puts, i) <==> IsLast(puts[..n], i) && puts[i].key != puts[n].key {
      LastBefore(puts, i);
    }
    if x.key != puts[n].key && exists i: nat :: IsLast(puts[..n], i) && puts[..n][i] == x {
      var i: nat :| IsLast(puts[..n], i) && puts[..n][i] == x;
      assert IsLast(puts, i) && puts[i] == x;
    }
  }

  lemma LastBefore(puts: seq<Put>, i: nat)
    requires i < |puts| - 1
    ensures var n := |puts| - 1; IsLast(puts, i) <==> IsLast(puts[..n], i) && puts[i].key != puts[n].key
  {
    var n := |puts| - 1;
    assert forall j :: i < j < n ==> puts[..n][j] == puts[j];
  }

  lemma {:induction false} PutInFresh(m: seq<Put>, p: Put)
    requires forall x :: x in m ==> x.key != p.key
    ensures PutIn(m, p) == m + [p]
  {
    if m != [] {
      PutInFresh(m[1..], p);
    }
  }

  /** Without repeated keys the map is the list of puts. */
  lemma {:induction false} ToMapOfDistinct(puts: seq<Put>)
    requires DistinctKeys(puts)
    ensures ToMap(puts) == puts
  {
    if puts != [] {
      var n := |puts| - 1;
      assert DistinctKeys(puts[..n]) && puts == puts[..n] + [puts[n]];
      ToMapOfDistinct(puts[..n]);
      PutInFresh(puts[..n], puts[n]);
    }
  }

  // ---------------------------------------------------------------- when two lists of puts give one map

  lemma {:induction false} PutInSameKeys(a: seq<Put>, b: seq<Put>, p: Put, q: Put)
    requires |a| == |b| && p.key == q.key && forall i :: 0 <= i < |a| ==> a[i].key == b[i].key
    ensures var x, y := PutIn(a, p), PutIn(b, q);
            |x| == |y| && forall i :: 0 <= i < |x| ==> x[i].key == y[i].key
  {
    if a != [] && a[0].key != p.key {
      PutInSameKeys(a[1..], b[1..], p, q);
    }
  }

  lemma {:induction false} ToMapSameKeys(a: seq<Put>, b: seq<Put>)
    requires |a| == |b| && forall i :: 0 <= i < |a| ==> a[i].key == b[i].key
    ensures var x, y := ToMap(a), ToMap(b);
            |x| == |y| && forall i :: 0 <= i < |x| ==> x[i].key == y[i].key
  {
    if a != [] {
      var n := |a| - 1;
      ToMapSameKeys(a[..n], b[..n]);
      PutInSameKeys(ToMap(a[..n]), ToMap(b[..n]), a[n], b[n]);
    }
  }

  lemma SameKeysSameMembers(x: seq<Put>, y: seq<Put>)
    requires DistinctKeys(x) && |x| == |y| && forall i :: 0 <= i < |x| ==> x[i].key == y[i].key
    requires forall p :: p in x ==> p in y
    ensures x == y
  {
    forall i | 0 <= i < |x| ensures x[i] == y[i] {
      assert x[i] in x;
      var j :| 0 <= j < |y| && y[j] == x[i];
      assert x[j].key == x[i].key;
    }
  }

  /** Puts with the same keys give the same map exactly when the last ones of each key agree. */
  lemma SameMaps(a: seq<Put>, b: seq<Put>)
    requires |a| == |b| && forall i :: 0 <= i < |a| ==> a[i].key == b[i].key
    ensures ToMap(a) == ToMap(b) <==> forall i: nat :: IsLast(b, i) ==> a[i] == b[i]
  {
    if ToMap(a) == ToMap(b) {
      forall i: nat | IsLast(b, i) ensures a[i] == b[i] {
        LastAgrees(a, b, i);
      }
    } else if forall i: nat :: IsLast(b, i) ==> a[i] == b[i] {
      ToMapHoldsLast(a);
      ToMapSameKeys(a, b);
      forall p | p in ToMap(a) ensures p in ToMap(b) {
        HoldsLast(a, b, p);
      }
      SameKeysSameMembers(ToMap(a), ToMap(b));
    }
  }

  lemma SameLast(a: seq<Put>, b: seq<Put>, i: nat)
    requires |a| == |b| && forall k :: 0 <= k < |a| ==> a[k].key == b[k].key
    ensures IsLast(a, i) <==> IsLast(b, i)
  {
  }

  lemma LastAgrees(a: seq<Put>, b: seq<Put>, i: nat)
    requires |a| == |b| && forall k :: 0 <= k < |a| ==> a[k].key == b[k].key
    requires ToMap(a) == ToMap(b) && IsLast(b, i)
    ensures a[i] == b[i]
  {
    ToMapHoldsLast(a);
    ToMapHoldsLast(b);
    assert b[i] in ToMap(b);
    var j: nat :| IsLast(a, j) && a[j] == b[i];
    SameLast(a, b, i);
    assert a[j].key == a[i].key;
  }

  lemma HoldsLast(a: seq<Put>, b: seq<Put>, p: Put)
    requires |a| == |b| && forall k :: 0 <= k < |a| ==> a[k].key == b[k].key
    requires p in ToMap(a) && forall i: nat :: IsLast(b, i) ==> a[i] == b[i]
    ensures p in ToMap(b)
  {
    ToMapHoldsLast(a);
    ToMapHoldsLast(b);
    var i: nat :| IsLast(a, i) && a[i] == p;
    SameLast(a, b, i);
    assert IsLast(b, i) && b[i] == p;
  }

  // ---------------------------------------------------------------- the pieces of an intent string

  function RenderStripped(sep: char, uss: seq<seq<Unit>>): seq<string> {
    if uss == [] then [] else [Render(Strip({sep}, uss[0]))] + RenderStripped(sep, uss[1..])
  }

  lemma {:induction false} PiecesOfJoin(sep: char, uss: seq<seq<Unit>>)
    requires sep != BACKSLASH
    requires forall us :: us in uss ==> us != [] && Neutral(us) && Bare(sep) !in us
    ensures EscapeSplit(sep, Render(Join([Bare(sep)], uss))) == RenderStripped(sep, uss)
  {
    if uss == [] {
      SplitHead(sep, []);
    } else if |uss| == 1 {
      assert uss[0] in uss && uss[0] + [] == uss[0] && uss[1..] == [];
      OneMorePiece(sep, uss[0], []);
      SplitHead(sep, []);
    } else {
      var rest := Join([Bare(sep)], uss[1..]);
      assert Join([Bare(sep)], uss) == uss[0] + ([Bare(sep)] + rest) && ([Bare(sep)] + rest)[1..] == rest;
      assert uss[0] in uss;
      JoinedNeutral(sep, uss[1..]);
      OneMorePiece(sep, uss[0], [Bare(sep)] + rest);
      PiecesOfJoin(sep, uss[1..]);
    }
  }

  lemma JoinedNeutral(sep: char, uss: seq<seq<Unit>>)
    requires sep != BACKSLASH && forall us :: us in uss ==> Neutral(us)
    ensures Neutral([Bare(sep)] + Join([Bare(sep)], uss))
  {
    AvoidsJoin({BACKSLASH}, sep, uss);
    assert BACKSLASH in {BACKSLASH};
  }

  lemma OneMorePiece(sep: char, us: seq<Unit>, tail: seq<Unit>)
    requires sep != BACKSLASH && us != [] && Neutral(us) && Bare(sep) !in us
    requires Neutral(tail) && (tail == [] || tail[0] == Bare(sep))
    ensures var rest := if tail == [] then [] else tail[1..];
            EscapeSplit(sep, Render(us + tail)) == [Render(Strip({sep}, us))] + EscapeSplit(sep, Render(rest))
  {
    SplitHead(sep, us + tail);
    BehindFirst(sep, us, tail);
  }

  lemma {:induction false} BehindFirst(sep: char, us: seq<Unit>, tail: seq<Unit>)
    requires Bare(sep) !in us && (tail == [] || tail[0] == Bare(sep))
    ensures UpTo(sep, us + tail) == us
    ensures After(sep, us + tail) == if tail == [] then [] else tail[1..]
  {
    if us == [] {
      assert us + tail == tail;
    } else {
      assert (us + tail)[1..] == us[1..] + tail;
      BehindFirst(sep, us[1..], tail);
    }
  }

  /** The text of a value behind the splitters at `,` and `>`. */
  function ValueText(e: Elem): string {
    Render(Strip({',', '>'}, Units(e)))
  }

  /** The value reads as something, not necessarily as what it was. */
  predicate Parses(r: Reader, e: Elem) {
    Read(r, ValueText(e)).Some?
  }

  lemma ReadableParses(r: Reader, e: Elem)
    requires HexSafe(e) && Printable(e)
    ensures Readable(r, e, {',', '>'}) <==> Read(r, ValueText(e)) == Some(Val(e))
  {
    Exact(r, e, {',', '>'}, Strip({',', '>'}, Units(e)));
  }

  lemma KeyReads(r: Reader, key: string)
    ensures UnescapeText(r, Render(Strip({',', '>'}, TextUnits(key))))
            == if TextReadable(r, key) then Some(key) else None
  {
    AppUnescapeText({',', '>'}, key);
    ExactText(r, {',', '>'}, key, Strip({',', '>'}, TextUnits(key)));
  }

  function PutRead(r: Reader, entry: Entry): Option<Put> {
    if !TextReadable(r, entry.key) then None
    else
      match Read(r, ValueText(entry.value))
      case None => None
      case Some(v) => Some(Put(entry.key, v))
  }

  /** What is read of a piece. */
  lemma PieceReads(r: Reader, entry: Entry)
    requires HexSafe(entry.value)
    ensures ReadPut(r, '>', true, Render(Strip({','}, EntryUnits('>', entry)))) == PutRead(r, entry)
  {
    var key, value := Strip({','}, TextUnits(entry.key)), Strip({','}, Units(entry.value));
    AroundStripped('>', {','}, TextUnits(entry.key), Units(entry.value));
    PartsQuiet(entry);
    TwoPieces('>', key, value);
    StripStrip({','}, {'>'}, TextUnits(entry.key));
    StripStrip({','}, {'>'}, Units(entry.value));
    assert {','} + {'>'} == {',', '>'};
    KeyReads(r, entry.key);
  }

  lemma PartsQuiet(entry: Entry)
    requires HexSafe(entry.value)
    ensures var key, value := Strip({','}, TextUnits(entry.key)), Strip({','}, Units(entry.value));
            Neutral(key) && Neutral(value) && value != [] && Bare('>') !in key && Bare('>') !in value
  {
    TextAvoids(entry.key);
    UnitsQuiet(entry.value);
    UnitsNeutral(entry.value);
    TextUnitsSafe(entry.key);
    StripNeutral({','}, TextUnits(entry.key));
    StripNeutral({','}, Units(entry.value));
    assert '>' in OUTER && '>' in SPECIAL;
    StripKeepsHidden('>', {','}, TextUnits(entry.key));
    StripKeepsHidden('>', {','}, Units(entry.value));
  }

  lemma TwoPieces(c: char, key: seq<Unit>, value: seq<Unit>)
    requires c in DELIMITERS && Neutral(key) && Neutral(value) && value != [] && Bare(c) !in key && Bare(c) !in value
    ensures EscapeSplit(c, Render(key + [Bare(c)] + value)) == [Render(Strip({c}, key)), Render(Strip({c}, value))]
  {
    var q := key + ([Bare(c)] + value);
    AppendCons(key, Bare(c), value);
    BehindFirst(c, key, [Bare(c)] + value);
    assert value + [] == value;
    BehindFirst(c, value, []);
    SplitTwo(c, q, value);
  }

  function AllRead(r: Reader, values: seq<Entry>): Option<seq<Put>> {
    if values == [] then Some([])
    else
      match (PutRead(r, values[0]), AllRead(r, values[1..]))
      case (Some(p), Some(ps)) => Some([p] + ps)
      case _ => None
  }

  lemma {:induction false} PiecesRead(r: Reader, values: seq<Entry>)
    requires AllEntries(HexIsHex, values)
    ensures ReadPuts(r, '>', true, RenderStripped(',', EntriesUnits('>', values))) == AllRead(r, values)
  {
    if values != [] {
      PieceReads(r, values[0]);
      PiecesRead(r, values[1..]);
      var uss := EntriesUnits('>', values);
      assert uss[0] == EntryUnits('>', values[0]) && uss[1..] == EntriesUnits('>', values[1..]);
      var parts := RenderStripped(',', uss);
      assert parts[0] == Render(Strip({','}, uss[0])) && parts[1..] == RenderStripped(',', uss[1..]);
    }
  }

  /** What the application reads of an intent string, entry by entry. */
  lemma IntentIsRead(r: Reader, values: seq<Entry>)
    requires AllEntries(HasData, values) && AllEntries(HexIsHex, values)
    ensures ParseIntent(r, Join(",", ShowEntries('>', values))) == AllRead(r, values)
  {
    var uss := EntriesUnits('>', values);
    ShowEntriesIsUnits('>', values);
    RenderJoin(',', uss);
    assert [','] == ",";
    IntentEntriesSafe(values);
    EntriesNonEmpty(values);
    assert BACKSLASH in {BACKSLASH};
    PiecesOfJoin(',', uss);
    PiecesRead(r, values);
  }

  lemma {:induction false} AllReadSome(r: Reader, values: seq<Entry>)
    ensures AllRead(r, values).Some? <==> forall i :: 0 <= i < |values| ==> PutRead(r, values[i]).Some?
    ensures AllRead(r, values).Some? ==> |AllRead(r, values).value| == |values|
  {
    if values != [] {
      AllReadSome(r, values[1..]);
      assert forall i :: 0 < i < |values| ==> values[i] == values[1..][i - 1];
      assert forall i :: 0 <= i < |values[1..]| ==> values[1..][i] == values[i + 1];
    }
  }

  lemma {:induction false} AllReadAt(r: Reader, values: seq<Entry>, i: nat)
    requires AllRead(r, values).Some? && i < |values|
    ensures i < |AllRead(r, values).value| && Some(AllRead(r, values).value[i]) == PutRead(r, values[i])
  {
    if i > 0 {
      AllReadAt(r, values[1..], i - 1);
    }
  }

  // ---------------------------------------------------------------- what arrives

  predicate DistinctEntryKeys(values: seq<Entry>) {
    forall i, j :: 0 <= i < j < |values| ==> values[i].key != values[j].key
  }

  lemma {:induction false} PutAt(values: seq<Entry>, i: nat)
    requires i < |values|
    ensures PutsOf(values)[i] == PutOf(values[i])
  {
    if i > 0 {
      PutAt(values[1..], i - 1);
    }
  }

  lemma PutKeys(values: seq<Entry>)
    ensures DistinctKeys(PutsOf(values)) <==> DistinctEntryKeys(values)
  {
    forall i | 0 <= i < |values| ensures PutsOf(values)[i].key == values[i].key {
      PutAt(values, i);
    }
  }

  lemma {:induction false} EntriesNonEmpty(values: seq<Entry>)
    ensures forall us :: us in EntriesUnits('>', values) ==> us != []
  {
    if values != [] {
      EntriesNonEmpty(values[1..]);
    }
  }

  /** No later entry has the same key. */
  predicate LastOfKey(values: seq<Entry>, i: nat) {
    i < |values| && forall j :: i < j < |values| ==> values[j].key != values[i].key
  }

  predicate EntryParses(r: Reader, entry: Entry) {
    TextReadable(r, entry.key) && Parses(r, entry.value)
  }

  predicate EachParses(r: Reader, values: seq<Entry>) {
    forall i :: 0 <= i < |values| ==> EntryParses(r, values[i])
  }

  predicate LastsAreReadable(r: Reader, values: seq<Entry>) {
    forall i :: 0 <= i < |values| && LastOfKey(values, i) ==> IntentEntryReadable(r, values[i])
  }

  /** Every key is readable, every value reads as something, and the last value of each key as itself. */
  predicate LastReadable(r: Reader, values: seq<Entry>) {
    EachParses(r, values) && LastsAreReadable(r, values)
  }

  lemma LastPuts(values: seq<Entry>)
    ensures forall i: nat :: IsLast(PutsOf(values), i) <==> LastOfKey(values, i)
    ensures forall i :: 0 <= i < |values| ==> PutsOf(values)[i] == PutOf(values[i])
  {
    forall i | 0 <= i < |values| ensures PutsOf(values)[i] == PutOf(values[i]) {
      PutAt(values, i);
    }
  }

  lemma ReadableEntryParses(r: Reader, entry: Entry)
    requires HexSafe(entry.value) && Printable(entry.value)
    ensures PutRead(r, entry).Some? <==> EntryParses(r, entry)
    ensures PutRead(r, entry) == Some(PutOf(entry)) <==> IntentEntryReadable(r, entry)
    ensures IntentEntryReadable(r, entry) ==> EntryParses(r, entry)
  {
    ReadableParses(r, entry.value);
  }

  lemma LastReadableOfDistinct(r: Reader, values: seq<Entry>)
    requires DistinctEntryKeys(values) && AllEntries(HexIsHex, values) && AllEntries(HasData, values)
    ensures LastReadable(r, values) <==> forall i :: 0 <= i < |values| ==> IntentEntryReadable(r, values[i])
  {
    EachPrints(values);
    forall i | 0 <= i < |values|
      ensures LastOfKey(values, i) && (IntentEntryReadable(r, values[i]) ==> EntryParses(r, values[i]))
    {
      ReadableEntryParses(r, values[i]);
    }
  }

  lemma {:induction false} EachPrints(values: seq<Entry>)
    requires AllEntries(HexIsHex, values) && AllEntries(HasData, values)
    ensures forall i :: 0 <= i < |values| ==> HexSafe(values[i].value) && Printable(values[i].value)
  {
    if values != [] {
      EachPrints(values[1..]);
      assert forall i :: 0 < i < |values| ==> values[i] == values[1..][i - 1];
    }
  }

  lemma AllReadIff(r: Reader, values: seq<Entry>)
    requires AllEntries(HexIsHex, values) && AllEntries(HasData, values)
    ensures AllRead(r, values).Some? <==> EachParses(r, values)
  {
    AllReadSome(r, values);
    EachPrints(values);
    forall i | 0 <= i < |values| ensures PutRead(r, values[i]).Some? <==> EntryParses(r, values[i]) {
      ReadableEntryParses(r, values[i]);
    }
  }

  lemma AllReadAsLast(r: Reader, values: seq<Entry>)
    requires AllEntries(HexIsHex, values) && AllEntries(HasData, values) && AllRead(r, values).Some?
    ensures ToMap(AllRead(r, values).value) == ToMap(PutsOf(values)) <==> LastsAreReadable(r, values)
  {
    var got, want := AllRead(r, values).value, PutsOf(values);
    AllReadSome(r, values);
    LastPuts(values);
    EachPrints(values);
    forall i | 0 <= i < |values|
      ensures got[i].key == want[i].key && (got[i] == want[i] <==> IntentEntryReadable(r, values[i]))
    {
      AllReadAt(r, values, i);
      ReadableEntryParses(r, values[i]);
    }
    SameMaps(got, want);
  }

  /**
   * The application holds the last value of each key if and only if that value is readable, every key is, and every
   * overwritten value reads as something. When no key is repeated: if and only if every entry is readable.
   */
  lemma IntentArrives(r: Reader, values: seq<Entry>)
    requires values != [] && AllEntries(HasData, values) && AllEntries(HexIsHex, values)
    ensures var got := ParseIntentMap(r, Join(",", ShowEntries('>', values)));
            var readable := forall i :: 0 <= i < |values| ==> IntentEntryReadable(r, values[i]);
            && (got == Some(ToMap(PutsOf(values))) <==> LastReadable(r, values))
            && (DistinctEntryKeys(values) ==> (got == Some(PutsOf(values)) <==> readable))
  {
    IntentIsRead(r, values);
    AllReadIff(r, values);
    if AllRead(r, values).Some? {
      AllReadAsLast(r, values);
    }
    if DistinctEntryKeys(values) {
      PutKeys(values);
      ToMapOfDistinct(PutsOf(values));
      LastReadableOfDistinct(r, values);
    }
  }

  // ---------------------------------------------------------------- a byte that is overwritten

  /** The application takes a byte of two or more digits for another one, and fails on a digit alone. */
  lemma ByteParses(v: Numbers.Byte)
    ensures Parses(DeviceApp, Byte(v)) <==> v >= 10
  {
    var e, s := Byte(v), ShowInt(v);
    assert Units(e) == Bares("BYTE") + Bares(s);
    StripBares({',', '>'}, Units(e));
    RenderAppend(Bares("BYTE"), Bares(s));
    RenderBares("BYTE");
    RenderBares(s);
    assert ValueText(e) == "BYTE" + s && ("BYTE" + s)[..4] == "BYTE" && ("BYTE" + s)[4..] == s;
    DecimalLength(v);
    assert Read(DeviceApp, "BYTE" + s) == ReadBody(DeviceApp, PByte, s);
  }

  lemma DecimalLength(v: Numbers.Byte)
    ensures |ShowInt(v)| >= 2 <==> v >= 10
    ensures v >= 10 ==> IsLowerHex(ShowInt(v)[0]) && IsLowerHex(ShowInt(v)[1])
  {
  }

  /** So a byte that cannot arrive does no harm when its key is given again, if it has two digits. */
  lemma OverwrittenByte(v: Numbers.Byte)
    ensures var values := [Entry("k", Byte(v)), Entry("k", Null)];
            && AllEntries(HasData, values)
            && (ParseIntentMap(DeviceApp, Join(",", ShowEntries('>', values))) == Some([Put("k", VNull)]) <==> v >= 10)
  {
    var a, b := Entry("k", Byte(v)), Entry("k", Null);
    TwoAreSafe(a, b);
    IntentArrives(DeviceApp, [a, b]);
    MapOfTwo(PutOf(a), PutOf(b));
    LastOfTwo(DeviceApp, a, b);
    ByteAndNull(v);
  }

  lemma TwoAreSafe(a: Entry, b: Entry)
    requires Printable(a.value) && HexSafe(a.value) && Printable(b.value) && HexSafe(b.value)
    ensures AllEntries(HasData, [a, b]) && AllEntries(HexIsHex, [a, b])
  {
    EntriesIndexed(HasData, [a, b]);
    EntriesIndexed(HexIsHex, [a, b]);
  }

  lemma ByteAndNull(v: Numbers.Byte)
    ensures EntryParses(DeviceApp, Entry("k", Byte(v))) <==> v >= 10
    ensures EntryParses(DeviceApp, Entry("k", Null)) && IntentEntryReadable(DeviceApp, Entry("k", Null))
  {
    ByteParses(v);
    ReadableParses(DeviceApp, Null);
  }

  lemma LastOfTwo(r: Reader, a: Entry, b: Entry)
    requires a.key == b.key
    ensures PutsOf([a, b]) == [PutOf(a), PutOf(b)]
    ensures LastReadable(r, [a, b]) <==> EntryParses(r, a) && EntryParses(r, b) && IntentEntryReadable(r, b)
  {
    var values := [a, b];
    assert values[1..] == [b] && values[1..][1..] == [];
    assert values[0] == a && values[1] == b;
    assert LastOfKey(values, 1) && !LastOfKey(values, 0);
  }

  lemma MapOfTwo(a: Put, b: Put)
    requires a.key == b.key
    ensures ToMap([a, b]) == [b]
  {
    assert [a, b][..1] == [a] && [a][..0] == [];
    assert ToMap([a]) == [a] && [a][1..] == [];
  }
}

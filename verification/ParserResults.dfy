/** What the parser makes of arguments, of repeated keys and of lines that end too early, told without its grammar. */
module ParserResults {
  import opened Prelude
  import opened Numbers
  import opened ParcelStrings
  import opened Worlds
  import opened ParcelWords
  import opened ParcelParser
  import opened ParcelGrammar
  import opened AppReading

  // ---------------------------------------------------------------- arguments

  lemma WithArgument(w: World, ident: string, s: string, rest: seq<string>)
    requires ident in {"barr", "str", "f64", "f32", "i64", "i32", "i16", "u8", "z", "wfd", "rfd"}
    ensures ParseSingle(w, [ident, s] + rest) ==
            match ParseScalar(w, ident, s)
            case None => Fail(ScalarError(ident))
            case Some(e) => Done(Some(e), rest)
  {
    var ts := [ident, s] + rest;
    assert ts[1..] == [s] + rest && ts[1..][1..] == rest;
    ScalarIdent(w, ident, ts[1..]);
  }

  predicate IsHexText(s: string) {
    |s| % 2 == 0 && forall i :: 0 <= i < |s| ==> s[i] in "0123456789abcdefABCDEF"
  }

  /** `barr` takes an even number of digits of either case, and stands for the bytes they spell. */
  lemma HexArgument(w: World, s: string, rest: seq<string>) returns (h: string)
    ensures if !IsHexText(s) then ParseSingle(w, ["barr", s] + rest) == Fail(BadHex)
            else
              && ParseSingle(w, ["barr", s] + rest) == Done(Some(HexByteArray(h)), rest) && |h| == |s|
              && (forall i :: 0 <= i < |s| ==> h[i] in "0123456789abcdef" && DigitValue(h[i]) == DigitValue(s[i]) < 16)
              && BytesOf(h) == BytesOf(s)
  {
    WithArgument(w, "barr", s, rest);
    HexTextIff(s);
    h := Lower(s);
    if IsHexText(s) {
      LowerDigits(s);
      SameDigitsSameBytes(s, h);
    }
  }

  lemma LowerDigits(s: string)
    requires IsHexText(s)
    ensures var h := Lower(s);
            forall i :: 0 <= i < |s| ==> h[i] in "0123456789abcdef" && DigitValue(h[i]) == DigitValue(s[i]) < 16
  {
    forall i | 0 <= i < |s|
      ensures Lower(s)[i] in "0123456789abcdef" && DigitValue(Lower(s)[i]) == DigitValue(s[i]) < 16
    {
      LowerDigit(s[i]);
      assert Lower(s)[i] == Lower([s[i]])[0];
    }
  }

  lemma HexTextIff(s: string)
    ensures IsHexText(s) <==> IsHexArgument(s)
  {
    forall i | 0 <= i < |s| ensures s[i] in "0123456789abcdefABCDEF" <==> DigitValue(s[i]) < 16 {
      DigitTable(0, s[i]);
    }
    assert forall i :: 0 <= i < |s| ==> s[i] in s;
  }

  lemma LowerDigit(c: char)
    requires c in "0123456789abcdefABCDEF"
    ensures Lower([c])[0] in "0123456789abcdef" && DigitValue(Lower([c])[0]) == DigitValue(c) < 16
    ensures Lower([c])[0] == if 'A' <= c <= 'F' then (c as int + 32) as char else c
  {
  }

  lemma {:induction false} SameDigitsSameBytes(a: string, b: string)
    requires |a| == |b| && forall i :: 0 <= i < |a| ==> DigitValue(a[i]) == DigitValue(b[i])
    ensures BytesOf(a) == BytesOf(b)
    decreases |a|
  {
    if |a| >= 2 {
      SameDigitsSameBytes(a[2..], b[2..]);
    }
  }

  /** The words for integer types, and their ranges. */
  const LOWEST: map<string, int> :=
    map["i64" := -0x8000_0000_0000_0000, "i32" := -0x8000_0000, "i16" := -0x8000, "u8" := 0]
  const HIGHEST: map<string, int> :=
    map["i64" := 0x7FFF_FFFF_FFFF_FFFF, "i32" := 0x7FFF_FFFF, "i16" := 0x7FFF, "u8" := 0xFF]

  predicate InType(ident: string, v: int) {
    ident in LOWEST && ident in HIGHEST && LOWEST[ident] <= v <= HIGHEST[ident]
  }

  function Integer(ident: string, v: int): Elem
    requires InType(ident, v)
  {
    if ident == "i64" then Long(v) else if ident == "i32" then Int(v) else if ident == "i16" then Short(v)
    else Elem.Byte(v)
  }

  lemma IntegerScalar(w: World, ident: string, s: string)
    requires ident in {"i64", "i32", "i16", "u8"}
    ensures ScalarError(ident) == BadNumber
    ensures ParseScalar(w, ident, s) ==
            match ParseInt(s, LOWEST[ident], HIGHEST[ident])
            case None => None
            case Some(v) => if InType(ident, v) then Some(Integer(ident, v)) else None
    ensures LOWEST[ident] <= 0 <= HIGHEST[ident]
  {
  }

  /** An integer argument is a decimal number of the type, with a sign and zeros in front as `str::parse` takes them. */
  lemma IntegerArgument(w: World, ident: string, s: string, rest: seq<string>)
    requires ident in {"i64", "i32", "i16", "u8"}
    ensures var r, signed := ParseSingle(w, [ident, s] + rest), ident != "u8";
            && (forall v :: InType(ident, v) ==> (r == Done(Some(Integer(ident, v)), rest) <==> Denotes(s, signed, v)))
            && (r == Fail(BadNumber) <==> forall v :: InType(ident, v) ==> !Denotes(s, signed, v))
  {
    var lo, hi, r := LOWEST[ident], HIGHEST[ident], ParseSingle(w, [ident, s] + rest);
    WithArgument(w, ident, s, rest);
    IntegerScalar(w, ident, s);
    assert ident != "u8" <==> lo < 0;
    forall v | InType(ident, v) ensures r == Done(Some(Integer(ident, v)), rest) <==> Denotes(s, lo < 0, v) {
      ParseIntIff(s, lo, hi, v);
    }
    if ParseInt(s, lo, hi).Some? {
      ParsedDenotes(s, lo, hi, ParseInt(s, lo, hi).value);
    }
  }

  /** The other arguments. */
  lemma OtherArgument(w: World, s: string, rest: seq<string>)
    ensures ParseSingle(w, ["z", s] + rest) ==
            if s == "true" then Done(Some(Bool(true)), rest) else if s == "false" then Done(Some(Bool(false)), rest)
            else Fail(BadBool)
    ensures ParseSingle(w, ["str", s] + rest) == Done(Some(Str(s)), rest)
    ensures ParseSingle(w, ["wfd", s] + rest) == Done(Some(WriteFd(s)), rest)
    ensures ParseSingle(w, ["rfd", s] + rest) == Done(Some(ReadFd(s)), rest)
    ensures ParseSingle(w, ["f64", s] + rest) ==
            match w.rounding.f64(s) case None => Fail(BadNumber) case Some(v) => Done(Some(Double(v)), rest)
    ensures ParseSingle(w, ["f32", s] + rest) ==
            match w.rounding.f32(s) case None => Fail(BadNumber) case Some(v) => Done(Some(Float(v)), rest)
  {
    WithArgument(w, "z", s, rest);
    WithArgument(w, "str", s, rest);
    WithArgument(w, "wfd", s, rest);
    WithArgument(w, "rfd", s, rest);
    WithArgument(w, "f64", s, rest);
    WithArgument(w, "f32", s, rest);
  }

  /** The words that need no argument, or are followed by more than one. */
  const NO_ARGUMENT: set<string> := {"end", "bind", "null", "msg", "map", "bund", "list"}
  const ONE_ARGUMENT: set<string> := {"barr", "str", "f64", "f32", "i64", "i32", "i16", "u8", "z", "wfd", "rfd"}

  /** Any other word fails: for want of an argument at the end of the line, and as unknown before one. */
  lemma WithoutArgument(w: World, ident: string, rest: seq<string>)
    ensures ParseSingle(w, []) == Done(None, []) && ParseSingle(w, ["end"] + rest) == Done(None, rest)
    ensures ParseSingle(w, ["bind"] + rest) == Done(Some(Binder), rest)
    ensures ParseSingle(w, ["null"] + rest) == Done(Some(Null), rest)
    ensures ident !in NO_ARGUMENT ==> ParseSingle(w, [ident]) == Fail(NeedsArgument)
    ensures ident !in NO_ARGUMENT && ident !in ONE_ARGUMENT && rest != [] ==>
              ParseSingle(w, [ident] + rest) == Fail(UnknownType)
  {
    assert (["end"] + rest)[1..] == rest && (["bind"] + rest)[1..] == rest && (["null"] + rest)[1..] == rest;
    assert ([ident] + rest)[1..] == rest && [ident][1..] == [];
  }

  // ---------------------------------------------------------------- what is inserted in a map

  predicate DistinctEntries(entries: seq<Entry>) {
    forall i, j :: 0 <= i < j < |entries| ==> entries[i].key != entries[j].key
  }

  /** The new entry is in, the old one of its key is out, the others stay. */
  lemma {:induction false} InsertEntryIs(entries: seq<Entry>, key: string, value: Elem)
    requires DistinctEntries(entries)
    ensures DistinctEntries(InsertEntry(entries, key, value))
    ensures forall e :: e in InsertEntry(entries, key, value) <==>
              e == Entry(key, value) || (e in entries && e.key != key)
  {
    if entries != [] {
      var tail := entries[1..];
      assert entries == [entries[0]] + tail;
      assert forall i :: 0 < i < |entries| ==> entries[i].key != entries[0].key;
      if entries[0].key != key {
        InsertEntryIs(tail, key, value);
        var r := InsertEntry(tail, key, value);
        forall i | 0 <= i < |r| ensures r[i].key != entries[0].key {
          assert r[i] in r;
        }
      }
    }
  }

  /** The entries put into `acc` one after the other. */
  function Put(acc: seq<Entry>, vals: seq<Entry>): seq<Entry>
    decreases |vals|
  {
    if vals == [] then acc else Put(InsertEntry(acc, vals[0].key, vals[0].value), vals[1..])
  }

  /** Behind this entry its key does not come again. */
  predicate IsLast(vals: seq<Entry>, i: nat) {
    i < |vals| && forall j :: i < j < |vals| ==> vals[j].key != vals[i].key
  }

  lemma {:induction false} LastCons(vals: seq<Entry>, e: Entry)
    requires vals != []
    ensures (exists i: nat :: IsLast(vals, i) && vals[i] == e) <==>
            || (exists i: nat :: IsLast(vals[1..], i) && vals[1..][i] == e)
            || (vals[0] == e && forall k :: 0 <= k < |vals[1..]| ==> vals[1..][k].key != e.key)
  {
    var tail := vals[1..];
    forall i: nat | i < |tail| ensures IsLast(tail, i) <==> IsLast(vals, i + 1) {
      assert forall j :: i < j < |tail| ==> tail[j] == vals[j + 1];
      assert forall j :: i + 1 < j < |vals| ==> vals[j] == tail[j - 1];
    }
    if i: nat :| IsLast(vals, i) && vals[i] == e {
      if i > 0 {
        assert IsLast(tail, i - 1) && tail[i - 1] == e;
      } else {
        assert forall k :: 0 <= k < |tail| ==> tail[k] == vals[k + 1];
      }
    }
    if i: nat :| IsLast(tail, i) && tail[i] == e {
      assert IsLast(vals, i + 1) && vals[i + 1] == e;
    }
    if vals[0] == e && forall k :: 0 <= k < |tail| ==> tail[k].key != e.key {
      assert forall j :: 0 < j < |vals| ==> vals[j] == tail[j - 1];
      assert IsLast(vals, 0);
    }
  }

  /** Each key is there once, with the last value put for it. */
  lemma {:induction false} PutHoldsLast(acc: seq<Entry>, vals: seq<Entry>)
    requires DistinctEntries(acc)
    ensures DistinctEntries(Put(acc, vals))
    ensures forall e :: e in Put(acc, vals) <==>
              || (exists i: nat :: IsLast(vals, i) && vals[i] == e)
              || (e in acc && forall k :: 0 <= k < |vals| ==> vals[k].key != e.key)
    decreases |vals|
  {
    if vals != [] {
      var acc' := InsertEntry(acc, vals[0].key, vals[0].value);
      InsertEntryIs(acc, vals[0].key, vals[0].value);
      PutHoldsLast(acc', vals[1..]);
      forall e ensures e in Put(acc, vals) <==>
                || (exists i: nat :: IsLast(vals, i) && vals[i] == e)
                || (e in acc && forall k :: 0 <= k < |vals| ==> vals[k].key != e.key)
      {
        LastCons(vals, e);
        assert forall k :: 0 < k < |vals| ==> vals[k] == vals[1..][k - 1];
        assert forall k :: 0 <= k < |vals[1..]| ==> vals[1..][k] == vals[k + 1];
      }
    }
  }

  predicate NoEndKey(entries: seq<Entry>) {
    forall i :: 0 <= i < |entries| ==> entries[i].key != "end"
  }

  /** The words of entries, repeated keys included, are read one by one and put into the bundle. */
  lemma {:induction false} EntriesRun(w: World, entries: seq<Entry>, acc: seq<Entry>, tail: seq<string>)
    returns (vals: seq<Entry>)
    requires ExpressibleEntries(w.rounding, Loose, entries) && NoEndKey(entries)
    ensures ParseEntries(w, EntriesWords(entries) + tail, acc) == ParseEntries(w, tail, Put(acc, vals))
    ensures EntriesOutcome(w, entries, |tail|, vals)
    decreases entries
  {
    if entries == [] {
      vals := [];
      assert EntriesWords(entries) + tail == tail;
    } else {
      var key, value, more := entries[0].key, entries[0].value, EntriesWords(entries[1..]) + tail;
      FirstEntryWords(entries, tail);
      OtherEntries(w, Loose, entries);
      var first := ParsesLoosely(w, Loose, value, more);
      EntryStep(w, key, Words(value) + more, acc, first, more);
      var others := EntriesRun(w, entries[1..], InsertEntry(acc, key, first), tail);
      vals := [Entry(key, first)] + others;
      assert vals[1..] == others;
      ConsEntriesOutcome(w, entries, |tail|, |more|, Entry(key, first), others);
    }
  }

  /**
   * A bundle with any keys, repeated ones included, holds for each key the last value given for it; `vals` is what
   * the values parse to, one by one.
   */
  lemma BundleHoldsLast(w: World, entries: seq<Entry>, rest: seq<string>)
    returns (vals: seq<Entry>, got: seq<Entry>)
    requires ExpressibleEntries(w.rounding, Loose, entries) && NoEndKey(entries)
    ensures EntriesOutcome(w, entries, 1 + |rest|, vals)
    ensures ParseSingle(w, ["bund"] + (EntriesWords(entries) + (["end"] + rest))) == Done(Some(Bundle(got)), rest)
    ensures DistinctEntries(got) && forall e :: e in got <==> exists i: nat :: IsLast(vals, i) && vals[i] == e
  {
    vals := EntriesRun(w, entries, [], ["end"] + rest);
    PutHoldsLast([], vals);
    var held, ts := Put([], vals), EntriesWords(entries) + (["end"] + rest);
    assert (["end"] + rest)[1..] == rest;
    BundleStep(w, ts, held, rest);
    got := Ordered(w, |ts|, held);
    SameMembers(w, |ts|, held);
  }

  lemma {:induction false} SameMembers(w: World, start: nat, held: seq<Entry>)
    requires DistinctEntries(held)
    ensures DistinctEntries(Ordered(w, start, held)) && forall e :: e in Ordered(w, start, held) <==> e in held
  {
    var p, r := w.order(start, |held|), Ordered(w, start, held);
    assert forall i :: 0 <= i < |held| ==> r[i] == held[p[i]];
    forall e | e in held ensures e in r {
      var k :| 0 <= k < |held| && held[k] == e;
      assert k in p;
      var i :| 0 <= i < |p| && p[i] == k;
      assert r[i] == e;
    }
    forall i, j | 0 <= i < j < |r| ensures r[i].key != r[j].key {
      assert p[i] != p[j];
    }
  }

  /** Without its `end` a bundle fails, and so it does when a key has no value. */
  lemma BundleFails(w: World, entries: seq<Entry>, key: string, rest: seq<string>)
    requires ExpressibleEntries(w.rounding, Loose, entries) && NoEndKey(entries) && key != "end"
    ensures ParseSingle(w, ["bund"] + EntriesWords(entries)) == Fail(NoEnd)
    ensures ParseSingle(w, ["bund"] + (EntriesWords(entries) + [key])) == Fail(NoValue)
    ensures ParseSingle(w, ["bund"] + (EntriesWords(entries) + ([key, "end"] + rest))) == Fail(NoValue)
  {
    var words := EntriesWords(entries);
    var v1 := EntriesRun(w, entries, [], []);
    assert words + [] == words;
    var v2 := EntriesRun(w, entries, [], [key]);
    assert [key][1..] == [];
    var v3 := EntriesRun(w, entries, [], [key, "end"] + rest);
    assert ([key, "end"] + rest)[1..] == ["end"] + rest;
    EndStops(w, rest);
    FailsWith(w, words, NoEnd);
    FailsWith(w, words + [key], NoValue);
    FailsWith(w, words + ([key, "end"] + rest), NoValue);
  }

  lemma FailsWith(w: World, ts: seq<string>, error: Error)
    requires ParseEntries(w, ts, []) == Fail(error)
    ensures ParseSingle(w, ["bund"] + ts) == Fail(error)
  {
    assert (["bund"] + ts)[1..] == ts;
  }

  // ---------------------------------------------------------------- maps

  /** The pairs inserted one after the other. */
  function PutPairs(vals: seq<Pair>): (r: seq<Pair>)
    requires PrintableKeys(vals)
    ensures PrintableKeys(r)
    decreases |vals|
  {
    if vals == [] then []
    else
      var n := |vals| - 1;
      assert forall p :: p in vals[..n] ==> p in vals;
      assert vals[n] in vals;
      var before := PutPairs(vals[..n]);
      InsertPairKeys(before, vals[n].key, vals[n].value);
      InsertPair(before, vals[n].key, vals[n].value)
  }

  /** An equal key keeps its tree and takes the value; otherwise the pair is added. */
  lemma {:induction false} InsertPairIs(pairs: seq<Pair>, key: Elem, value: Elem)
    requires Unequal(pairs) && Printable(key)
    ensures Unequal(InsertPair(pairs, key, value))
    ensures forall e :: e in InsertPair(pairs, key, value) <==>
              || (e in pairs && !WireEqual(e.key, key))
              || (e.value == value && exists q :: q in pairs && WireEqual(q.key, key) && e.key == q.key)
              || (e == Pair(key, value) && forall q :: q in pairs ==> !WireEqual(q.key, key))
    decreases |pairs|
  {
    InsertPairKeepsUnequal(pairs, key, value);
    if pairs != [] {
      TailUnequal(pairs);
      var tail := pairs[1..];
      assert pairs == [pairs[0]] + tail;
      assert forall q :: q in tail ==> !WireEqual(pairs[0].key, q.key);
      if !WireEqual(pairs[0].key, key) {
        InsertPairIs(tail, key, value);
      }
    }
  }

  /** The i-th pair is the first of its key, and the j-th the last of the same key. */
  predicate Stands(vals: seq<Pair>, i: nat, j: nat)
    requires PrintableKeys(vals)
  {
    && i < |vals| && j < |vals|
    && WireEqual(vals[i].key, vals[j].key)
    && (forall k :: 0 <= k < i ==> !WireEqual(vals[k].key, vals[i].key))
    && (forall k :: j < k < |vals| ==> !WireEqual(vals[k].key, vals[j].key))
  }

  ghost predicate Holds(vals: seq<Pair>, e: Pair)
    requires PrintableKeys(vals)
  {
    exists i: nat, j: nat :: Stands(vals, i, j) && e == Pair(vals[i].key, vals[j].value)
  }

  lemma {:induction false} StandsBefore(vals: seq<Pair>, i: nat, j: nat)
    requires PrintableKeys(vals) && j < |vals| - 1
    ensures PrintableKeys(vals[..|vals| - 1])
    ensures Stands(vals, i, j) <==>
            Stands(vals[..|vals| - 1], i, j) && !WireEqual(vals[|vals| - 1].key, vals[j].key)
  {
    var n := |vals| - 1;
    InitPrintable(vals);
    if Stands(vals, i, j) {
      StandsInside(vals, i, j);
    }
    if Stands(vals[..n], i, j) && !WireEqual(vals[n].key, vals[j].key) {
      StandsOutside(vals, i, j);
    }
  }

  lemma {:induction false} InitPrintable(vals: seq<Pair>)
    requires PrintableKeys(vals) && vals != []
    ensures PrintableKeys(vals[..|vals| - 1]) && Printable(vals[|vals| - 1].key)
  {
    assert vals[|vals| - 1] in vals;
    assert forall p :: p in vals[..|vals| - 1] ==> p in vals;
  }

  /** The keys of pairs that start alike differ or agree alike. */
  lemma {:induction false} SameKeys(vals: seq<Pair>, init: seq<Pair>, a: nat, b: nat)
    requires PrintableKeys(vals) && PrintableKeys(init) && init <= vals && a < |init| && b < |init|
    ensures WireEqual(init[a].key, init[b].key) <==> WireEqual(vals[a].key, vals[b].key)
  {
    assert init[a] == vals[a] && init[b] == vals[b];
  }

  lemma {:induction false} StandsInside(vals: seq<Pair>, i: nat, j: nat)
    requires PrintableKeys(vals) && j < |vals| - 1 && PrintableKeys(vals[..|vals| - 1]) && Stands(vals, i, j)
    ensures Stands(vals[..|vals| - 1], i, j) && !WireEqual(vals[|vals| - 1].key, vals[j].key)
  {
    var n := |vals| - 1;
    var init := vals[..n];
    SameKeys(vals, init, i, j);
    forall k | 0 <= k < i ensures !WireEqual(init[k].key, init[i].key) {
      SameKeys(vals, init, k, i);
    }
    forall k | j < k < |init| ensures !WireEqual(init[k].key, init[j].key) {
      SameKeys(vals, init, k, j);
    }
  }

  lemma {:induction false} StandsOutside(vals: seq<Pair>, i: nat, j: nat)
    requires PrintableKeys(vals) && j < |vals| - 1 && PrintableKeys(vals[..|vals| - 1])
    requires Stands(vals[..|vals| - 1], i, j) && !WireEqual(vals[|vals| - 1].key, vals[j].key)
    ensures Stands(vals, i, j)
  {
    var n := |vals| - 1;
    var init := vals[..n];
    SameKeys(vals, init, i, j);
    forall k | 0 <= k < i ensures !WireEqual(vals[k].key, vals[i].key) {
      SameKeys(vals, init, k, i);
    }
    forall k | j < k < |vals| ensures !WireEqual(vals[k].key, vals[j].key) {
      if k < n {
        SameKeys(vals, init, k, j);
      }
    }
  }

  lemma {:induction false} FirstLike(vals: seq<Pair>, m: nat) returns (i: nat)
    requires PrintableKeys(vals) && m < |vals|
    ensures i <= m && WireEqual(vals[i].key, vals[m].key)
    ensures forall k :: 0 <= k < i ==> !WireEqual(vals[k].key, vals[i].key)
    decreases m
  {
    i := m;
    if k :| 0 <= k < m && WireEqual(vals[k].key, vals[m].key) {
      i := FirstLike(vals, k);
    }
  }

  /** In each map a key is there once, as the first tree with its text, with the last value given for that text. */
  lemma {:induction false} PutPairsHolds(vals: seq<Pair>)
    requires PrintableKeys(vals)
    ensures Unequal(PutPairs(vals)) && forall e :: e in PutPairs(vals) <==> Holds(vals, e)
    decreases |vals|
  {
    if vals != [] {
      var n := |vals| - 1;
      var init := vals[..n];
      assert forall p :: p in init ==> p in vals;
      assert vals[n] in vals;
      PutPairsHolds(init);
      InsertPairIs(PutPairs(init), vals[n].key, vals[n].value);
      forall e ensures e in PutPairs(vals) <==> Holds(vals, e) {
        HoldsSnoc(vals, e);
      }
    }
  }

  lemma {:induction false} LastLike(vals: seq<Pair>, m: nat) returns (j: nat)
    requires PrintableKeys(vals) && m < |vals|
    ensures m <= j < |vals| && WireEqual(vals[j].key, vals[m].key)
    ensures forall k :: j < k < |vals| ==> !WireEqual(vals[k].key, vals[j].key)
    decreases |vals| - m
  {
    j := m;
    if k :| m < k < |vals| && WireEqual(vals[k].key, vals[m].key) {
      j := LastLike(vals, k);
    }
  }

  /** Some pair is held for the key of each pair that was put. */
  lemma {:induction false} HeldFor(vals: seq<Pair>, m: nat) returns (q: Pair)
    requires PrintableKeys(vals) && m < |vals|
    ensures Holds(vals, q) && Printable(q.key) && WireEqual(q.key, vals[m].key)
    ensures (forall k :: 0 <= k < m ==> !WireEqual(vals[k].key, vals[m].key)) ==> q.key == vals[m].key
  {
    var i := FirstLike(vals, m);
    var j := LastLike(vals, i);
    assert vals[i] in vals;
    q := Pair(vals[i].key, vals[j].value);
    assert Stands(vals, i, j);
    if i < m && forall k :: 0 <= k < m ==> !WireEqual(vals[k].key, vals[m].key) {
      assert false;
    }
  }

  lemma {:induction false} HeldIsPut(vals: seq<Pair>, e: Pair) returns (i: nat)
    requires PrintableKeys(vals) && Holds(vals, e)
    ensures i < |vals| && e.key == vals[i].key && Printable(e.key)
    ensures forall k :: 0 <= k < i ==> !WireEqual(vals[k].key, vals[i].key)
  {
    var i0: nat, j: nat :| Stands(vals, i0, j) && e == Pair(vals[i0].key, vals[j].value);
    i := i0;
    assert vals[i] in vals;
  }

  /** What is held after one more pair. */
  ghost predicate HoldsAfter(init: seq<Pair>, last: Pair, e: Pair)
    requires PrintableKeys(init) && Printable(last.key)
  {
    || (Holds(init, e) && Printable(e.key) && !WireEqual(e.key, last.key))
    || (e.value == last.value
        && exists q :: Holds(init, q) && Printable(q.key) && WireEqual(q.key, last.key) && e.key == q.key)
    || (e == last && forall q :: Holds(init, q) && Printable(q.key) ==> !WireEqual(q.key, last.key))
  }

  lemma {:induction false} HoldsThen(init: seq<Pair>, last: Pair, e: Pair)
    requires PrintableKeys(init) && Printable(last.key) && PrintableKeys(init + [last]) && Holds(init + [last], e)
    ensures HoldsAfter(init, last, e)
  {
    var vals, n := init + [last], |init|;
    var i: nat, j: nat :| Stands(vals, i, j) && e == Pair(vals[i].key, vals[j].value);
    if j < n {
      StaysBehind(init, last, i, j);
    } else if i < n {
      TakesValue(init, last, i);
    } else {
      IsNew(init, last);
    }
  }

  lemma {:induction false} StaysBehind(init: seq<Pair>, last: Pair, i: nat, j: nat)
    requires PrintableKeys(init) && Printable(last.key) && PrintableKeys(init + [last])
    requires Stands(init + [last], i, j) && j < |init|
    ensures i < |init| && HoldsAfter(init, last, Pair(init[i].key, init[j].value))
  {
    var vals := init + [last];
    assert vals[..|init|] == init && vals[|init|] == last;
    StandsInside(vals, i, j);
    assert init[i] == vals[i] && init[j] == vals[j] && vals[i] in vals;
    assert Holds(init, Pair(init[i].key, init[j].value));
  }

  lemma {:induction false} TakesValue(init: seq<Pair>, last: Pair, i: nat)
    requires PrintableKeys(init) && Printable(last.key) && PrintableKeys(init + [last])
    requires i < |init| && Stands(init + [last], i, |init|)
    ensures HoldsAfter(init, last, Pair(init[i].key, last.value))
  {
    var vals := init + [last];
    assert vals[|init|] == last;
    forall k | 0 <= k < i ensures !WireEqual(init[k].key, init[i].key) {
      assert vals[k] == init[k] && vals[i] == init[i];
    }
    var q := HeldFor(init, i);
    assert vals[i] == init[i] && q.key == init[i].key;
  }

  lemma {:induction false} IsNew(init: seq<Pair>, last: Pair)
    requires PrintableKeys(init) && Printable(last.key) && PrintableKeys(init + [last])
    requires Stands(init + [last], |init|, |init|)
    ensures HoldsAfter(init, last, last)
  {
    var vals := init + [last];
    assert vals[|init|] == last;
    forall q | Holds(init, q) && Printable(q.key) ensures !WireEqual(q.key, last.key) {
      var k := HeldIsPut(init, q);
      assert vals[k] == init[k];
    }
  }

  lemma {:induction false} KeptPair(init: seq<Pair>, last: Pair, e: Pair)
    requires PrintableKeys(init) && Printable(last.key) && PrintableKeys(init + [last])
    requires Holds(init, e) && Printable(e.key) && !WireEqual(e.key, last.key)
    ensures Holds(init + [last], e)
  {
    var vals, n := init + [last], |init|;
    assert vals[..n] == init && vals[n] == last;
    var i: nat, j: nat :| Stands(init, i, j) && e == Pair(init[i].key, init[j].value);
    StandsBefore(vals, i, j);
    assert vals[i] == init[i] && vals[j] == init[j];
  }

  lemma {:induction false} ReplacedPair(init: seq<Pair>, last: Pair, q: Pair)
    requires PrintableKeys(init) && Printable(last.key) && PrintableKeys(init + [last])
    requires Holds(init, q) && Printable(q.key) && WireEqual(q.key, last.key)
    ensures Holds(init + [last], Pair(q.key, last.value))
  {
    var vals := init + [last];
    var i := HeldIsPut(init, q);
    assert vals[|init|] == last && vals[i] == init[i];
    forall k | 0 <= k < i ensures !WireEqual(vals[k].key, vals[i].key) {
      assert vals[k] == init[k];
    }
    assert Stands(vals, i, |init|);
  }

  lemma {:induction false} AddedPair(init: seq<Pair>, last: Pair)
    requires PrintableKeys(init) && Printable(last.key) && PrintableKeys(init + [last])
    requires forall q :: Holds(init, q) && Printable(q.key) ==> !WireEqual(q.key, last.key)
    ensures Holds(init + [last], last)
  {
    var vals, n := init + [last], |init|;
    assert vals[n] == last;
    forall k | 0 <= k < n ensures !WireEqual(vals[k].key, vals[n].key) {
      var q := HeldFor(init, k);
      assert vals[k] == init[k];
    }
    assert Stands(vals, n, n);
  }

  lemma {:induction false} ThenHolds(init: seq<Pair>, last: Pair, e: Pair)
    requires PrintableKeys(init) && Printable(last.key) && PrintableKeys(init + [last]) && HoldsAfter(init, last, e)
    ensures Holds(init + [last], e)
  {
    if Holds(init, e) && Printable(e.key) && !WireEqual(e.key, last.key) {
      KeptPair(init, last, e);
    } else if e == last && forall q :: Holds(init, q) && Printable(q.key) ==> !WireEqual(q.key, last.key) {
      AddedPair(init, last);
    } else {
      var q :| Holds(init, q) && Printable(q.key) && WireEqual(q.key, last.key) && e.key == q.key;
      ReplacedPair(init, last, q);
    }
  }

  lemma {:induction false} HoldsSnoc(vals: seq<Pair>, e: Pair)
    requires vals != [] && PrintableKeys(vals) && PrintableKeys(vals[..|vals| - 1])
    ensures vals[|vals| - 1] in vals
    ensures Holds(vals, e) <==> HoldsAfter(vals[..|vals| - 1], vals[|vals| - 1], e)
  {
    var init, last := vals[..|vals| - 1], vals[|vals| - 1];
    assert vals == init + [last] && last in vals;
    if Holds(vals, e) {
      HoldsThen(init, last, e);
    }
    if HoldsAfter(init, last, e) {
      ThenHolds(init, last, e);
    }
  }

  lemma {:induction false} PutPairsSnoc(vals: seq<Pair>, x: Pair)
    requires PrintableKeys(vals) && Printable(x.key)
    ensures PrintableKeys(vals + [x]) && PutPairs(vals + [x]) == InsertPair(PutPairs(vals), x.key, x.value)
  {
    assert (vals + [x])[..|vals|] == vals;
  }

  /** What the pairs parse to, one by one, when `n` words follow. */
  predicate PairOutcomes(w: World, pairs: seq<Pair>, n: nat, vals: seq<Pair>) {
    && |vals| == |pairs|
    && (pairs != [] ==>
          && PairOutcome(w, pairs[0], |PairsWords(pairs[1..])| + n, vals[0])
          && PairOutcomes(w, pairs[1..], n, vals[1..]))
  }

  /** The words of pairs, equal keys included, are read one by one and put into the map. */
  lemma {:induction false} PairsRun(w: World, pairs: seq<Pair>, done: seq<Pair>, tail: seq<string>)
    returns (vals: seq<Pair>)
    requires ExpressiblePairs(w.rounding, Loose, pairs) && PrintableKeys(done)
    ensures PrintableKeys(done + vals) && PairOutcomes(w, pairs, |tail|, vals)
    ensures ParsePairs(w, PairsWords(pairs) + tail, PutPairs(done)) == ParsePairs(w, tail, PutPairs(done + vals))
    decreases pairs
  {
    if pairs == [] {
      vals := [];
      assert PairsWords(pairs) + tail == tail && done + vals == done;
    } else {
      var value, more, m := pairs[0].value, PairsWords(pairs[1..]) + tail, |PairsWords(pairs[1..])| + |tail|;
      FirstPairWords(pairs, tail);
      OtherPairs(w, Loose, pairs);
      var x := ParsesPair(w, Loose, pairs[0], more, m);
      PairRuns(w, PairWords(pairs[0]) + more, done, x, Words(value) + more, more);
      var others := PairsRun(w, pairs[1..], done + [x], tail);
      vals := [x] + others;
      AppendCons(done, x, others);
      ConsPairOutcomes(w, pairs, |tail|, m, x, others);
    }
  }

  lemma {:induction false} PairRuns(w: World, ts: seq<string>, done: seq<Pair>, x: Pair, mid: seq<string>,
                                    rest: seq<string>)
    requires PrintableKeys(done) && Printable(x.key)
    requires ParseSingle(w, ts) == Done(Some(x.key), mid) && ParseSingle(w, mid) == Done(Some(x.value), rest)
    ensures PrintableKeys(done + [x])
    ensures ParsePairs(w, ts, PutPairs(done)) == ParsePairs(w, rest, PutPairs(done + [x]))
  {
    PairStep(w, ts, PutPairs(done), x.key, mid, x.value, rest);
    PutPairsSnoc(done, x);
  }

  lemma {:induction false} ConsPairOutcomes(w: World, pairs: seq<Pair>, n: nat, m: nat, x: Pair, others: seq<Pair>)
    requires pairs != [] && m == |PairsWords(pairs[1..])| + n
    requires PairOutcome(w, pairs[0], m, x) && PairOutcomes(w, pairs[1..], n, others)
    ensures PairOutcomes(w, pairs, n, [x] + others)
  {
    assert ([x] + others)[1..] == others;
  }

  /**
   * A map with any keys holds for each key text its first tree with its last value; it ends at `end`, or with the
   * line.
   */
  lemma MapHolds(w: World, pairs: seq<Pair>, tail: seq<string>, rest: seq<string>)
    returns (vals: seq<Pair>, got: seq<Pair>)
    requires ExpressiblePairs(w.rounding, Loose, pairs)
    requires (tail == [] && rest == []) || tail == ["end"] + rest
    ensures PrintableKeys(vals) && PairOutcomes(w, pairs, |tail|, vals)
    ensures ParseSingle(w, ["map"] + (PairsWords(pairs) + tail)) == Done(Some(Map(got)), rest)
    ensures Unequal(got) && forall e :: e in got <==> Holds(vals, e)
  {
    vals := PairsRun(w, pairs, [], tail);
    PrependNothing(vals);
    EndStops(w, rest);
    var held, ts := PutPairs(vals), PairsWords(pairs) + tail;
    PutPairsHolds(vals);
    MapStep(w, ts, held, rest);
    got := Ordered(w, |ts|, held);
    SamePairMembers(w, |ts|, held);
  }

  lemma {:induction false} SamePairMembers(w: World, start: nat, held: seq<Pair>)
    requires Unequal(held)
    ensures Unequal(Ordered(w, start, held)) && forall e :: e in Ordered(w, start, held) <==> e in held
  {
    var p, r := w.order(start, |held|), Ordered(w, start, held);
    assert forall i :: 0 <= i < |held| ==> r[i] == held[p[i]];
    forall e | e in held ensures e in r {
      var k :| 0 <= k < |held| && held[k] == e;
      assert k in p;
      var i :| 0 <= i < |p| && p[i] == k;
      assert r[i] == e;
    }
    assert PrintableKeys(r);
    forall i, j | 0 <= i < j < |r| ensures !WireEqual(r[i].key, r[j].key) {
      assert p[i] != p[j];
    }
  }

  lemma MapFailsWith(w: World, ts: seq<string>, error: Error)
    requires ParsePairs(w, ts, []) == Fail(error)
    ensures ParseSingle(w, ["map"] + ts) == Fail(error)
  {
    assert (["map"] + ts)[1..] == ts;
  }

  /** A key without a value fails a map; a key that cannot be printed stops the program. */
  lemma MapFails(w: World, pairs: seq<Pair>, ts: seq<string>, key: Elem, mid: seq<string>, rest: seq<string>)
    requires ExpressiblePairs(w.rounding, Loose, pairs) && ParseSingle(w, ts) == Done(Some(key), mid)
    requires ParseSingle(w, mid) == Done(None, rest)
             || (ParseSingle(w, mid).Done? && ParseSingle(w, mid).value.Some? && !Printable(key))
    ensures ParseSingle(w, ["map"] + (PairsWords(pairs) + ts)) == Fail(if Printable(key) then NoValue else Panicked)
  {
    var vals := PairsRun(w, pairs, [], ts);
    MapFailsWith(w, PairsWords(pairs) + ts, if Printable(key) then NoValue else Panicked);
  }

  // ---------------------------------------------------------------- lists

  /** A list too ends at `end` or with the line. */
  lemma ListHolds(w: World, es: seq<Elem>, tail: seq<string>, rest: seq<string>) returns (got: seq<Elem>)
    requires ExpressibleElems(w.rounding, Loose, es)
    requires (tail == [] && rest == []) || tail == ["end"] + rest
    ensures ElemsOutcome(w, es, |tail|, got)
    ensures ParseSingle(w, ["list"] + (ElemsWords(es) + tail)) == Done(Some(List(got)), rest)
  {
    EndStops(w, rest);
    got := ParsesElems(w, Loose, es, [], tail, rest);
    PrependNothing(got);
    ListStep(w, ElemsWords(es) + tail, got, rest);
  }
}

/** What the parser's results depend on besides the words: the rounding of numbers and the order of hash maps. */
module Worlds {
  import opened Prelude
  import opened ParcelStrings

  // ---------------------------------------------------------------- orders

  /** Each of the first `n` numbers once. */
  predicate IsPermutation(p: seq<nat>, n: nat) {
    && |p| == n
    && (forall i :: 0 <= i < n ==> p[i] < n)
    && (forall i, j :: 0 <= i < j < n ==> p[i] != p[j])
    && (forall k :: 0 <= k < n ==> k in p)
  }

  function Identity(n: nat): (p: seq<nat>)
    ensures IsPermutation(p, n)
  {
    var p: seq<nat> := seq(n, i => i);
    InIdentity(n, p);
    p
  }

  lemma InIdentity(n: nat, p: seq<nat>)
    requires |p| == n && forall i :: 0 <= i < n ==> p[i] == i
    ensures forall k :: 0 <= k < n ==> k in p
  {
    forall k | 0 <= k < n ensures k in p {
      assert p[k] == k;
    }
  }

  function Arrange<T>(p: seq<nat>, s: seq<T>): (r: seq<T>)
    requires IsPermutation(p, |s|)
    ensures |r| == |s|
  {
    seq(|s|, i requires 0 <= i < |s| => s[p[i]])
  }

  lemma ArrangeIdentity<T>(s: seq<T>)
    ensures Arrange(Identity(|s|), s) == s
  {
  }

  // ---------------------------------------------------------------- worlds

  /** Parsing a word as a number and printing that again. */
  datatype Printing = Printing(f64: string -> Option<FloatText>, f32: string -> Option<FloatText>)

  /** Printed numbers parse as themselves. */
  ghost predicate IsRounding(p: Printing) {
    && (forall s :: p.f64(s).Some? ==> p.f64(p.f64(s).value) == p.f64(s))
    && (forall s :: p.f32(s).Some? ==> p.f32(p.f32(s).value) == p.f32(s))
  }

  type Rounding = p: Printing | IsRounding(p) witness Printing(s => None, s => None)

  /**
   * `order(start, n)` is the iteration order of the hash map of `n` entries whose words begin with `start` words
   * left. Every map of a command line has a hash seed of its own, so the orders of two maps are unrelated.
   */
  datatype Oracle = Oracle(rounding: Rounding, order: (nat, nat) -> seq<nat>)

  ghost predicate IsWorld(o: Oracle) {
    forall start, n :: IsPermutation(o.order(start, n), n)
  }

  type World = o: Oracle | IsWorld(o)
    witness Oracle(Printing(s => None, s => None), (start, n) => Identity(n))

  /** The world in which every map is iterated in the order of insertion. */
  function InOrder(rounding: Rounding): World {
    Oracle(rounding, (start, n) => Identity(n))
  }

  function Ordered<T>(w: World, start: nat, s: seq<T>): (r: seq<T>)
    ensures |r| == |s|
  {
    Arrange(w.order(start, |s|), s)
  }

  lemma OrderedInOrder<T>(rounding: Rounding, start: nat, s: seq<T>)
    ensures Ordered(InOrder(rounding), start, s) == s
  {
    ArrangeIdentity(s);
  }

  // ---------------------------------------------------------------- the same value in another order

  /** Equal up to the order of the entries in each bundle and each map. */
  ghost predicate Same(a: Elem, b: Elem)
    decreases a
  {
    if !IsContainer(a) then a == b
    else
      match a
      case Bundle(v) => b.Bundle? && exists p :: SameEntries(v, b.entries, p)
      case Map(v) => b.Map? && exists p :: SamePairs(v, b.pairs, p)
      case List(v) => b.List? && SameElems(v, b.elems)
      case Complex(v) => b.Complex? && SameElems(v, b.parts)
      case Message(what, arg1, arg2, data) =>
        b.Message? && b.what == what && b.arg1 == arg1 && b.arg2 == arg2 && SameData(data, b.data)
  }

  ghost predicate SameData(a: Data, b: Data)
    decreases a
  {
    if a.NoData? then b.NoData? else b.Data? && exists p :: SameEntries(a.entries, b.entries, p)
  }

  ghost predicate SameElems(a: seq<Elem>, b: seq<Elem>)
    decreases a
  {
    |a| == |b| && forall i :: 0 <= i < |a| ==> Same(a[i], b[i])
  }

  ghost predicate SameEntry(a: Entry, b: Entry)
    decreases a
  {
    a.key == b.key && Same(a.value, b.value)
  }

  ghost predicate SameEntries(a: seq<Entry>, b: seq<Entry>, p: seq<nat>)
    decreases a
  {
    IsPermutation(p, |a|) && |b| == |a| && forall i :: 0 <= i < |a| ==> SameEntry(a[p[i]], b[i])
  }

  ghost predicate SamePair(a: Pair, b: Pair)
    decreases a
  {
    Same(a.key, b.key) && Same(a.value, b.value)
  }

  ghost predicate SamePairs(a: seq<Pair>, b: seq<Pair>, p: seq<nat>)
    decreases a
  {
    IsPermutation(p, |a|) && |b| == |a| && forall i :: 0 <= i < |a| ==> SamePair(a[p[i]], b[i])
  }

  // ---------------------------------------------------------------- and back again

  lemma Inverse(p: seq<nat>, n: nat) returns (q: seq<nat>)
    requires IsPermutation(p, n)
    ensures IsPermutation(q, n) && forall k :: 0 <= k < n ==> p[q[k]] == k
  {
    q := seq(n, k requires 0 <= k < n => IndexOf(p, k));
    assert forall k :: 0 <= k < n ==> p[q[k]] == k;
    forall i | 0 <= i < n ensures i in q {
      assert q[p[i]] == i;
    }
  }

  function IndexOf(p: seq<nat>, k: nat): (i: nat)
    requires k in p
    ensures i < |p| && p[i] == k
  {
    if p[0] == k then 0 else 1 + IndexOf(p[1..], k)
  }

  lemma {:induction false} SameSymmetric(a: Elem, b: Elem)
    requires Same(a, b)
    ensures Same(b, a)
    decreases a
  {
    if a.Bundle? {
      var p :| SameEntries(a.entries, b.entries, p);
      var q := SameEntriesSymmetric(a.entries, b.entries, p);
    } else if a.Map? {
      var p :| SamePairs(a.pairs, b.pairs, p);
      var q := SamePairsSymmetric(a.pairs, b.pairs, p);
    } else if a.List? {
      SameElemsSymmetric(a.elems, b.elems);
    } else if a.Complex? {
      SameElemsSymmetric(a.parts, b.parts);
    } else if a.Message? && a.data.Data? {
      assert SameData(a.data, b.data);
      var p :| SameEntries(a.data.entries, b.data.entries, p);
      var q := SameEntriesSymmetric(a.data.entries, b.data.entries, p);
      assert SameData(b.data, a.data);
    }
  }

  lemma {:induction false} SameElemsSymmetric(a: seq<Elem>, b: seq<Elem>)
    requires SameElems(a, b)
    ensures SameElems(b, a)
    decreases a
  {
    forall i | 0 <= i < |a| ensures Same(b[i], a[i]) {
      SameSymmetric(a[i], b[i]);
    }
  }

  lemma {:induction false} SameEntriesSymmetric(a: seq<Entry>, b: seq<Entry>, p: seq<nat>) returns (q: seq<nat>)
    requires SameEntries(a, b, p)
    ensures SameEntries(b, a, q)
    decreases a
  {
    q := Inverse(p, |a|);
    forall i | 0 <= i < |a| ensures SameEntry(b[q[i]], a[i]) {
      assert SameEntry(a[p[q[i]]], b[q[i]]);
      SameSymmetric(a[i].value, b[q[i]].value);
    }
  }

  lemma {:induction false} SamePairsSymmetric(a: seq<Pair>, b: seq<Pair>, p: seq<nat>) returns (q: seq<nat>)
    requires SamePairs(a, b, p)
    ensures SamePairs(b, a, q)
    decreases a
  {
    q := Inverse(p, |a|);
    forall i | 0 <= i < |a| ensures SamePair(b[q[i]], a[i]) {
      assert SamePair(a[p[q[i]]], b[q[i]]);
      SamePairSymmetric(a[i], b[q[i]]);
    }
  }

  lemma {:induction false} SamePairSymmetric(a: Pair, b: Pair)
    requires SamePair(a, b)
    ensures SamePair(b, a)
    decreases a
  {
    SameSymmetric(a.key, b.key);
    SameSymmetric(a.value, b.value);
  }

  // ---------------------------------------------------------------- reordering keeps what printing needs

  /** A condition on a value that does not look at orders. */
  ghost predicate OrderBlind(p: Elem -> bool) {
    forall a, b :: Same(a, b) && p(a) ==> p(b)
  }

  lemma {:induction false} EntriesIndexed(p: Elem -> bool, entries: seq<Entry>)
    ensures AllEntries(p, entries) <==> forall i :: 0 <= i < |entries| ==> All(p, entries[i].value)
  {
    if entries != [] {
      EntriesIndexed(p, entries[1..]);
      assert forall i :: 0 < i < |entries| ==> entries[i] == entries[1..][i - 1];
      assert forall i :: 0 <= i < |entries[1..]| ==> entries[1..][i] == entries[i + 1];
    }
  }

  lemma {:induction false} PairsIndexed(p: Elem -> bool, pairs: seq<Pair>)
    ensures AllPairs(p, pairs) <==> forall i :: 0 <= i < |pairs| ==> AllPair(p, pairs[i])
  {
    if pairs != [] {
      PairsIndexed(p, pairs[1..]);
      assert forall i :: 0 < i < |pairs| ==> pairs[i] == pairs[1..][i - 1];
      assert forall i :: 0 <= i < |pairs[1..]| ==> pairs[1..][i] == pairs[i + 1];
    }
  }

  lemma {:induction false} ElemsIndexed(p: Elem -> bool, es: seq<Elem>)
    ensures AllElems(p, es) <==> forall i :: 0 <= i < |es| ==> All(p, es[i])
  {
    if es != [] {
      ElemsIndexed(p, es[1..]);
      assert forall i :: 0 < i < |es| ==> es[i] == es[1..][i - 1];
      assert forall i :: 0 <= i < |es[1..]| ==> es[1..][i] == es[i + 1];
    }
  }

  /** An order-blind condition on all values inside survives reordering. */
  lemma {:induction false} SameAll(p: Elem -> bool, a: Elem, b: Elem)
    requires OrderBlind(p) && Same(a, b) && All(p, a)
    ensures All(p, b)
    decreases a
  {
    assert p(b);
    if a.Bundle? {
      var order :| SameEntries(a.entries, b.entries, order);
      SameAllEntries(p, a.entries, b.entries, order);
    } else if a.Map? {
      var order :| SamePairs(a.pairs, b.pairs, order);
      SameAllPairs(p, a.pairs, b.pairs, order);
    } else if a.List? {
      SameAllElems(p, a.elems, b.elems);
    } else if a.Complex? {
      SameAllElems(p, a.parts, b.parts);
    } else if a.Message? && a.data.Data? {
      assert SameData(a.data, b.data);
      var order :| SameEntries(a.data.entries, b.data.entries, order);
      SameAllEntries(p, a.data.entries, b.data.entries, order);
    }
  }

  lemma {:induction false} SameAllElems(p: Elem -> bool, a: seq<Elem>, b: seq<Elem>)
    requires OrderBlind(p) && SameElems(a, b) && AllElems(p, a)
    ensures AllElems(p, b)
    decreases a
  {
    ElemsIndexed(p, a);
    ElemsIndexed(p, b);
    forall i | 0 <= i < |b| ensures All(p, b[i]) {
      SameAll(p, a[i], b[i]);
    }
  }

  lemma {:induction false} SameAllEntries(p: Elem -> bool, a: seq<Entry>, b: seq<Entry>, order: seq<nat>)
    requires OrderBlind(p) && SameEntries(a, b, order) && AllEntries(p, a)
    ensures AllEntries(p, b)
    decreases a
  {
    EntriesIndexed(p, a);
    EntriesIndexed(p, b);
    forall i | 0 <= i < |b| ensures All(p, b[i].value) {
      SameAll(p, a[order[i]].value, b[i].value);
    }
  }

  lemma {:induction false} SameAllPairs(p: Elem -> bool, a: seq<Pair>, b: seq<Pair>, order: seq<nat>)
    requires OrderBlind(p) && SamePairs(a, b, order) && AllPairs(p, a)
    ensures AllPairs(p, b)
    decreases a
  {
    PairsIndexed(p, a);
    PairsIndexed(p, b);
    forall i | 0 <= i < |b| ensures AllPair(p, b[i]) {
      SameAllPair(p, a[order[i]], b[i]);
    }
  }

  lemma {:induction false} SameAllPair(p: Elem -> bool, a: Pair, b: Pair)
    requires OrderBlind(p) && SamePair(a, b) && AllPair(p, a)
    ensures AllPair(p, b)
    decreases a
  {
    SameAll(p, a.key, b.key);
    SameAll(p, a.value, b.value);
  }

  /** What can be printed, and what is safe to print, is so in every order. */
  lemma PrintingIsOrderBlind()
    ensures OrderBlind(HasData) && OrderBlind(HexIsHex)
  {
    forall a, b | Same(a, b) && HasData(a) ensures HasData(b) {
      assert a.Message? ==> SameData(a.data, b.data);
    }
  }

  lemma SamePrintable(a: Elem, b: Elem)
    requires Same(a, b) && Printable(a)
    ensures Printable(b)
  {
    PrintingIsOrderBlind();
    SameAll(HasData, a, b);
  }

  // ---------------------------------------------------------------- the number of map entries inside

  function Sum(s: seq<nat>): nat {
    if s == [] then 0 else s[0] + Sum(s[1..])
  }

  lemma {:induction false} SumAppend(a: seq<nat>, b: seq<nat>)
    ensures Sum(a + b) == Sum(a) + Sum(b)
  {
    if a == [] {
      assert a + b == b;
    } else {
      assert (a + b)[1..] == a[1..] + b;
      SumAppend(a[1..], b);
    }
  }

  lemma WithoutLast(p: seq<nat>, k: nat)
    requires k < |p| && IsPermutation(p, |p|) && p[k] == |p| - 1
    ensures IsPermutation(p[..k] + p[k + 1..], |p| - 1)
  {
    var q := p[..k] + p[k + 1..];
    forall i | 0 <= i < |q| ensures q[i] < |p| - 1 && q[i] == p[if i < k then i else i + 1] {
      assert p[if i < k then i else i + 1] != p[k];
    }
    forall m | 0 <= m < |p| - 1 ensures m in q {
      assert m in p;
      var i :| 0 <= i < |p| && p[i] == m;
      assert q[if i < k then i else i - 1] == m;
    }
  }

  /** Rearranging numbers keeps their sum. */
  lemma {:induction false} SumArrange(p: seq<nat>, s: seq<nat>)
    requires IsPermutation(p, |s|)
    ensures Sum(Arrange(p, s)) == Sum(s)
    decreases |s|
  {
    if s != [] {
      var n := |s| - 1;
      assert n in p;
      var k :| 0 <= k < |p| && p[k] == n;
      var q, r := p[..k] + p[k + 1..], Arrange(p, s);
      WithoutLast(p, k);
      SumArrange(q, s[..n]);
      assert Arrange(q, s[..n]) == r[..k] + r[k + 1..];
      SumWithout(r, k);
      SumWithout(s, n);
      assert s[..n] + s[n + 1..] == s[..n];
    }
  }

  lemma SumWithout(s: seq<nat>, k: nat)
    requires k < |s|
    ensures Sum(s) == Sum(s[..k] + s[k + 1..]) + s[k]
  {
    assert s == s[..k] + ([s[k]] + s[k + 1..]);
    SumAppend(s[..k], [s[k]] + s[k + 1..]);
    SumAppend([s[k]], s[k + 1..]);
    SumAppend(s[..k], s[k + 1..]);
  }

  function Size(e: Elem): nat
    decreases e
  {
    if e.Bundle? then Sum(EntrySizes(e.entries))
    else if e.Map? then Sum(PairSizes(e.pairs))
    else if e.List? then Sum(ElemSizes(e.elems))
    else if e.Complex? then Sum(ElemSizes(e.parts))
    else if e.Message? then DataSize(e.data)
    else 0
  }

  function DataSize(data: Data): nat
    decreases data
  {
    if data.Data? then Sum(EntrySizes(data.entries)) else 0
  }

  function ElemSizes(es: seq<Elem>): (r: seq<nat>)
    ensures |r| == |es|
    decreases es
  {
    if es == [] then [] else [Size(es[0])] + ElemSizes(es[1..])
  }

  function EntrySize(entry: Entry): nat
    decreases entry
  {
    Size(entry.value)
  }

  function EntrySizes(entries: seq<Entry>): (r: seq<nat>)
    ensures |r| == |entries|
    decreases entries
  {
    if entries == [] then [] else [EntrySize(entries[0])] + EntrySizes(entries[1..])
  }

  function PairSize(pair: Pair): nat
    decreases pair
  {
    1 + Size(pair.key) + Size(pair.value)
  }

  function PairSizes(pairs: seq<Pair>): (r: seq<nat>)
    ensures |r| == |pairs|
    decreases pairs
  {
    if pairs == [] then [] else [PairSize(pairs[0])] + PairSizes(pairs[1..])
  }

  lemma {:induction false} ElemSizesAt(es: seq<Elem>, i: nat)
    requires i < |es|
    ensures ElemSizes(es)[i] == Size(es[i])
  {
    if i > 0 {
      ElemSizesAt(es[1..], i - 1);
    }
  }

  lemma {:induction false} EntrySizesAt(entries: seq<Entry>, i: nat)
    requires i < |entries|
    ensures EntrySizes(entries)[i] == EntrySize(entries[i])
  {
    if i > 0 {
      EntrySizesAt(entries[1..], i - 1);
    }
  }

  lemma {:induction false} PairSizesAt(pairs: seq<Pair>, i: nat)
    requires i < |pairs|
    ensures PairSizes(pairs)[i] == PairSize(pairs[i])
  {
    if i > 0 {
      PairSizesAt(pairs[1..], i - 1);
    }
  }

  lemma ArrangedEntrySizes(p: seq<nat>, entries: seq<Entry>)
    requires IsPermutation(p, |entries|)
    ensures Sum(EntrySizes(Arrange(p, entries))) == Sum(EntrySizes(entries))
  {
    forall i | 0 <= i < |entries|
      ensures EntrySizes(Arrange(p, entries))[i] == Arrange(p, EntrySizes(entries))[i]
    {
      EntrySizesAt(Arrange(p, entries), i);
      EntrySizesAt(entries, p[i]);
    }
    assert EntrySizes(Arrange(p, entries)) == Arrange(p, EntrySizes(entries));
    SumArrange(p, EntrySizes(entries));
  }

  lemma ArrangedPairSizes(p: seq<nat>, pairs: seq<Pair>)
    requires IsPermutation(p, |pairs|)
    ensures Sum(PairSizes(Arrange(p, pairs))) == Sum(PairSizes(pairs))
  {
    forall i | 0 <= i < |pairs| ensures PairSizes(Arrange(p, pairs))[i] == Arrange(p, PairSizes(pairs))[i] {
      PairSizesAt(Arrange(p, pairs), i);
      PairSizesAt(pairs, p[i]);
    }
    assert PairSizes(Arrange(p, pairs)) == Arrange(p, PairSizes(pairs));
    SumArrange(p, PairSizes(pairs));
  }

  /** Values that differ in orders only hold as many map entries. */
  lemma {:induction false} SameSize(a: Elem, b: Elem)
    requires Same(a, b)
    ensures Size(a) == Size(b)
    decreases a
  {
    if a.Bundle? {
      var p :| SameEntries(a.entries, b.entries, p);
      SameEntrySizes(a.entries, b.entries, p);
    } else if a.Map? {
      var p :| SamePairs(a.pairs, b.pairs, p);
      SamePairSizes(a.pairs, b.pairs, p);
    } else if a.List? {
      SameElemSizes(a.elems, b.elems);
    } else if a.Complex? {
      SameElemSizes(a.parts, b.parts);
    } else if a.Message? && a.data.Data? {
      assert SameData(a.data, b.data);
      var p :| SameEntries(a.data.entries, b.data.entries, p);
      SameEntrySizes(a.data.entries, b.data.entries, p);
    }
  }

  lemma {:induction false} SameElemSizes(a: seq<Elem>, b: seq<Elem>)
    requires SameElems(a, b)
    ensures ElemSizes(a) == ElemSizes(b)
    decreases a
  {
    forall i | 0 <= i < |a| ensures ElemSizes(a)[i] == ElemSizes(b)[i] {
      SameSize(a[i], b[i]);
      ElemSizesAt(a, i);
      ElemSizesAt(b, i);
    }
  }

  lemma {:induction false} SameEntrySizes(a: seq<Entry>, b: seq<Entry>, p: seq<nat>)
    requires SameEntries(a, b, p)
    ensures Sum(EntrySizes(a)) == Sum(EntrySizes(b))
    decreases a
  {
    forall i | 0 <= i < |a| ensures EntrySizes(b)[i] == Arrange(p, EntrySizes(a))[i] {
      SameEntrySize(a[p[i]], b[i]);
      EntrySizesAt(a, p[i]);
      EntrySizesAt(b, i);
    }
    assert EntrySizes(b) == Arrange(p, EntrySizes(a));
    SumArrange(p, EntrySizes(a));
  }

  lemma {:induction false} SameEntrySize(a: Entry, b: Entry)
    requires SameEntry(a, b)
    ensures EntrySize(a) == EntrySize(b)
    decreases a
  {
    SameSize(a.value, b.value);
  }

  lemma {:induction false} SamePairSizes(a: seq<Pair>, b: seq<Pair>, p: seq<nat>)
    requires SamePairs(a, b, p)
    ensures Sum(PairSizes(a)) == Sum(PairSizes(b))
    decreases a
  {
    forall i | 0 <= i < |a| ensures PairSizes(b)[i] == Arrange(p, PairSizes(a))[i] {
      SamePairSize(a[p[i]], b[i]);
      PairSizesAt(a, p[i]);
      PairSizesAt(b, i);
    }
    assert PairSizes(b) == Arrange(p, PairSizes(a));
    SumArrange(p, PairSizes(a));
  }

  lemma {:induction false} SamePairSize(a: Pair, b: Pair)
    requires SamePair(a, b)
    ensures PairSize(a) == PairSize(b)
    decreases a
  {
    SameSize(a.key, b.key);
    SameSize(a.value, b.value);
  }
}

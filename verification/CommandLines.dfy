/** Whole command lines of parcel and intent strings: exactly which lists of values their words parse back to. */
module CommandLines {
  import opened Prelude
  import opened ParcelStrings
  import opened Worlds
  import opened ParcelWords
  import opened ParcelParser
  import opened ParcelGrammar

  // ---------------------------------------------------------------- parcel strings

  /** The words of values that can be spelled but for their map keys parse to the end of the line. */
  lemma LineParses(w: World, es: seq<Elem>) returns (got: seq<Elem>)
    requires ExpressibleElems(w.rounding, Loose, es)
    ensures ParseElems(w, ElemsWords(es), []) == Done(got, []) && ElemsOutcome(w, es, 0, got)
  {
    got := ParsesElems(w, Loose, es, [], [], []);
    PrependNothing(got);
    assert ElemsWords(es) + [] == ElemsWords(es);
  }

  /** A stray `end` cuts the line short: what stands behind it is not read. */
  lemma StrayEndStops(w: World, es: seq<Elem>, rest: seq<string>) returns (got: seq<Elem>)
    requires ExpressibleElems(w.rounding, Loose, es)
    ensures ParseElems(w, ElemsWords(es) + (["end"] + rest), []) == Done(got, rest)
    ensures ElemsOutcome(w, es, 1 + |rest|, got)
  {
    EndStops(w, rest);
    got := ParsesElems(w, Loose, es, [], ["end"] + rest, rest);
    PrependNothing(got);
  }

  ghost predicate LineGivesBack(w: World, es: seq<Elem>) {
    exists got :: ParseElems(w, ElemsWords(es), []) == Done(got, []) && SameElems(es, got)
  }

  lemma ElemsLoosely(f: Rounding, xs: seq<Elem>, es: seq<Elem>)
    requires SameElems(es, xs) && ExpressibleElems(f, Given, xs)
    ensures ExpressibleElems(f, Loose, es)
  {
    forall i | 0 <= i < |es| ensures Expressible(f, Loose, es[i]) {
      SameSymmetric(es[i], xs[i]);
      ExpressibleLoosely(f, xs[i], es[i]);
    }
  }

  lemma ArrangedElemsAreSame(w: World, es: seq<Elem>, n: nat)
    ensures SameElems(es, ArrangedElems(w, es, n))
  {
    ArrangedElemsCome(w, Loose, es, n);
    var got := ArrangedElems(w, es, n);
    assert forall i :: 0 <= i < |es| ==> Comes(Loose, es[i], got[i]);
  }

  /**
   * In each world, the words of a list of values parse back to it, up to the order of the maps inside, and use up the
   * line, exactly when each value can be spelled and no two keys of a map print alike in the orders of this world.
   */
  lemma LineParsesBack(w: World, es: seq<Elem>)
    ensures LineGivesBack(w, es) <==> ExpressibleElems(w.rounding, Loose, es) && KeysApartElems(w, es, 0)
  {
    if ExpressibleElems(w.rounding, Loose, es) && KeysApartElems(w, es, 0) {
      var got := LineParses(w, es);
      ArrangedElemsAreSame(w, es, 0);
    }
    if LineGivesBack(w, es) {
      var xs :| ParseElems(w, ElemsWords(es), []) == Done(xs, []) && SameElems(es, xs);
      ElemsOutputExpressible(w, ElemsWords(es), []);
      ElemsLoosely(w.rounding, xs, es);
      var got := LineParses(w, es);
      SameElemSizes(es, xs);
    }
  }

  // ---------------------------------------------------------------- intent strings

  lemma IntentStep(w: World, key: string, ts: seq<string>, acc: seq<Entry>, v: Elem, rest: seq<string>)
    requires ParseSingle(w, ts) == Done(Some(v), rest)
    ensures ParseIntentWords(w, [key] + ts, acc) == ParseIntentWords(w, rest, acc + [Entry(key, v)])
  {
    assert ([key] + ts)[1..] == ts;
  }

  lemma {:induction false} ParsesIntentWords(w: World, values: seq<Entry>, acc: seq<Entry>, tail: seq<string>)
    returns (got: seq<Entry>)
    requires ExpressibleEntries(w.rounding, Loose, values)
    ensures ParseIntentWords(w, EntriesWords(values) + tail, acc) == ParseIntentWords(w, tail, acc + got)
    ensures EntriesOutcome(w, values, |tail|, got)
    decreases values
  {
    if values == [] {
      got := [];
      assert acc + got == acc && EntriesWords(values) + tail == tail;
    } else {
      var key, value, more := values[0].key, values[0].value, EntriesWords(values[1..]) + tail;
      FirstEntryWords(values, tail);
      OtherEntries(w, Loose, values);
      var first := ParsesLoosely(w, Loose, value, more);
      IntentStep(w, key, Words(value) + more, acc, first, more);
      var others := ParsesIntentWords(w, values[1..], acc + [Entry(key, first)], tail);
      got := [Entry(key, first)] + others;
      AppendCons(acc, Entry(key, first), others);
      ConsEntriesOutcome(w, values, |tail|, |more|, Entry(key, first), others);
    }
  }

  /** A last key without a value, or with the word `end` behind it, fails the intent string. */
  lemma IntentLineFails(w: World, values: seq<Entry>, key: string, rest: seq<string>)
    requires ExpressibleEntries(w.rounding, Loose, values)
    ensures ParseIntentWords(w, EntriesWords(values) + [key], []) == Fail(NoValue)
    ensures ParseIntentWords(w, EntriesWords(values) + ([key, "end"] + rest), []) == Fail(NoValue)
  {
    var one := ParsesIntentWords(w, values, [], [key]);
    assert [key][1..] == [];
    var two := ParsesIntentWords(w, values, [], [key, "end"] + rest);
    assert ([key, "end"] + rest)[1..] == ["end"] + rest;
    EndStops(w, rest);
  }

  /** Whatever the keys are, `end` and repeated ones included. */
  lemma IntentLineParses(w: World, values: seq<Entry>) returns (got: seq<Entry>)
    requires ExpressibleEntries(w.rounding, Loose, values)
    ensures ParseIntentWords(w, EntriesWords(values), []) == Done(got, []) && EntriesOutcome(w, values, 0, got)
  {
    got := ParsesIntentWords(w, values, [], []);
    PrependNothing(got);
    assert EntriesWords(values) + [] == EntriesWords(values);
  }

  ghost predicate IntentLineGivesBack(w: World, values: seq<Entry>) {
    exists got :: ParseIntentWords(w, EntriesWords(values), []) == Done(got, []) && EntriesCome(Loose, values, got)
  }

  lemma {:induction false} IntentOutputExpressible(w: World, ts: seq<string>, acc: seq<Entry>)
    requires ExpressibleEntries(w.rounding, Given, acc)
    ensures var r := ParseIntentWords(w, ts, acc); r.Done? ==> ExpressibleEntries(w.rounding, Given, r.value)
    decreases |ts|
  {
    if ts != [] {
      OutputExpressible(w, ts[1..]);
      var r := ParseSingle(w, ts[1..]);
      if r.Done? && r.value.Some? {
        IntentOutputExpressible(w, r.rest, acc + [Entry(ts[0], r.value.value)]);
      }
    }
  }

  lemma EntriesAreLoose(f: Rounding, xs: seq<Entry>, values: seq<Entry>)
    requires EntriesCome(Loose, values, xs) && ExpressibleEntries(f, Given, xs)
    ensures ExpressibleEntries(f, Loose, values)
  {
    forall i | 0 <= i < |values| ensures Expressible(f, Loose, values[i].value) {
      assert EntryComes(Loose, values[i], xs[i]);
      SameSymmetric(values[i].value, xs[i].value);
      ExpressibleLoosely(f, xs[i].value, values[i].value);
    }
  }

  lemma ComingEntriesSize(a: seq<Entry>, b: seq<Entry>)
    requires EntriesCome(Loose, a, b)
    ensures Sum(EntrySizes(a)) == Sum(EntrySizes(b))
  {
    var p := Identity(|a|);
    forall i | 0 <= i < |a| ensures SameEntry(a[p[i]], b[i]) {
      assert EntryComes(Loose, a[i], b[i]);
    }
    SameEntrySizes(a, b, p);
  }

  /** The same for intent strings, whose entries keep their order. */
  lemma IntentLineParsesBack(w: World, values: seq<Entry>)
    ensures IntentLineGivesBack(w, values)
            <==> ExpressibleEntries(w.rounding, Loose, values) && KeysApartEntries(w, values, 0)
  {
    if ExpressibleEntries(w.rounding, Loose, values) && KeysApartEntries(w, values, 0) {
      var got := IntentLineParses(w, values);
      ArrangedEntriesCome(w, Loose, values, 0);
    }
    if IntentLineGivesBack(w, values) {
      var xs :| ParseIntentWords(w, EntriesWords(values), []) == Done(xs, []) && EntriesCome(Loose, values, xs);
      IntentOutputExpressible(w, EntriesWords(values), []);
      EntriesAreLoose(w.rounding, xs, values);
      var got := IntentLineParses(w, values);
      ComingEntriesSize(values, xs);
    }
  }
}

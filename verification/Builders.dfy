/** The builders `ParcelString` and `IntentString`, and what their output splits into. */
module Builders {
  import opened Prelude
  import opened Wire
  import opened Escape
  import opened ParcelStrings

  /** What a builder has written so far grows by the next text, and a comma if there are more. */
  lemma JoinFirst(acc: string, rest: seq<string>)
    requires rest != []
    ensures (if |rest| > 1 then acc + rest[0] + [','] else acc + rest[0]) + Join(",", rest[1..])
            == acc + Join(",", rest)
  {
    assert [','] == ",";
    if |rest| > 1 {
      Reassociate(acc, rest[0], ",", Join(",", rest[1..]));
    } else {
      assert acc + rest[0] + "" == acc + rest[0];
    }
  }

  lemma Reassociate(a: string, b: string, c: string, d: string)
    ensures a + b + c + d == a + (b + c + d)
  {
  }

  class ParcelString {
    var elems: seq<Elem>

    constructor ()
      ensures elems == []
    {
      elems := [];
    }

    method Push(e: Elem)
      modifies this
      ensures elems == old(elems) + [e]
    {
      elems := elems + [e];
    }

    method Clear()
      modifies this
      ensures elems == []
    {
      elems := [];
    }

    /** None models the panics: `len() - 1` on an empty list, here or in the bundle of a message. */
    method BuildTo(into: string) returns (r: Option<string>)
      ensures r == if elems == [] || !AllElems(HasData, elems) then None
                   else Some(into + Join(",", ShowElems(elems)))
    {
      if |elems| == 0 {
        return None;
      }
      var last := |elems| - 1;
      var acc := into;
      for i := 0 to |elems|
        invariant AllElems(HasData, elems) <==> AllElems(HasData, elems[i..])
        invariant AllElems(HasData, elems) ==>
                    acc + Join(",", ShowElems(elems[i..])) == into + Join(",", ShowElems(elems))
      {
        assert elems[i..][0] == elems[i] && elems[i..][1..] == elems[i + 1..];
        if !Printable(elems[i]) {
          return None;
        }
        var grown := acc + Show(elems[i]);
        if i < last {
          grown := grown + [','];
        }
        if AllElems(HasData, elems) {
          ghost var rest := ShowElems(elems[i..]);
          assert rest[0] == Show(elems[i]) && rest[1..] == ShowElems(elems[i + 1..]);
          JoinFirst(acc, rest);
        }
        acc := grown;
      }
      assert acc + "" == acc;
      return Some(acc);
    }
  }

  class IntentString {
    var values: seq<Entry>

    constructor ()
      ensures values == []
    {
      values := [];
    }

    method Push(key: string, value: Elem)
      modifies this
      ensures values == old(values) + [Entry(key, value)]
    {
      values := values + [Entry(key, value)];
    }

    method BuildTo(into: string) returns (r: Option<string>)
      ensures r == if values == [] || !AllEntries(HasData, values) then None
                   else Some(into + Join(",", ShowEntries('>', values)))
    {
      if |values| == 0 {
        return None;
      }
      var last := |values| - 1;
      var acc := into;
      for i := 0 to |values|
        invariant AllEntries(HasData, values) <==> AllEntries(HasData, values[i..])
        invariant AllEntries(HasData, values) ==>
                    acc + Join(",", ShowEntries('>', values[i..])) == into + Join(",", ShowEntries('>', values))
      {
        assert values[i..][0] == values[i] && values[i..][1..] == values[i + 1..];
        if !Printable(values[i].value) {
          return None;
        }
        var grown := acc + (EscapeString(values[i].key) + ['>'] + Show(values[i].value));
        if i < last {
          grown := grown + [','];
        }
        if AllEntries(HasData, values) {
          ghost var rest := ShowEntries('>', values[i..]);
          assert rest[0] == ShowEntry('>', values[i]) && rest[1..] == ShowEntries('>', values[i + 1..]);
          JoinFirst(acc, rest);
        }
        acc := grown;
      }
      assert acc + "" == acc;
      return Some(acc);
    }
  }

  /** Splitting a text at its unescaped separators, escapes kept. */
  function Pieces(sep: char, s: string): seq<string> {
    RenderAll(SplitOn(Bare(sep), Lex(s)))
  }

  /** A parcel string splits at unescaped commas into exactly the texts of its values, at any nesting depth. */
  lemma {:induction false} BuildSplits(es: seq<Elem>)
    requires es != [] && AllElems(HasData, es) && AllElems(HexIsHex, es)
    ensures var s := Join(",", ShowElems(es));
            Neutral(Lex(s)) && Pieces(',', s) == ShowElems(es)
  {
    ShowElemsIsUnits(es);
    ElemsQuiet(es);
    var uss := ElemsUnits(es);
    RenderJoin(',', uss);
    assert [','] == ",";
    SplitJoin(Bare(','), uss);
    AvoidsJoin({BACKSLASH}, ',', uss);
    assert BACKSLASH in {BACKSLASH};
    LexOfRender(Join([Bare(',')], uss));
  }

  lemma TwoPieces(a: string, b: string)
    requires IsInertText(a) && IsInertText(b)
    ensures Pieces(',', a + [','] + b) == [a, b]
  {
    var left, right := Bares(a), Bares(b);
    InertBares(a);
    InertBares(b);
    assert BACKSLASH in SPECIAL && ',' in SPECIAL;
    RenderAround(left, ',', right);
    RenderBares(a);
    RenderBares(b);
    LexOfRender(left + [Bare(',')] + right);
    SplitAtDelimiter(Bare(','), left, right);
    SplitFree(Bare(','), left);
    SplitFree(Bare(','), right);
    assert RenderAll([left, right]) == [Render(left)] + RenderAll([right]);
  }

  /** What the condition on hex byte arrays excludes: their text is not escaped, so a comma in it adds a value. */
  lemma HexTextIsNotEscaped(a: string, b: string)
    requires IsInertText(a) && IsInertText(b)
    ensures Pieces(',', Show(HexByteArray(a + "," + b))) == ["BARR" + a, b]
  {
    TwoPieces("BARR" + a, b);
    assert Show(HexByteArray(a + "," + b)) == "BARR" + a + [','] + b;
  }

  /** A reader of intent strings: split at unescaped commas, then each piece at its first unescaped `>`. */
  function ReadIntent(s: string): seq<(Option<string>, string)> {
    ReadPieces(SplitOn(Bare(','), Lex(s)))
  }

  function ReadPieces(pieces: seq<seq<Unit>>): seq<(Option<string>, string)> {
    if pieces == [] then []
    else [(Unescape(Render(UpTo('>', pieces[0]))), Render(After('>', pieces[0])))] + ReadPieces(pieces[1..])
  }

  function Shown(values: seq<Entry>): seq<(Option<string>, string)>
    requires AllEntries(HasData, values)
  {
    if values == [] then [] else [(Some(values[0].key), Show(values[0].value))] + Shown(values[1..])
  }

  /** Every key and every value text comes back, in order, repeated keys included. */
  lemma {:induction false} IntentReadsBack(values: seq<Entry>)
    requires values != [] && AllEntries(HasData, values) && AllEntries(HexIsHex, values)
    ensures ReadIntent(Join(",", ShowEntries('>', values))) == Shown(values)
  {
    ShowEntriesIsUnits('>', values);
    IntentEntriesSafe(values);
    var uss := EntriesUnits('>', values);
    RenderJoin(',', uss);
    assert [','] == ",";
    SplitJoin(Bare(','), uss);
    AvoidsJoin({BACKSLASH}, ',', uss);
    assert BACKSLASH in {BACKSLASH};
    LexOfRender(Join([Bare(',')], uss));
    ReadsEntries(values);
  }

  lemma {:induction false} IntentEntriesSafe(values: seq<Entry>)
    requires AllEntries(HexIsHex, values)
    ensures forall us :: us in EntriesUnits('>', values) ==> Bare(',') !in us && Avoids({BACKSLASH}, us)
  {
    if values != [] {
      TextAvoids(values[0].key);
      UnitsQuiet(values[0].value);
      AvoidsAround({',', BACKSLASH}, TextUnits(values[0].key), '>', Units(values[0].value));
      assert ',' in {',', BACKSLASH} && BACKSLASH in {',', BACKSLASH};
      IntentEntriesSafe(values[1..]);
    }
  }

  lemma {:induction false} ReadsEntries(values: seq<Entry>)
    requires AllEntries(HasData, values)
    ensures ReadPieces(EntriesUnits('>', values)) == Shown(values)
  {
    if values != [] {
      var key, value := TextUnits(values[0].key), Units(values[0].value);
      TextUnitsSafe(values[0].key);
      UpToAppend('>', key, value);
      UnescapeStripped({}, values[0].key);
      StripNothing(key);
      ShowIsUnits(values[0].value);
      ReadsEntries(values[1..]);
    }
  }
}

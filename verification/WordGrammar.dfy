/** What `split` accepts and returns, told by the shape of the line instead of by the automaton. */
module WordGrammar {
  import opened Prelude
  import opened ShellWords

  // ---------------------------------------------------------------- the shape of a line

  /** One character of a word, written as it is or behind a backslash. */
  datatype Letter = Plain(c: char) | Escaped(c: char)

  datatype Quote = NoQuote | InSingle | InDouble

  /** A word: letters outside quotes, then perhaps a quoted stretch, whose closing quote ends it. */
  datatype Token = Token(outside: seq<Letter>, quote: Quote, inside: seq<Letter>)

  /** White space and the word behind it. */
  datatype Piece = Piece(gap: string, token: Token)

  /** The characters that stand for themselves, by where they are. */
  predicate Fits(q: Quote, l: Letter) {
    l.Plain? ==>
      match q
      case NoQuote => !IsWhitespace(l.c) && l.c != '\'' && l.c != '\"' && l.c != '\\'
      case InSingle => l.c != '\'' && l.c != '\\'
      case InDouble => l.c != '\"' && l.c != '\\'
  }

  predicate AllFit(q: Quote, ls: seq<Letter>) {
    forall i :: 0 <= i < |ls| ==> Fits(q, ls[i])
  }

  predicate IsGap(s: string) {
    forall i :: 0 <= i < |s| ==> IsWhitespace(s[i])
  }

  predicate IsToken(t: Token) {
    && AllFit(NoQuote, t.outside) && AllFit(t.quote, t.inside)
    && (t.quote.NoQuote? ==> t.outside != [] && t.inside == [])
  }

  /** Behind a word without quotes there is white space before the next one; `open` says that one stands before. */
  predicate IsLine(pieces: seq<Piece>, open: bool) {
    pieces != [] ==>
      && IsGap(pieces[0].gap) && IsToken(pieces[0].token) && (open ==> pieces[0].gap != "")
      && IsLine(pieces[1..], pieces[0].token.quote.NoQuote?)
  }

  /** The code points with the property White_Space in the Unicode Character Database. */
  const WHITE_SPACE: set<int> := {
    0x9, 0xA, 0xB, 0xC, 0xD, 0x20, 0x85, 0xA0, 0x1680, 0x2000, 0x2001, 0x2002, 0x2003, 0x2004, 0x2005, 0x2006, 0x2007,
    0x2008, 0x2009, 0x200A, 0x2028, 0x2029, 0x202F, 0x205F, 0x3000
  }

  lemma WhitespaceIs(c: char)
    ensures IsWhitespace(c) <==> c as int in WHITE_SPACE
  {
  }

  // ---------------------------------------------------------------- its text and its words

  function LetterText(l: Letter): string {
    if l.Plain? then [l.c] else ['\\', l.c]
  }

  function LettersText(ls: seq<Letter>): string {
    if ls == [] then "" else LetterText(ls[0]) + LettersText(ls[1..])
  }

  function QuoteText(q: Quote): string {
    match q case NoQuote => "" case InSingle => "\'" case InDouble => "\""
  }

  function TokenText(t: Token): string {
    LettersText(t.outside) + (QuoteText(t.quote) + (LettersText(t.inside) + QuoteText(t.quote)))
  }

  function LineText(pieces: seq<Piece>): string {
    if pieces == [] then "" else pieces[0].gap + (TokenText(pieces[0].token) + LineText(pieces[1..]))
  }

  function Chars(ls: seq<Letter>): (s: string)
    ensures |s| == |ls|
  {
    seq(|ls|, i requires 0 <= i < |ls| => ls[i].c)
  }

  function WordOf(t: Token): string {
    Chars(t.outside) + Chars(t.inside)
  }

  function WordsOf(pieces: seq<Piece>): (ws: seq<string>)
    ensures |ws| == |pieces| && forall i :: 0 <= i < |pieces| ==> ws[i] == WordOf(pieces[i].token)
  {
    seq(|pieces|, i requires 0 <= i < |pieces| => WordOf(pieces[i].token))
  }

  lemma Assoc(a: string, b: string, c: string)
    ensures a + (b + c) == a + b + c
  {
  }

  // ---------------------------------------------------------------- the automaton on such a line

  lemma {:induction false} RunAppend(st: State, a: string, b: string)
    ensures Run(st, a + b) == Run(Run(st, a), b)
    decreases |a|
  {
    if a == "" {
      assert a + b == b;
    } else {
      assert (a + b)[1..] == a[1..] + b;
      RunAppend(Step(st, a[0]), a[1..], b);
    }
  }

  /** The state in or outside a quoted stretch. */
  function At(q: Quote, into: string, words: seq<string>): State {
    State(false, q.InSingle?, q.InDouble?, into, words)
  }

  lemma RunLetter(q: Quote, into: string, words: seq<string>, l: Letter)
    requires Fits(q, l)
    ensures Run(At(q, into, words), LetterText(l)) == At(q, into + [l.c], words)
  {
    var st := At(q, into, words);
    if l.Plain? {
      assert Run(Step(st, l.c), "") == Step(st, l.c);
    } else {
      var escaped := Step(st, '\\');
      assert LetterText(l)[1..] == [l.c] && [l.c][1..] == "";
      assert Run(st, LetterText(l)) == Run(escaped, [l.c]);
      assert Run(escaped, [l.c]) == Run(Step(escaped, l.c), "");
    }
  }

  lemma {:induction false} RunLetters(q: Quote, into: string, words: seq<string>, ls: seq<Letter>)
    requires AllFit(q, ls)
    ensures Run(At(q, into, words), LettersText(ls)) == At(q, into + Chars(ls), words)
    decreases |ls|
  {
    if ls == [] {
      assert into + Chars(ls) == into;
    } else {
      RunLetter(q, into, words, ls[0]);
      RunAppend(At(q, into, words), LetterText(ls[0]), LettersText(ls[1..]));
      RunLetters(q, into + [ls[0].c], words, ls[1..]);
      assert into + [ls[0].c] + Chars(ls[1..]) == into + Chars(ls);
    }
  }

  lemma RunQuote(q: Quote, into: string, words: seq<string>)
    requires !q.NoQuote?
    ensures Run(At(NoQuote, into, words), QuoteText(q)) == At(q, into, words)
    ensures Run(At(q, into, words), QuoteText(q)) == At(NoQuote, "", words + [into])
  {
    var c := QuoteText(q)[0];
    assert QuoteText(q) == [c] && [c][1..] == "";
    assert Run(At(NoQuote, into, words), [c]) == Step(At(NoQuote, into, words), c);
    assert Run(At(q, into, words), [c]) == Step(At(q, into, words), c);
  }

  /** The finished words together with a pending one. */
  function Flushed(into: string, words: seq<string>): seq<string> {
    if into == "" then words else words + [into]
  }

  lemma {:induction false} RunGap(into: string, words: seq<string>, gap: string)
    requires IsGap(gap)
    ensures Run(At(NoQuote, into, words), gap)
            == if gap == "" then At(NoQuote, into, words) else At(NoQuote, "", Flushed(into, words))
    decreases |gap|
  {
    if gap != "" {
      assert IsWhitespace(gap[0]);
      assert !IsWhitespace('\'') && !IsWhitespace('\"') && !IsWhitespace('\\');
      assert Step(At(NoQuote, into, words), gap[0]) == At(NoQuote, "", Flushed(into, words));
      RunGap("", Flushed(into, words), gap[1..]);
    }
  }

  /** What is open after a token: its word, when no closing quote has finished it. */
  function Pending(t: Token): string {
    if t.quote.NoQuote? then WordOf(t) else ""
  }

  lemma RunToken(words: seq<string>, t: Token)
    requires IsToken(t)
    ensures Run(At(NoQuote, "", words), TokenText(t))
            == At(NoQuote, Pending(t), if t.quote.NoQuote? then words else words + [WordOf(t)])
  {
    var start, out := At(NoQuote, "", words), Chars(t.outside);
    var q, inner := QuoteText(t.quote), LettersText(t.inside);
    RunAppend(start, LettersText(t.outside), q + (inner + q));
    RunLetters(NoQuote, "", words, t.outside);
    PrependNothing(out);
    if t.quote.NoQuote? {
      assert q + (inner + q) == "" && WordOf(t) == out;
    } else {
      RunAppend(At(NoQuote, out, words), q, inner + q);
      RunQuote(t.quote, out, words);
      RunAppend(At(t.quote, out, words), inner, q);
      RunLetters(t.quote, out, words, t.inside);
      RunQuote(t.quote, out + Chars(t.inside), words);
    }
  }

  /** The words that are finished after a token. */
  function Finished(words: seq<string>, t: Token): seq<string> {
    if t.quote.NoQuote? then words else words + [WordOf(t)]
  }

  lemma RunPiece(into: string, words: seq<string>, p: Piece, rest: string)
    requires IsGap(p.gap) && IsToken(p.token) && (into != "" ==> p.gap != "")
    ensures var before := Flushed(into, words);
            && Run(At(NoQuote, into, words), p.gap + (TokenText(p.token) + rest))
               == Run(At(NoQuote, Pending(p.token), Finished(before, p.token)), rest)
            && Flushed(Pending(p.token), Finished(before, p.token)) == before + [WordOf(p.token)]
    ensures Pending(p.token) != "" <==> p.token.quote.NoQuote?
  {
    var before := Flushed(into, words);
    RunAppend(At(NoQuote, into, words), p.gap, TokenText(p.token) + rest);
    RunGap(into, words, p.gap);
    RunAppend(At(NoQuote, "", before), TokenText(p.token), rest);
    RunToken(before, p.token);
  }

  lemma WordsOfFirst(before: seq<string>, pieces: seq<Piece>)
    requires pieces != []
    ensures before + [WordOf(pieces[0].token)] + WordsOf(pieces[1..]) == before + WordsOf(pieces)
  {
  }

  /** The words of a line are taken one by one; a last word without quotes stays pending. */
  lemma {:induction false} RunLine(into: string, words: seq<string>, pieces: seq<Piece>) returns (st: State)
    requires IsLine(pieces, into != "")
    ensures st == Run(At(NoQuote, into, words), LineText(pieces))
    ensures st == At(NoQuote, st.into, st.words) && Flushed(st.into, st.words) == Flushed(into, words) + WordsOf(pieces)
    ensures pieces != [] && !pieces[|pieces| - 1].token.quote.NoQuote? ==> st.into == ""
    decreases |pieces|
  {
    if pieces == [] {
      st := At(NoQuote, into, words);
      assert Flushed(into, words) + WordsOf(pieces) == Flushed(into, words);
    } else {
      var t, before, rest := pieces[0].token, Flushed(into, words), pieces[1..];
      RunPiece(into, words, pieces[0], LineText(rest));
      var into', words' := Pending(t), Finished(before, t);
      st := RunLine(into', words', rest);
      WordsOfFirst(before, pieces);
      assert |pieces| > 1 ==> rest[|rest| - 1] == pieces[|pieces| - 1];
    }
  }

  // ---------------------------------------------------------------- lines that split

  /** Words with white space around and between them split into exactly these words. */
  lemma LineSplits(pieces: seq<Piece>, trail: string)
    requires IsLine(pieces, false) && IsGap(trail)
    ensures Words(LineText(pieces) + trail) == Some(WordsOf(pieces))
  {
    var st := RunLine("", [], pieces);
    RunAppend(START, LineText(pieces), trail);
    RunGap(st.into, st.words, trail);
    PrependNothing(WordsOf(pieces));
  }

  // ---------------------------------------------------------------- lines that do not

  /** The rest of a line behind its last whole word: a word that is begun and not closed. */
  datatype Rest = Rest(gap: string, outside: seq<Letter>, quote: Quote, inside: seq<Letter>, backslash: bool)

  /** A quote is left open, or a backslash has nothing behind it. */
  predicate IsOpen(pieces: seq<Piece>, r: Rest) {
    && IsLine(pieces, false) && IsGap(r.gap) && AllFit(NoQuote, r.outside) && AllFit(r.quote, r.inside)
    && (pieces != [] && pieces[|pieces| - 1].token.quote.NoQuote? ==> r.gap != "")
    && (r.quote.NoQuote? ==> r.inside == [] && r.backslash)
  }

  function RestBody(r: Rest): string {
    LettersText(r.outside) + (QuoteText(r.quote) + (LettersText(r.inside) + if r.backslash then "\\" else ""))
  }

  function RestText(r: Rest): string {
    r.gap + RestBody(r)
  }

  lemma RunRest(words: seq<string>, r: Rest)
    requires AllFit(NoQuote, r.outside) && AllFit(r.quote, r.inside) && (r.quote.NoQuote? ==> r.inside == [])
    ensures var st := Run(At(NoQuote, "", words), RestBody(r));
            st.escaped == r.backslash && st.single == r.quote.InSingle? && st.double == r.quote.InDouble?
  {
    var start, out := At(NoQuote, "", words), Chars(r.outside);
    var q, inner, end := QuoteText(r.quote), LettersText(r.inside), if r.backslash then "\\" else "";
    RunAppend(start, LettersText(r.outside), q + (inner + end));
    RunLetters(NoQuote, "", words, r.outside);
    PrependNothing(out);
    RunAppend(At(NoQuote, out, words), q, inner + end);
    if !r.quote.NoQuote? {
      RunQuote(r.quote, out, words);
    }
    RunAppend(At(r.quote, out, words), inner, end);
    RunLetters(r.quote, out, words, r.inside);
    assert Run(At(r.quote, out + Chars(r.inside), words), "\\")
        == Run(Step(At(r.quote, out + Chars(r.inside), words), '\\'), "");
  }

  /** With a quote left open, or a backslash at the very end, there is no result. */
  lemma OpenFails(pieces: seq<Piece>, r: Rest)
    requires IsOpen(pieces, r)
    ensures Words(LineText(pieces) + RestText(r)) == None
  {
    var st := RunLine("", [], pieces);
    RunAppend(START, LineText(pieces), RestText(r));
    var body := RestBody(r);
    RunAppend(st, r.gap, body);
    RunGap(st.into, st.words, r.gap);
    var between := Run(st, r.gap);
    assert between == At(NoQuote, "", between.words);
    RunRest(between.words, r);
  }

  // ---------------------------------------------------------------- every line is one or the other

  lemma {:induction false} LettersSnoc(ls: seq<Letter>, l: Letter)
    ensures LettersText(ls + [l]) == LettersText(ls) + LetterText(l)
    decreases |ls|
  {
    if ls == [] {
      assert ls + [l] == [l] && [l][1..] == [];
    } else {
      assert (ls + [l])[1..] == ls[1..] + [l];
      LettersSnoc(ls[1..], l);
    }
  }

  lemma {:induction false} LineSnoc(pieces: seq<Piece>, p: Piece, open: bool)
    requires IsLine(pieces, open) && IsGap(p.gap) && IsToken(p.token)
    requires (if pieces == [] then open else pieces[|pieces| - 1].token.quote.NoQuote?) ==> p.gap != ""
    ensures IsLine(pieces + [p], open) && LineText(pieces + [p]) == LineText(pieces) + (p.gap + TokenText(p.token))
    decreases |pieces|
  {
    if pieces == [] {
      assert pieces + [p] == [p] && [p][1..] == [];
      assert TokenText(p.token) + "" == TokenText(p.token);
    } else {
      var first, rest := pieces[0], pieces[1..];
      assert (pieces + [p])[1..] == rest + [p];
      LineSnoc(rest, p, first.token.quote.NoQuote?);
      var text := p.gap + TokenText(p.token);
      Assoc(TokenText(first.token), LineText(rest), text);
      Assoc(first.gap, TokenText(first.token) + LineText(rest), text);
    }
  }

  /** What has been read so far: whole words, and the beginning of the next one. */
  predicate IsPartial(pieces: seq<Piece>, r: Rest) {
    && IsLine(pieces, false) && IsGap(r.gap) && AllFit(NoQuote, r.outside) && AllFit(r.quote, r.inside)
    && (pieces != [] && pieces[|pieces| - 1].token.quote.NoQuote? ==> r.gap != "")
    && (r.quote.NoQuote? ==> r.inside == [])
  }

  lemma RestWithLetter(r: Rest, l: Letter)
    requires if r.backslash then l.Escaped? else l.Plain?
    ensures RestText(r) + [l.c] ==
            if r.quote.NoQuote? && r.inside == [] then RestText(r.(outside := r.outside + [l], backslash := false))
            else RestText(r.(inside := r.inside + [l], backslash := false))
  {
    LettersSnoc(r.outside, l);
    LettersSnoc(r.inside, l);
    var outside, q, inside := LettersText(r.outside), QuoteText(r.quote), LettersText(r.inside);
    var end := if r.backslash then "\\" else "";
    assert end + [l.c] == LetterText(l);
    if r.quote.NoQuote? && r.inside == [] {
      OnlyOutside(outside, end);
      OnlyOutside(outside + LetterText(l), "");
      Assoc(r.gap, outside + end, [l.c]);
      Assoc(outside, end, [l.c]);
    } else {
      EndOfRest(r.gap, outside, q, inside, end, [l.c]);
      assert inside + LetterText(l) + "" == inside + LetterText(l);
    }
  }

  lemma OnlyOutside(outside: string, end: string)
    ensures outside + ("" + ("" + end)) == outside + end
  {
  }

  lemma EndOfRest(gap: string, outside: string, q: string, inside: string, end: string, c: string)
    ensures gap + (outside + (q + (inside + end))) + c == gap + (outside + (q + (inside + (end + c))))
  {
    Assoc(gap, outside + (q + (inside + end)), c);
    Assoc(outside, q + (inside + end), c);
    Assoc(q, inside + end, c);
    Assoc(inside, end, c);
  }

  lemma CloseQuote(r: Rest, c: char)
    requires !r.quote.NoQuote? && QuoteText(r.quote) == [c] && !r.backslash
    ensures RestText(r) + [c] == r.gap + TokenText(Token(r.outside, r.quote, r.inside))
  {
    var outside, q, inside := LettersText(r.outside), QuoteText(r.quote), LettersText(r.inside);
    EndOfRest(r.gap, outside, q, inside, "", q);
    PrependNothing(q);
  }

  lemma NothingQuoted(r: Rest)
    requires r.quote.NoQuote? && r.inside == [] && !r.backslash
    ensures RestText(r) == r.gap + LettersText(r.outside)
    ensures RestText(r) == r.gap + TokenText(Token(r.outside, NoQuote, []))
  {
    var outside := LettersText(r.outside);
    OnlyOutside(outside, "");
    assert outside + "" == outside;
  }

  /** One more character of a word. */
  lemma SnocLetter(pieces: seq<Piece>, r: Rest, c: char) returns (r': Rest)
    requires IsPartial(pieces, r) && (r.backslash || Fits(r.quote, Plain(c)))
    ensures IsPartial(pieces, r') && RestText(r') == RestText(r) + [c]
  {
    var l := if r.backslash then Escaped(c) else Plain(c);
    RestWithLetter(r, l);
    r' := if r.quote.NoQuote? then r.(outside := r.outside + [l], backslash := false)
          else r.(inside := r.inside + [l], backslash := false);
  }

  /** A character that ends the word: white space behind letters, or the closing quote. */
  lemma SnocEnd(pieces: seq<Piece>, r: Rest, c: char) returns (pieces': seq<Piece>, r': Rest)
    requires IsPartial(pieces, r) && !r.backslash
    requires if r.quote.NoQuote? then IsWhitespace(c) && r.outside != [] else QuoteText(r.quote) == [c]
    ensures IsPartial(pieces', r') && LineText(pieces') + RestText(r') == LineText(pieces) + (RestText(r) + [c])
  {
    var p := Piece(r.gap, Token(r.outside, r.quote, r.inside));
    var line := LineText(pieces);
    LineSnoc(pieces, p, false);
    pieces' := pieces + [p];
    r' := Rest(if r.quote.NoQuote? then [c] else "", [], NoQuote, [], false);
    NothingQuoted(r');
    if r.quote.NoQuote? {
      NothingQuoted(r);
      Assoc(line, p.gap + TokenText(p.token), [c]);
    } else {
      CloseQuote(r, c);
      assert LineText(pieces') + "" == LineText(pieces');
    }
  }

  /** One more character. */
  lemma PartialSnoc(pieces: seq<Piece>, r: Rest, c: char) returns (pieces': seq<Piece>, r': Rest)
    requires IsPartial(pieces, r)
    ensures IsPartial(pieces', r') && LineText(pieces') + RestText(r') == LineText(pieces) + (RestText(r) + [c])
  {
    pieces' := pieces;
    if r.backslash || Fits(r.quote, Plain(c)) {
      r' := SnocLetter(pieces, r, c);
    } else if c == '\\' {
      r' := r.(backslash := true);
      BackslashText(r);
    } else if r.quote.NoQuote? && !IsWhitespace(c) {
      r' := r.(quote := if c == '\'' then InSingle else InDouble);
      QuoteOpens(r, r'.quote);
    } else if r.quote.NoQuote? && r.outside == [] {
      r' := r.(gap := r.gap + [c]);
      NothingQuoted(r);
      NothingQuoted(r');
      assert LettersText([]) == "" && RestText(r') == RestText(r) + [c];
    } else {
      pieces', r' := SnocEnd(pieces, r, c);
    }
  }

  lemma BackslashText(r: Rest)
    requires !r.backslash
    ensures RestText(r.(backslash := true)) == RestText(r) + "\\"
  {
    EndOfRest(r.gap, LettersText(r.outside), QuoteText(r.quote), LettersText(r.inside), "", "\\");
    PrependNothing("\\");
  }

  lemma QuoteOpens(r: Rest, q: Quote)
    requires r.quote.NoQuote? && r.inside == [] && !r.backslash
    ensures RestText(r.(quote := q)) == RestText(r) + QuoteText(q)
  {
    var outside := LettersText(r.outside);
    NothingQuoted(r);
    assert QuoteText(q) + ("" + "") == QuoteText(q);
    Assoc(r.gap, outside, QuoteText(q));
  }

  lemma {:induction false} EveryLine(s: string) returns (pieces: seq<Piece>, r: Rest)
    ensures IsPartial(pieces, r) && s == LineText(pieces) + RestText(r)
    decreases |s|
  {
    if s == "" {
      pieces, r := [], Rest("", [], NoQuote, [], false);
    } else {
      var n := |s| - 1;
      var pieces0, r0 := EveryLine(s[..n]);
      pieces, r := PartialSnoc(pieces0, r0, s[n]);
      assert s == s[..n] + [s[n]];
      Assoc(LineText(pieces0), RestText(r0), [s[n]]);
    }
  }

  ghost predicate Spells(s: string, ws: seq<string>) {
    exists pieces, trail ::
      IsLine(pieces, false) && IsGap(trail) && s == LineText(pieces) + trail && ws == WordsOf(pieces)
  }

  ghost predicate LeftOpen(s: string) {
    exists pieces, r :: IsOpen(pieces, r) && s == LineText(pieces) + RestText(r)
  }

  lemma SpelledOrOpen(s: string)
    ensures (exists ws :: Spells(s, ws)) || LeftOpen(s)
  {
    var pieces, r := EveryLine(s);
    if r.quote.NoQuote? && !r.backslash {
      NothingQuoted(r);
      if r.outside == [] {
        assert RestText(r) == r.gap;
        assert Spells(s, WordsOf(pieces));
      } else {
        var p := Piece(r.gap, Token(r.outside, NoQuote, []));
        LineSnoc(pieces, p, false);
        var all := pieces + [p];
        assert s == LineText(all) + "" && IsGap("") && IsLine(all, false);
        assert Spells(s, WordsOf(all));
      }
    } else {
      assert IsOpen(pieces, r);
    }
  }

  /** `split` returns these words exactly when the line spells them, and nothing exactly when something is left open. */
  lemma SplitIff(s: string, ws: seq<string>)
    ensures Words(s) == Some(ws) <==> Spells(s, ws)
    ensures Words(s) == None <==> LeftOpen(s)
  {
    if Spells(s, ws) {
      var pieces, trail :|
        IsLine(pieces, false) && IsGap(trail) && s == LineText(pieces) + trail && ws == WordsOf(pieces);
      LineSplits(pieces, trail);
    }
    if LeftOpen(s) {
      var pieces, r :| IsOpen(pieces, r) && s == LineText(pieces) + RestText(r);
      OpenFails(pieces, r);
    }
    SpelledOrOpen(s);
    if us :| Spells(s, us) {
      var pieces, trail :|
        IsLine(pieces, false) && IsGap(trail) && s == LineText(pieces) + trail && us == WordsOf(pieces);
      LineSplits(pieces, trail);
    }
  }
}

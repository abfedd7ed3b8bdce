/** `split` and `quote` of the command module, and how a shell reads what `quote` writes. */
module ShellWords {
  import opened Prelude

  const SINGLE := '\''
  const DOUBLE := '\"'
  /** What `quote` writes for one single quote: close, `"'"`, reopen. */
  const QUOTED_QUOTE := [SINGLE, DOUBLE, SINGLE, DOUBLE, SINGLE]

  /** `char::is_whitespace`: the Unicode White_Space property. */
  predicate IsWhitespace(c: char) {
    var n := c as int;
    || 0x9 <= n <= 0xD || n == 0x20 || n == 0x85 || n == 0xA0 || n == 0x1680
    || 0x2000 <= n <= 0x200A || n == 0x2028 || n == 0x2029 || n == 0x202F || n == 0x205F || n == 0x3000
  }

  // ---------------------------------------------------------------- the word automaton

  datatype State = State(escaped: bool, single: bool, double: bool, into: string, words: seq<string>)

  const START := State(false, false, false, "", [])

  function Step(st: State, c: char): State {
    if st.escaped then st.(escaped := false, into := st.into + [c])
    else if c == BACKSLASH then st.(escaped := true)
    else if c == SINGLE && st.single then st.(single := false, words := st.words + [st.into], into := "")
    else if c == SINGLE && !st.double then st.(single := true)
    else if c == DOUBLE && st.double then st.(double := false, words := st.words + [st.into], into := "")
    else if c == DOUBLE && !st.single then st.(double := true)
    else if st.single || st.double || !IsWhitespace(c) then st.(into := st.into + [c])
    else if st.into != "" then st.(words := st.words + [st.into], into := "")
    else st
  }

  function Run(st: State, s: string): State
    decreases |s|
  {
    if s == "" then st else Run(Step(st, s[0]), s[1..])
  }

  function Finish(st: State): Option<seq<string>> {
    if st.escaped || st.single || st.double then None
    else Some(if st.into != "" then st.words + [st.into] else st.words)
  }

  function Words(s: string): Option<seq<string>> {
    Finish(Run(START, s))
  }

  method Split(s: string) returns (r: Option<seq<string>>)
    ensures r == Words(s)
  {
    var escaped, single_quote, double_quote := false, false, false;
    var into: string := "";
    var sp: seq<string> := [];
    for i := 0 to |s|
      invariant Run(START, s) == Run(State(escaped, single_quote, double_quote, into, sp), s[i..])
    {
      var c := s[i];
      assert s[i..][0] == c && s[i..][1..] == s[i + 1..];
      if escaped {
        escaped := false;
        into := into + [c];
      } else if c == BACKSLASH {
        escaped := true;
      } else if c == SINGLE && single_quote {
        single_quote := false;
        sp, into := sp + [into], "";
      } else if c == SINGLE && !double_quote {
        single_quote := true;
      } else if c == DOUBLE && double_quote {
        double_quote := false;
        sp, into := sp + [into], "";
      } else if c == DOUBLE && !single_quote {
        double_quote := true;
      } else if single_quote || double_quote || !IsWhitespace(c) {
        into := into + [c];
      } else if |into| > 0 {
        sp, into := sp + [into], "";
      }
    }
    if escaped || single_quote || double_quote {
      return None;
    }
    if |into| > 0 {
      sp := sp + [into];
    }
    return Some(sp);
  }

  // ---------------------------------------------------------------- the printer

  function QuotedBody(s: string): string {
    if s == "" then ""
    else (if s[0] == SINGLE then QUOTED_QUOTE else [s[0]]) + QuotedBody(s[1..])
  }

  function Quoted(s: string): string {
    [SINGLE] + QuotedBody(s) + [SINGLE]
  }

  method Quote(s: string) returns (new_: string)
    ensures new_ == Quoted(s)
  {
    new_ := [SINGLE];
    for i := 0 to |s|
      invariant new_ + QuotedBody(s[i..]) == [SINGLE] + QuotedBody(s)
    {
      assert s[i..][0] == s[i] && s[i..][1..] == s[i + 1..];
      var grown := new_ + (if s[i] == SINGLE then QUOTED_QUOTE else [s[i]]);
      assert grown + QuotedBody(s[i + 1..]) == new_ + QuotedBody(s[i..]);
      new_ := grown;
    }
    assert new_ + "" == new_;
    new_ := new_ + [SINGLE];
  }

  /** The space-joined quoted words of a command line. */
  function CommandLine(ws: seq<string>): string {
    if ws == [] then ""
    else Quoted(ws[0]) + (if |ws| == 1 then "" else " " + CommandLine(ws[1..]))
  }

  // ---------------------------------------------------------------- split after quote

  predicate Clean(w: string) {
    SINGLE !in w && BACKSLASH !in w
  }

  /** The state inside a single-quoted stretch. */
  function Inside(into: string, words: seq<string>): State {
    State(false, true, false, into, words)
  }

  function Between(words: seq<string>): State {
    State(false, false, false, "", words)
  }

  lemma RunCons(st: State, c: char, s: string)
    ensures Run(st, [c] + s) == Run(Step(st, c), s)
  {
    assert ([c] + s)[1..] == s;
  }

  lemma RunQuotedQuote(t: string, ws: seq<string>, s: string)
    ensures Run(Inside(t, ws), QUOTED_QUOTE + s) == Run(Inside("", ws + [t, [SINGLE]]), s)
  {
    var s1, s2 := [DOUBLE, SINGLE, DOUBLE, SINGLE] + s, [SINGLE, DOUBLE, SINGLE] + s;
    var s3, s4 := [DOUBLE, SINGLE] + s, [SINGLE] + s;
    assert QUOTED_QUOTE + s == [SINGLE] + s1 && s1 == [DOUBLE] + s2 && s2 == [SINGLE] + s3 && s3 == [DOUBLE] + s4;
    RunCons(Inside(t, ws), SINGLE, s1);
    RunCons(Between(ws + [t]), DOUBLE, s2);
    var open := State(false, false, true, "", ws + [t]);
    RunCons(open, SINGLE, s3);
    assert Step(open, SINGLE) == open.(into := [SINGLE]);
    RunCons(open.(into := [SINGLE]), DOUBLE, s4);
    assert ws + [t] + [[SINGLE]] == ws + [t, [SINGLE]];
    RunCons(Between(ws + [t, [SINGLE]]), SINGLE, s);
  }

  /** x0, "'", x1, "'", ..., xk: the pieces between single quotes and the quotes themselves. */
  function Interleave(pieces: seq<string>): seq<string>
    requires pieces != []
  {
    if |pieces| == 1 then pieces else [pieces[0], [SINGLE]] + Interleave(pieces[1..])
  }

  lemma InterleaveCons(ws: seq<string>, t: string, more: seq<string>)
    requires more != []
    ensures [more[0]] + more[1..] == more
    ensures ws + Interleave([t] + more) == ws + [t, [SINGLE]] + Interleave(more)
  {
    assert ([t] + more)[1..] == more;
  }

  function Count(s: string, c: char): nat {
    if s == "" then 0 else (if s[0] == c then 1 else 0) + Count(s[1..], c)
  }

  /** What the automaton makes of a quoted backslash-free string, whatever stands after it. */
  lemma {:induction false} RunBody(t: string, s: string, ws: seq<string>, rest: string)
    requires BACKSLASH !in s
    ensures var pieces := SplitOn(SINGLE, s);
            Run(Inside(t, ws), QuotedBody(s) + [SINGLE] + rest)
            == Run(Between(ws + Interleave([t + pieces[0]] + pieces[1..])), rest)
    decreases |s|
  {
    var pieces := SplitOn(SINGLE, s);
    if s == "" {
      assert QuotedBody(s) + [SINGLE] + rest == [SINGLE] + rest;
      assert t + pieces[0] == t;
      assert [t + pieces[0]] + pieces[1..] == [t];
      RunCons(Inside(t, ws), SINGLE, rest);
    } else {
      var tail := QuotedBody(s[1..]) + [SINGLE] + rest;
      var more := SplitOn(SINGLE, s[1..]);
      if s[0] == SINGLE {
        assert QuotedBody(s) + [SINGLE] + rest == QUOTED_QUOTE + tail;
        RunQuotedQuote(t, ws, tail);
        RunBody("", s[1..], ws + [t, [SINGLE]], rest);
        assert "" + more[0] == more[0] && t + pieces[0] == t && pieces[1..] == more;
        InterleaveCons(ws, t, more);
      } else {
        assert QuotedBody(s) + [SINGLE] + rest == [s[0]] + tail;
        RunCons(Inside(t, ws), s[0], tail);
        RunBody(t + [s[0]], s[1..], ws, rest);
        assert t + [s[0]] + more[0] == t + pieces[0];
      }
    }
  }

  lemma {:induction false} InterleaveShape(pieces: seq<string>)
    requires pieces != []
    ensures |Interleave(pieces)| == 2 * |pieces| - 1
    ensures Join("", Interleave(pieces)) == Join([SINGLE], pieces)
  {
    if |pieces| > 1 {
      InterleaveShape(pieces[1..]);
      var r := Interleave(pieces[1..]);
      var all := Interleave(pieces);
      assert all[1..] == [[SINGLE]] + r && all[1..][1..] == r;
      assert Join("", all[1..]) == [SINGLE] + Join("", r);
      assert Join("", all) == pieces[0] + ([SINGLE] + Join("", r));
    }
  }

  lemma {:induction false} PieceCount(s: string)
    ensures |SplitOn(SINGLE, s)| == Count(s, SINGLE) + 1
  {
    if s != "" {
      PieceCount(s[1..]);
    }
  }

  /** `split(quote(s))` for a backslash-free s with k single quotes: 2k+1 words that concatenate to s. */
  lemma SplitOfQuote(s: string)
    requires BACKSLASH !in s
    ensures Words(Quoted(s)) == Some(Interleave(SplitOn(SINGLE, s)))
    ensures var ws := Words(Quoted(s)).value;
            |ws| == 2 * Count(s, SINGLE) + 1 && Join("", ws) == s
  {
    var pieces := SplitOn(SINGLE, s);
    RunCons(START, SINGLE, QuotedBody(s) + [SINGLE] + "");
    assert Quoted(s) == [SINGLE] + (QuotedBody(s) + [SINGLE] + "");
    RunBody("", s, [], "");
    assert "" + pieces[0] == pieces[0] && [pieces[0]] + pieces[1..] == pieces;
    assert [] + Interleave(pieces) == Interleave(pieces);
    InterleaveShape(pieces);
    PieceCount(s);
    JoinSplit(SINGLE, s);
  }

  // ---------------------------------------------------------------- exactly when the list comes back

  /** Finished words are never touched again, and a pending word only grows. */
  lemma {:induction false} RunGrows(st: State, s: string)
    ensures var r := Run(st, s);
            && st.words <= r.words
            && (if |r.words| == |st.words| then st.into <= r.into else st.into <= r.words[|st.words|])
    decreases |s|
  {
    if s != "" {
      RunGrows(Step(st, s[0]), s[1..]);
    }
  }

  /** Once a finished word or the pending one disagrees with `ws`, the result is not `ws`. */
  lemma Diverged(st: State, s: string, ws: seq<string>, n: nat)
    requires n < |ws|
    requires || (st.words == ws[..n] && !(st.into <= ws[n]))
             || (|st.words| == n + 1 && st.words[n] != ws[n])
    ensures Finish(Run(st, s)) != Some(ws)
  {
    RunGrows(st, s);
  }

  lemma {:induction false} CleanPrefix(t: string, p: string, ws: seq<string>, rest: string)
    requires Clean(p)
    ensures Run(Inside(t, ws), QuotedBody(p) + rest) == Run(Inside(t + p, ws), rest)
    decreases |p|
  {
    if p == "" {
      assert QuotedBody(p) + rest == rest && t + p == t;
    } else {
      assert QuotedBody(p) + rest == [p[0]] + (QuotedBody(p[1..]) + rest);
      RunCons(Inside(t, ws), p[0], QuotedBody(p[1..]) + rest);
      CleanPrefix(t + [p[0]], p[1..], ws, rest);
      assert t + [p[0]] + p[1..] == t + p;
    }
  }

  lemma {:induction false} QuotedBodyAppend(a: string, b: string)
    ensures QuotedBody(a + b) == QuotedBody(a) + QuotedBody(b)
  {
    if a == "" {
      assert a + b == b;
    } else {
      assert (a + b)[1..] == a[1..] + b;
      QuotedBodyAppend(a[1..], b);
    }
  }

  /** What is still to be read of a quoted word. */
  function Behind(w: string, j: nat, rest: string): string
    requires j <= |w|
  {
    QuotedBody(w[j..]) + [SINGLE] + rest
  }

  lemma BehindNext(w: string, j: nat, rest: string)
    requires j < |w| && w[j] != SINGLE
    ensures Behind(w, j, rest) == [w[j]] + Behind(w, j + 1, rest)
  {
    assert w[j..][1..] == w[j + 1..];
  }

  lemma BehindQuote(w: string, j: nat, rest: string) returns (t: string)
    requires j <= |w| && (j == |w| || w[j] == SINGLE)
    ensures Behind(w, j, rest) == [SINGLE] + t
  {
    t := Behind(w, j, rest)[1..];
  }

  /** A wrong character where the word has another one. */
  lemma WrongChar(st: State, c: char, s: string, ws: seq<string>, n: nat, i: nat)
    requires n < |ws| && i < |ws[n]| && ws[n][i] != c
    requires st.words == ws[..n] && st.into == ws[n][..i]
    requires Step(st, c) == st.(escaped := false, into := st.into + [c])
    ensures Finish(Run(st, [c] + s)) != Some(ws)
  {
    RunCons(st, c, s);
    assert Step(st, c).into[i] != ws[n][i];
    Diverged(Step(st, c), s, ws, n);
  }

  /** The word ends too early. */
  lemma ShortWord(ws: seq<string>, n: nat, i: nat, s: string)
    requires n < |ws| && i < |ws[n]|
    ensures Finish(Run(Inside(ws[n][..i], ws[..n]), [SINGLE] + s)) != Some(ws)
  {
    var st := Inside(ws[n][..i], ws[..n]);
    RunCons(st, SINGLE, s);
    assert |ws[n][..i]| == i;
    Diverged(Step(st, SINGLE), s, ws, n);
  }

  /** From the first backslash of a word on, the automaton lags behind: it can no longer produce the word. */
  lemma {:induction false} Lag(ws: seq<string>, n: nat, i: nat, j: nat, rest: string)
    requires n < |ws| && i < |ws[n]| && i <= j <= |ws[n]| && ws[n][i] == BACKSLASH
    requires forall k :: i <= k < j ==> ws[n][k] == BACKSLASH
    ensures Finish(Run(Inside(ws[n][..i], ws[..n]), Behind(ws[n], j, rest))) != Some(ws)
    decreases |ws[n]| - j
  {
    var w := ws[n];
    var st := Inside(w[..i], ws[..n]);
    if j == |w| || w[j] == SINGLE {
      var t := BehindQuote(w, j, rest);
      ShortWord(ws, n, i, t);
    } else {
      BehindNext(w, j, rest);
      if w[j] == BACKSLASH {
        RunCons(st, BACKSLASH, Behind(w, j + 1, rest));
        LagEscaped(ws, n, i, j + 1, rest);
      } else {
        WrongChar(st, w[j], Behind(w, j + 1, rest), ws, n, i);
      }
    }
  }

  /** The same behind an odd number of its backslashes. */
  lemma {:induction false} LagEscaped(ws: seq<string>, n: nat, i: nat, j: nat, rest: string)
    requires n < |ws| && i < |ws[n]| && i < j <= |ws[n]| && ws[n][i] == BACKSLASH
    requires forall k :: i <= k < j ==> ws[n][k] == BACKSLASH
    ensures Finish(Run(Inside(ws[n][..i], ws[..n]).(escaped := true), Behind(ws[n], j, rest))) != Some(ws)
    decreases |ws[n]| - j
  {
    var w := ws[n];
    var st := Inside(w[..i], ws[..n]).(escaped := true);
    if j == |w| || w[j] == SINGLE {
      var t := BehindQuote(w, j, rest);
      WrongChar(st, SINGLE, t, ws, n, i);
    } else {
      BehindNext(w, j, rest);
      if w[j] == BACKSLASH {
        RunCons(st, BACKSLASH, Behind(w, j + 1, rest));
        assert w[..i] + [BACKSLASH] == w[..i + 1];
        assert w[i + 1] == BACKSLASH;
        Lag(ws, n, i + 1, j + 1, rest);
      } else {
        WrongChar(st, w[j], Behind(w, j + 1, rest), ws, n, i);
      }
    }
  }

  function FirstUnclean(w: string): (i: nat)
    requires !Clean(w)
    ensures i < |w| && Clean(w[..i]) && !Clean([w[i]])
  {
    if !Clean([w[0]]) then 0
    else
      assert w == [w[0]] + w[1..];
      var i := FirstUnclean(w[1..]);
      assert w[..i + 1] == [w[0]] + w[1..][..i];
      i + 1
  }

  lemma CleanWord(ws: seq<string>, n: nat, rest: string)
    requires n < |ws| && Clean(ws[n])
    ensures Run(Between(ws[..n]), Quoted(ws[n]) + rest) == Run(Between(ws[..n + 1]), rest)
  {
    var w := ws[n];
    var tail := [SINGLE] + rest;
    assert Quoted(w) + rest == [SINGLE] + (QuotedBody(w) + tail);
    RunCons(Between(ws[..n]), SINGLE, QuotedBody(w) + tail);
    CleanPrefix("", w, ws[..n], tail);
    assert "" + w == w;
    RunCons(Inside(w, ws[..n]), SINGLE, rest);
    assert ws[..n] + [w] == ws[..n + 1];
  }

  lemma ReachesUnclean(w: string, i: nat, words: seq<string>, rest: string)
    requires i <= |w| && Clean(w[..i])
    ensures Run(Between(words), Quoted(w) + rest) == Run(Inside(w[..i], words), Behind(w, i, rest))
  {
    var p, tail := w[..i], Behind(w, i, rest);
    QuotedBodyAppend(p, w[i..]);
    assert w == p + w[i..];
    assert Quoted(w) + rest == [SINGLE] + (QuotedBody(p) + tail);
    RunCons(Between(words), SINGLE, QuotedBody(p) + tail);
    CleanPrefix("", p, words, tail);
    PrependNothing(p);
  }

  lemma UncleanWord(ws: seq<string>, n: nat, rest: string)
    requires n < |ws| && !Clean(ws[n])
    ensures Finish(Run(Between(ws[..n]), Quoted(ws[n]) + rest)) != Some(ws)
  {
    var w := ws[n];
    var i := FirstUnclean(w);
    ReachesUnclean(w, i, ws[..n], rest);
    if w[i] == BACKSLASH {
      Lag(ws, n, i, i, rest);
    } else {
      var t := BehindQuote(w, i, rest);
      ShortWord(ws, n, i, t);
    }
  }

  lemma {:induction false} SplitFrom(ws: seq<string>, n: nat)
    requires n <= |ws|
    ensures Finish(Run(Between(ws[..n]), CommandLine(ws[n..]))) == Some(ws)
            <==> forall k :: n <= k < |ws| ==> Clean(ws[k])
    decreases |ws| - n
  {
    if n == |ws| {
      assert ws[..n] == ws;
    } else {
      var rest := if |ws[n..]| == 1 then "" else " " + CommandLine(ws[n..][1..]);
      if Clean(ws[n]) {
        CleanWord(ws, n, rest);
      } else {
        UncleanWord(ws, n, rest);
      }
      assert ws[n..][1..] == ws[n + 1..];
      SplitFrom(ws, n + 1);
      if |ws| - n > 1 {
        RunCons(Between(ws[..n + 1]), ' ', CommandLine(ws[n + 1..]));
      }
    }
  }

  /** `split` undoes space-joined `quote`s exactly on lists of words free of single quote and backslash. */
  lemma SplitUndoesQuote(ws: seq<string>)
    ensures Words(CommandLine(ws)) == Some(ws) <==> forall w :: w in ws ==> Clean(w)
  {
    SplitFrom(ws, 0);
    assert ws[..0] == [] && ws[0..] == ws;
    assert (forall w :: w in ws ==> Clean(w)) <==> forall k :: 0 <= k < |ws| ==> Clean(ws[k]);
  }

  // ---------------------------------------------------------------- a POSIX shell reads what `quote` writes

  datatype Mode = Gap | Word | Single | Double

  /** Characters that start an expansion, a comment, a pattern or an operator when unquoted. */
  predicate IsShellSpecial(c: char) {
    c in "|&;<>()$`*?[#~=%\n"
  }

  /**
   * Word splitting by the quoting rules of the POSIX Shell Command Language (IEEE Std 1003.1):
   * section 2.2.1 (escape character), 2.2.2 (single-quotes) and 2.2.3 (double-quotes). None when a quote
   * is left open or when the input asks for more than quoting (an expansion or an operator).
   */
  function ShellRead(mode: Mode, cur: string, words: seq<string>, s: string): Option<seq<string>>
    decreases |s|
  {
    if s == "" then
      match mode
      case Gap => Some(words)
      case Word => Some(words + [cur])
      case _ => None
    else
      var c := s[0];
      match mode
      case Single =>
        if c == SINGLE then ShellRead(Word, cur, words, s[1..]) else ShellRead(Single, cur + [c], words, s[1..])
      case Double =>
        if c == DOUBLE then ShellRead(Word, cur, words, s[1..])
        else if c == '$' || c == '`' then None
        else if c == BACKSLASH && |s| > 1 && s[1] in "$`\"\\" then ShellRead(Double, cur + [s[1]], words, s[2..])
        else if c == BACKSLASH && |s| > 1 && s[1] == '\n' then ShellRead(Double, cur, words, s[2..])
        else ShellRead(Double, cur + [c], words, s[1..])
      case _ =>
        if c == ' ' || c == '\t' then
          ShellRead(Gap, "", if mode == Word then words + [cur] else words, s[1..])
        else if c == SINGLE then ShellRead(Single, cur, words, s[1..])
        else if c == DOUBLE then ShellRead(Double, cur, words, s[1..])
        else if c == BACKSLASH then
          if |s| == 1 then None
          else if s[1] == '\n' then ShellRead(mode, cur, words, s[2..])
          else ShellRead(Word, cur + [s[1]], words, s[2..])
        else if IsShellSpecial(c) then None
        else ShellRead(Word, cur + [c], words, s[1..])
  }

  lemma ShellReadsQuotedQuote(t: string, ws: seq<string>, s: string)
    ensures ShellRead(Single, t, ws, QUOTED_QUOTE + s) == ShellRead(Single, t + [SINGLE], ws, s)
  {
    var s1, s2 := [DOUBLE, SINGLE, DOUBLE, SINGLE] + s, [SINGLE, DOUBLE, SINGLE] + s;
    var s3, s4 := [DOUBLE, SINGLE] + s, [SINGLE] + s;
    assert (QUOTED_QUOTE + s)[1..] == s1 && s1[1..] == s2 && s2[1..] == s3 && s3[1..] == s4 && s4[1..] == s;
    assert ShellRead(Single, t, ws, QUOTED_QUOTE + s) == ShellRead(Word, t, ws, s1);
    assert ShellRead(Word, t, ws, s1) == ShellRead(Double, t, ws, s2);
    assert ShellRead(Double, t, ws, s2) == ShellRead(Double, t + [SINGLE], ws, s3);
    assert ShellRead(Double, t + [SINGLE], ws, s3) == ShellRead(Word, t + [SINGLE], ws, s4);
  }

  lemma {:induction false} ShellReadsBody(t: string, s: string, ws: seq<string>, rest: string)
    ensures ShellRead(Single, t, ws, QuotedBody(s) + [SINGLE] + rest) == ShellRead(Word, t + s, ws, rest)
    decreases |s|
  {
    var input := QuotedBody(s) + [SINGLE] + rest;
    if s == "" {
      assert input[1..] == rest && t + s == t;
    } else {
      var tail := QuotedBody(s[1..]) + [SINGLE] + rest;
      assert t + [s[0]] + s[1..] == t + s;
      ShellReadsBody(t + [s[0]], s[1..], ws, rest);
      if s[0] == SINGLE {
        assert input == QUOTED_QUOTE + tail;
        ShellReadsQuotedQuote(t, ws, tail);
      } else {
        assert input[0] == s[0] && input[1..] == tail;
      }
    }
  }

  lemma {:induction false} ShellReadsFrom(ws: seq<string>, n: nat)
    requires n <= |ws|
    ensures ShellRead(Gap, "", ws[..n], CommandLine(ws[n..])) == Some(ws)
    decreases |ws| - n
  {
    if n == |ws| {
      assert ws[..n] == ws;
    } else {
      var more := CommandLine(ws[n + 1..]);
      assert ws[n..][1..] == ws[n + 1..] && ws[..n] + [ws[n]] == ws[..n + 1];
      if |ws| - n > 1 {
        ShellReadsWord(ws[n], ws[..n], " " + more);
        ShellEndsWord(ws[n], ws[..n], more);
        ShellReadsFrom(ws, n + 1);
      } else {
        ShellReadsWord(ws[n], ws[..n], "");
        assert ws[..n + 1] == ws && Quoted(ws[n]) + "" == Quoted(ws[n]);
      }
    }
  }

  lemma ShellReadsWord(w: string, words: seq<string>, rest: string)
    ensures ShellRead(Gap, "", words, Quoted(w) + rest) == ShellRead(Word, w, words, rest)
  {
    assert (Quoted(w) + rest)[1..] == QuotedBody(w) + [SINGLE] + rest;
    ShellReadsBody("", w, words, rest);
    PrependNothing(w);
  }

  lemma ShellEndsWord(w: string, words: seq<string>, s: string)
    ensures ShellRead(Word, w, words, " " + s) == ShellRead(Gap, "", words + [w], s)
  {
    assert (" " + s)[1..] == s;
  }

  /** A POSIX shell reads the space-joined quotes of any words, quotes and backslashes included, as those words. */
  lemma ShellReadsQuotes(ws: seq<string>)
    ensures ShellRead(Gap, "", [], CommandLine(ws)) == Some(ws)
  {
    ShellReadsFrom(ws, 0);
    assert ws[..0] == [] && ws[0..] == ws;
  }
}

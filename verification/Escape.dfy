/** `escape_string` of the parcel string module, its single-pass form and a reader that undoes it. */
module Escape {
  import opened Prelude
  import opened Numbers
  import opened Wire

  const DELIMITERS: set<char> := {'=', ',', ':', '|', '>', '%'}

  /** `char::escape_default`. */
  function DefaultEscape(c: char): string {
    if c == '\t' then "\\t"
    else if c == '\r' then "\\r"
    else if c == '\n' then "\\n"
    else if c == '\'' || c == '\"' || c == BACKSLASH then [BACKSLASH, c]
    else if ' ' <= c <= '~' then [c]
    else "\\u{" + Digits(c as int, 16) + "}"
  }

  function DefaultEscapeAll(s: string): string {
    if s == "" then "" else DefaultEscape(s[0]) + DefaultEscapeAll(s[1..])
  }

  /** `s.replace("c", "\\c")` for one delimiter. */
  function Replace(s: string, c: char): string {
    if s == "" then "" else (if s[0] == c then [BACKSLASH, c] else [s[0]]) + Replace(s[1..], c)
  }

  /** The six whole-string replacements, in the order of the source. */
  function Replacements(s: string): string {
    Replace(Replace(Replace(Replace(Replace(Replace(s, '='), ','), ':'), '|'), '>'), '%')
  }

  function EscapeString(s: string): string {
    Replacements(DefaultEscapeAll(s))
  }

  // ---------------------------------------------------------------- the single-pass form, as units

  /** Printable ASCII, tab, carriage return and newline: everything that is not written as `\u{...}`. */
  predicate IsPlain(c: char) {
    ' ' <= c <= '~' || c == '\t' || c == '\r' || c == '\n'
  }

  predicate NeedsBackslash(c: char) {
    c in DELIMITERS || c in "\t\r\n\'\"\\"
  }

  /** The escapes with a letter, and those that repeat the character. */
  function LetterEscape(c: char): char {
    if c == '\t' then 't' else if c == '\r' then 'r' else if c == '\n' then 'n' else c
  }

  function CharUnits(c: char): (us: seq<Unit>)
    ensures us != []
  {
    if NeedsBackslash(c) then [Esc(LetterEscape(c))]
    else if IsPlain(c) then [Bare(c)]
    else [Esc('u'), Bare('{')] + Bares(Digits(c as int, 16)) + [Bare('}')]
  }

  function TextUnits(s: string): seq<Unit> {
    if s == "" then [] else CharUnits(s[0]) + TextUnits(s[1..])
  }

  lemma CharUnitsSafe(c: char)
    ensures Neutral(CharUnits(c))
    ensures forall d :: d in DELIMITERS ==> Bare(d) !in CharUnits(c)
  {
    var hex := Digits(c as int, 16);
    forall u | u in Bares(hex) ensures u.Bare? && IsLowerHex(u.c) {
      var i :| 0 <= i < |hex| && Bares(hex)[i] == u;
      assert hex[i] in hex;
    }
  }

  lemma {:induction false} TextUnitsSafe(s: string)
    ensures Neutral(TextUnits(s))
    ensures forall d :: d in DELIMITERS ==> Bare(d) !in TextUnits(s)
  {
    if s != "" {
      CharUnitsSafe(s[0]);
      TextUnitsSafe(s[1..]);
    }
  }

  lemma {:induction false} ReplaceAppend(a: string, b: string, c: char)
    ensures Replace(a + b, c) == Replace(a, c) + Replace(b, c)
  {
    if a == "" {
      assert a + b == b;
    } else {
      assert (a + b)[1..] == a[1..] + b;
      ReplaceAppend(a[1..], b, c);
    }
  }

  lemma {:induction false} ReplaceAbsent(s: string, c: char)
    requires c !in s
    ensures Replace(s, c) == s
  {
    if s != "" {
      ReplaceAbsent(s[1..], c);
    }
  }

  lemma ReplacementsAppend(a: string, b: string)
    ensures Replacements(a + b) == Replacements(a) + Replacements(b)
  {
    ReplaceAppend(a, b, '=');
    var a1, b1 := Replace(a, '='), Replace(b, '=');
    ReplaceAppend(a1, b1, ',');
    var a2, b2 := Replace(a1, ','), Replace(b1, ',');
    ReplaceAppend(a2, b2, ':');
    var a3, b3 := Replace(a2, ':'), Replace(b2, ':');
    ReplaceAppend(a3, b3, '|');
    var a4, b4 := Replace(a3, '|'), Replace(b3, '|');
    ReplaceAppend(a4, b4, '>');
    ReplaceAppend(Replace(a4, '>'), Replace(b4, '>'), '%');
  }

  lemma ReplacementsAbsent(s: string)
    requires forall d :: d in DELIMITERS ==> d !in s
    ensures Replacements(s) == s
  {
    assert '=' in DELIMITERS && ',' in DELIMITERS && ':' in DELIMITERS;
    assert '|' in DELIMITERS && '>' in DELIMITERS && '%' in DELIMITERS;
    ReplaceAbsent(s, '=');
    ReplaceAbsent(s, ',');
    ReplaceAbsent(s, ':');
    ReplaceAbsent(s, '|');
    ReplaceAbsent(s, '>');
    ReplaceAbsent(s, '%');
  }

  /** On a one-character text only one of the replacements acts, and the later ones leave its output alone. */
  lemma ReplaceOne(x: string, c: char)
    requires |x| == 1 || (|x| == 2 && x[0] == BACKSLASH && x[1] != c && c != BACKSLASH)
    ensures Replace(x, c) == if x == [c] then [BACKSLASH, c] else x
  {
    if x != [c] {
      ReplaceAbsent(x, c);
    } else {
      assert x[1..] == "";
    }
  }

  lemma ReplacementsOfDelimiter(c: char)
    requires c in DELIMITERS
    ensures Replacements([c]) == [BACKSLASH, c]
  {
    var x1 := Replace([c], '=');
    ReplaceOne([c], '=');
    ReplaceOne(x1, ',');
    var x2 := Replace(x1, ',');
    ReplaceOne(x2, ':');
    var x3 := Replace(x2, ':');
    ReplaceOne(x3, '|');
    var x4 := Replace(x3, '|');
    ReplaceOne(x4, '>');
    ReplaceOne(Replace(x4, '>'), '%');
  }

  function UnicodeEscape(c: char): string {
    "\\u{" + Digits(c as int, 16) + "}"
  }

  lemma RenderBraced(hex: string)
    ensures Render([Esc('u'), Bare('{')] + Bares(hex) + [Bare('}')]) == "\\u{" + hex + "}"
  {
    var head := [Esc('u'), Bare('{')];
    RenderAppend(head + Bares(hex), [Bare('}')]);
    RenderAppend(head, Bares(hex));
    RenderBares(hex);
    assert Render(head) == [BACKSLASH, 'u'] + Render(head[1..]);
    assert head[1..] == [Bare('{')] && Render(head[1..]) == ['{'] + Render(head[1..][1..]);
    assert Render([Bare('}')]) == ['}'] + Render([]);
  }

  lemma RenderUnicode(c: char)
    requires !IsPlain(c)
    ensures Render(CharUnits(c)) == UnicodeEscape(c) == DefaultEscape(c)
    ensures forall d :: d in DELIMITERS ==> d !in UnicodeEscape(c)
  {
    var hex := Digits(c as int, 16);
    RenderBraced(hex);
    assert forall d :: d in hex ==> IsLowerHex(d);
  }

  lemma RenderPlain(c: char)
    requires IsPlain(c)
    ensures Render(CharUnits(c)) == if c in DELIMITERS then [BACKSLASH, c] else DefaultEscape(c)
  {
    assert |CharUnits(c)| == 1;
    assert Render(CharUnits(c)) == RenderUnit(CharUnits(c)[0]) + Render([]);
  }

  lemma EscapeOne(c: char)
    ensures Replacements(DefaultEscape(c)) == Render(CharUnits(c))
  {
    if !IsPlain(c) {
      RenderUnicode(c);
      ReplacementsAbsent(DefaultEscape(c));
    } else {
      RenderPlain(c);
      if c in DELIMITERS {
        ReplacementsOfDelimiter(c);
      } else {
        ReplacementsAbsent(DefaultEscape(c));
      }
    }
  }

  /** `escape_default` followed by six whole-string replacements is one pass over the characters. */
  lemma {:induction false} EscapeIsSinglePass(s: string)
    ensures EscapeString(s) == Render(TextUnits(s))
  {
    if s != "" {
      EscapeIsSinglePass(s[1..]);
      EscapeOne(s[0]);
      ReplacementsAppend(DefaultEscape(s[0]), DefaultEscapeAll(s[1..]));
      RenderAppend(CharUnits(s[0]), TextUnits(s[1..]));
    }
  }

  /** The output has no unescaped delimiter and leaves the escape scanner neutral. */
  lemma EscapeIsSafe(s: string)
    ensures Neutral(Lex(EscapeString(s)))
    ensures forall d :: d in DELIMITERS ==> Bare(d) !in Lex(EscapeString(s))
  {
    EscapeIsSinglePass(s);
    TextUnitsSafe(s);
    LexOfRender(TextUnits(s));
  }

  // ---------------------------------------------------------------- undoing it

  function IndexOf(s: string, c: char): (i: nat)
    ensures i <= |s| && (i < |s| ==> s[i] == c) && forall k :: 0 <= k < i ==> s[k] != c
  {
    if s == "" || s[0] == c then 0 else 1 + IndexOf(s[1..], c)
  }

  function Cons(c: char, r: Option<string>): Option<string> {
    match r
    case None => None
    case Some(s) => Some([c] + s)
  }

  predicate IsScalar(n: nat) {
    n < 0xD800 || 0xE000 <= n < 0x11_0000
  }

  /** Reads the escapes that `escape_string` writes; None on any other use of a backslash. */
  function Unescape(s: string): Option<string>
    decreases |s|
  {
    if s == "" then Some("")
    else if s[0] != BACKSLASH then Cons(s[0], Unescape(s[1..]))
    else if |s| == 1 then None
    else
      var c := s[1];
      if c == 't' then Cons('\t', Unescape(s[2..]))
      else if c == 'r' then Cons('\r', Unescape(s[2..]))
      else if c == 'n' then Cons('\n', Unescape(s[2..]))
      else if c == 'u' then
        var close := IndexOf(s, '}');
        if |s| < 4 || s[2] != '{' || close == |s| || close < 3 then None
        else
          match ParseDigits(s[3..close], 16)
          case None => None
          case Some(n) => if IsScalar(n) then Cons(n as char, Unescape(s[close + 1..])) else None
      else if c in DELIMITERS || c == '\'' || c == '\"' || c == BACKSLASH then Cons(c, Unescape(s[2..]))
      else None
  }

  lemma UnescapeBraced(hex: string, n: nat, rest: string)
    requires '}' !in hex && ParseDigits(hex, 16) == Some(n) && IsScalar(n)
    requires hex != ""
    ensures Unescape("\\u{" + hex + "}" + rest) == Cons(n as char, Unescape(rest))
  {
    var s := "\\u{" + hex + "}" + rest;
    var close := 3 + |hex|;
    var i := IndexOf(s, '}');
    assert s[close] == '}';
    assert forall k :: 0 <= k < close ==> s[k] == if k < 3 then "\\u{"[k] else hex[k - 3];
    assert i == close;
    assert s[3..close] == hex && s[close + 1..] == rest;
  }

  lemma UnescapeUnicode(c: char, rest: string)
    requires !IsPlain(c)
    ensures Unescape(UnicodeEscape(c) + rest) == Cons(c, Unescape(rest))
  {
    var hex := Digits(c as int, 16);
    assert forall d :: d in hex ==> IsLowerHex(d);
    ParseDigitsOfDigits(c as int, 16);
    UnescapeBraced(hex, c as int, rest);
  }

  lemma UnescapeEscaped(c: char, rest: string)
    requires NeedsBackslash(c)
    ensures Unescape([BACKSLASH, LetterEscape(c)] + rest) == Cons(c, Unescape(rest))
  {
    UnescapeLetter(LetterEscape(c), rest);
    assert LetterEscape(c) != 'u' && (LetterEscape(c) == c || c in {'\t', '\r', '\n'});
  }

  lemma UnescapeLetter(x: char, rest: string)
    requires x != 'u'
    ensures Unescape([BACKSLASH, x] + rest) ==
            if x == 't' then Cons('\t', Unescape(rest))
            else if x == 'r' then Cons('\r', Unescape(rest))
            else if x == 'n' then Cons('\n', Unescape(rest))
            else if x in DELIMITERS || x == '\'' || x == '\"' || x == BACKSLASH then Cons(x, Unescape(rest))
            else None
  {
    var s := [BACKSLASH, x] + rest;
    assert s[0] == BACKSLASH && s[1] == x && s[2..] == rest;
  }

  lemma UnescapeBare(c: char, rest: string)
    requires c != BACKSLASH
    ensures Unescape([c] + rest) == Cons(c, Unescape(rest))
  {
    assert ([c] + rest)[1..] == rest;
  }

  lemma StripChar(seps: set<char>, c: char)
    requires seps <= DELIMITERS
    ensures Render(Strip(seps, CharUnits(c))) ==
            if NeedsBackslash(c) && c !in seps then [BACKSLASH, LetterEscape(c)]
            else if IsPlain(c) then [c]
            else UnicodeEscape(c)
  {
    if IsPlain(c) {
      var us := Strip(seps, CharUnits(c));
      assert us == [us[0]] && Render(us) == RenderUnit(us[0]) + Render([]);
    } else {
      RenderUnicode(c);
      assert Strip(seps, CharUnits(c)) == CharUnits(c);
    }
  }

  lemma UnescapeChar(seps: set<char>, c: char, rest: string)
    requires seps <= DELIMITERS
    ensures Unescape(Render(Strip(seps, CharUnits(c))) + rest) == Cons(c, Unescape(rest))
  {
    StripChar(seps, c);
    if NeedsBackslash(c) && c !in seps {
      UnescapeEscaped(c, rest);
    } else if IsPlain(c) {
      UnescapeBare(c, rest);
    } else {
      UnescapeUnicode(c, rest);
    }
  }

  /** Reading undoes escaping, also after earlier splits dropped the backslash in front of some separators. */
  lemma {:induction false} UnescapeStripped(seps: set<char>, s: string)
    requires seps <= DELIMITERS
    ensures Unescape(Render(Strip(seps, TextUnits(s)))) == Some(s)
  {
    if s == "" {
      assert Strip(seps, TextUnits(s)) == [];
    } else {
      assert s == [s[0]] + s[1..];
      StripAppend(seps, CharUnits(s[0]), TextUnits(s[1..]));
      RenderAppend(Strip(seps, CharUnits(s[0])), Strip(seps, TextUnits(s[1..])));
      UnescapeChar(seps, s[0], Render(Strip(seps, TextUnits(s[1..]))));
      UnescapeStripped(seps, s[1..]);
    }
  }

  lemma UnescapeUndoesEscape(s: string)
    ensures Unescape(EscapeString(s)) == Some(s)
  {
    EscapeIsSinglePass(s);
    UnescapeStripped({}, s);
    StripNothing(TextUnits(s));
  }
}

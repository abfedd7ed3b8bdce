/**
 * Texts in which a backslash escapes the character after it, seen as a sequence of units:
 * a bare character or an escaped one. Separators count only when they are bare.
 */
module Wire {
  import opened Prelude

  datatype Unit = Bare(c: char) | Esc(c: char)

  function RenderUnit(u: Unit): string {
    match u
    case Bare(c) => [c]
    case Esc(c) => [BACKSLASH, c]
  }

  function Render(us: seq<Unit>): string {
    if us == [] then "" else RenderUnit(us[0]) + Render(us[1..])
  }

  /** The escape scanner. A backslash at the very end of the input is left bare. */
  function Lex(s: string): seq<Unit> {
    if s == "" then []
    else if s[0] == BACKSLASH && |s| > 1 then [Esc(s[1])] + Lex(s[2..])
    else [Bare(s[0])] + Lex(s[1..])
  }

  /** No bare backslash: the scanner ends such a text outside an escape. */
  predicate Neutral(us: seq<Unit>) {
    Bare(BACKSLASH) !in us
  }

  /** No character of `bad` is bare. */
  predicate Avoids(bad: set<char>, us: seq<Unit>) {
    forall c :: c in bad ==> Bare(c) !in us
  }

  lemma AvoidsAppend(bad: set<char>, a: seq<Unit>, b: seq<Unit>)
    ensures Avoids(bad, a + b) <==> Avoids(bad, a) && Avoids(bad, b)
  {
    if Avoids(bad, a + b) {
      forall c | c in bad ensures Bare(c) !in a && Bare(c) !in b {
        assert Bare(c) !in a + b;
      }
    }
  }

  lemma AvoidsAround(bad: set<char>, a: seq<Unit>, sep: char, b: seq<Unit>)
    requires sep !in bad && Avoids(bad, a) && Avoids(bad, b)
    ensures Avoids(bad, a + [Bare(sep)] + b)
  {
  }

  lemma RenderAround(a: seq<Unit>, sep: char, b: seq<Unit>)
    ensures Render(a + [Bare(sep)] + b) == Render(a) + [sep] + Render(b)
  {
    RenderAppend(a + [Bare(sep)], b);
    RenderAppend(a, [Bare(sep)]);
    assert Render([Bare(sep)]) == [sep] + Render([]);
  }

  lemma {:induction false} AvoidsJoin(bad: set<char>, sep: char, uss: seq<seq<Unit>>)
    requires sep !in bad && forall us :: us in uss ==> Avoids(bad, us)
    ensures Avoids(bad, Join([Bare(sep)], uss))
  {
    if uss != [] {
      assert uss[0] in uss;
    }
    if |uss| > 1 {
      AvoidsJoin(bad, sep, uss[1..]);
      AvoidsAround(bad, uss[0], sep, Join([Bare(sep)], uss[1..]));
    }
  }

  lemma {:induction false} RenderAppend(a: seq<Unit>, b: seq<Unit>)
    ensures Render(a + b) == Render(a) + Render(b)
  {
    if a == [] {
      assert a + b == b;
    } else {
      assert (a + b)[1..] == a[1..] + b;
      RenderAppend(a[1..], b);
    }
  }

  lemma {:induction false} LexOfRender(us: seq<Unit>)
    requires Neutral(us)
    ensures Lex(Render(us)) == us
  {
    if us != [] {
      var s, rest := Render(us), Render(us[1..]);
      LexOfRender(us[1..]);
      assert us == [us[0]] + us[1..];
      match us[0]
      case Bare(c) => assert s == [c] + rest && s[1..] == rest;
      case Esc(c) => assert s == [BACKSLASH, c] + rest && s[2..] == rest;
    }
  }

  /** Plain text as units. */
  function Bares(s: string): (us: seq<Unit>)
    ensures |us| == |s| && forall i :: 0 <= i < |s| ==> us[i] == Bare(s[i])
  {
    seq(|s|, i requires 0 <= i < |s| => Bare(s[i]))
  }

  lemma {:induction false} RenderBares(s: string)
    ensures Render(Bares(s)) == s
  {
    if s != "" {
      assert Bares(s)[1..] == Bares(s[1..]);
      RenderBares(s[1..]);
    }
  }

  /** What earlier splits at the separators `seps` have done to a unit: they dropped the backslash. */
  function StripUnit(seps: set<char>, u: Unit): Unit {
    if u.Esc? && u.c in seps then Bare(u.c) else u
  }

  function Strip(seps: set<char>, us: seq<Unit>): (r: seq<Unit>)
    ensures |r| == |us| && forall i :: 0 <= i < |us| ==> r[i] == StripUnit(seps, us[i])
  {
    seq(|us|, i requires 0 <= i < |us| => StripUnit(seps, us[i]))
  }

  lemma StripAppend(seps: set<char>, a: seq<Unit>, b: seq<Unit>)
    ensures Strip(seps, a + b) == Strip(seps, a) + Strip(seps, b)
  {
  }

  lemma StripStrip(s: set<char>, t: set<char>, us: seq<Unit>)
    ensures Strip(t, Strip(s, us)) == Strip(s + t, us)
  {
  }

  lemma StripNothing(us: seq<Unit>)
    ensures Strip({}, us) == us
  {
  }

  /** The units up to the first bare `sep`, and those after it. */
  function UpTo(sep: char, us: seq<Unit>): (r: seq<Unit>)
    ensures r <= us && Bare(sep) !in r && (|r| < |us| ==> us[|r|] == Bare(sep))
  {
    if us == [] || us[0] == Bare(sep) then [] else [us[0]] + UpTo(sep, us[1..])
  }

  function After(sep: char, us: seq<Unit>): (r: seq<Unit>)
    ensures |r| <= |us| && (us != [] ==> |r| < |us|)
  {
    var n := |UpTo(sep, us)|;
    if n == |us| then [] else us[n + 1..]
  }

  /** A prefix that is the whole text or was cut right in front of a bare character of `seps`. */
  predicate Cut(seps: set<char>, p: seq<Unit>, us: seq<Unit>) {
    p <= us && (|p| < |us| ==> us[|p|].Bare? && us[|p|].c in seps)
  }

  lemma UpToAppend(sep: char, a: seq<Unit>, b: seq<Unit>)
    requires Bare(sep) !in a
    ensures UpTo(sep, a + [Bare(sep)] + b) == a
    ensures After(sep, a + [Bare(sep)] + b) == b
  {
    var us := a + [Bare(sep)] + b;
    assert forall i :: 0 <= i < |a| ==> us[i] == a[i];
    assert us[|a|] == Bare(sep);
  }
}

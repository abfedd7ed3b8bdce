/** What the argument walker takes for sub-commands and flag values, told by the shape of the line. */
module CompletionLines {
  import opened FindCompletion

  /** A flag is some dashes and a name that does not begin with one. */
  datatype FlagWord = FlagWord(dashes: nat, name: string)

  /** A line is made of sub-commands, of flags with a value, and of flags without one. */
  datatype Part = Sub(word: string) | Valued(flag: FlagWord, value: string) | Lone(flag: FlagWord)

  function Dashes(n: nat): (s: string)
    ensures |s| == n && forall i :: 0 <= i < n ==> s[i] == '-'
  {
    seq(n, i => '-')
  }

  function FlagText(f: FlagWord): string {
    Dashes(f.dashes) + f.name
  }

  predicate IsFlagWord(f: FlagWord) {
    f.dashes >= 1 && !("-" <= f.name) && FlagText(f) != "--"
  }

  predicate IsPart(p: Part) {
    match p
    case Sub(word) => !("-" <= word)
    case Valued(flag, value) => IsFlagWord(flag) && !("-" <= value)
    case Lone(flag) => IsFlagWord(flag)
  }

  /** A flag without a value stands before another flag or at the end. */
  predicate IsLine(parts: seq<Part>) {
    && (forall i :: 0 <= i < |parts| ==> IsPart(parts[i]))
    && (forall i :: 0 < i < |parts| && parts[i].Sub? ==> !parts[i - 1].Lone?)
  }

  function PartArgs(p: Part): seq<string> {
    match p
    case Sub(word) => [word]
    case Valued(flag, value) => [FlagText(flag), value]
    case Lone(flag) => [FlagText(flag)]
  }

  function LineArgs(parts: seq<Part>): seq<string> {
    if parts == [] then [] else LineArgs(parts[..|parts| - 1]) + PartArgs(parts[|parts| - 1])
  }

  function SubWords(parts: seq<Part>): seq<string> {
    if parts == [] then []
    else
      var n := |parts| - 1;
      SubWords(parts[..n]) + if parts[n].Sub? then [parts[n].word] else []
  }

  /** A later value replaces an earlier one for the same name. */
  function ValuesByName(parts: seq<Part>): FlagMap {
    if parts == [] then map[]
    else
      var n := |parts| - 1;
      var before := ValuesByName(parts[..n]);
      if parts[n].Valued? then before[parts[n].flag.name := parts[n].value] else before
  }

  // ---------------------------------------------------------------- what is read of such a line

  lemma {:induction false} TrimFlag(f: FlagWord)
    requires !("-" <= f.name)
    ensures Trim(FlagText(f)) == f.name
    decreases f.dashes
  {
    if f.dashes == 0 {
      assert FlagText(f) == f.name;
    } else {
      assert FlagText(f)[1..] == FlagText(f.(dashes := f.dashes - 1));
      TrimFlag(f.(dashes := f.dashes - 1));
    }
  }

  lemma SubsSnoc(args: seq<string>, x: string)
    ensures Subs(args + [x]) == Subs(args) + if IsSub(args + [x], |args|) then [x] else []
    ensures Pairs(args + [x]) ==
            if args != [] && IsPair(args + [x], |args| - 1) then Pairs(args)[Trim(args[|args| - 1]) := x]
            else Pairs(args)
  {
    assert (args + [x])[..|args|] == args;
    assert args != [] ==> (args + [x])[|args| - 1] == args[|args| - 1];
  }

  lemma FlagSnoc(args: seq<string>, f: FlagWord)
    requires IsFlagWord(f)
    ensures Subs(args + [FlagText(f)]) == Subs(args) && Pairs(args + [FlagText(f)]) == Pairs(args)
    ensures "-" <= FlagText(f)
  {
    var x := FlagText(f);
    assert x[0] == '-' && "-" <= x;
    SubsSnoc(args, x);
    assert Subs(args) + [] == Subs(args);
  }

  lemma ValueSnoc(args: seq<string>, f: FlagWord, value: string)
    requires IsFlagWord(f) && !("-" <= value)
    ensures Subs(args + [FlagText(f), value]) == Subs(args)
    ensures Pairs(args + [FlagText(f), value]) == Pairs(args)[f.name := value]
  {
    var before := args + [FlagText(f)];
    assert args + [FlagText(f), value] == before + [value] && before[|args|] == FlagText(f);
    FlagSnoc(args, f);
    SubsSnoc(before, value);
    TrimFlag(f);
    assert Subs(args) + [] == Subs(args);
  }

  /** The last argument of a line is a flag only when its last part is a flag without a value. */
  lemma LastOfLine(parts: seq<Part>)
    requires IsLine(parts) && parts != []
    ensures var args := LineArgs(parts);
            args != [] && ("-" <= args[|args| - 1] <==> parts[|parts| - 1].Lone?)
  {
    var p := parts[|parts| - 1];
    assert IsPart(p);
    if p.Lone? {
      assert FlagText(p.flag)[0] == '-';
    }
  }

  /** The walker finds the sub-commands of a line in order, and by its name the last value of each flag. */
  lemma {:induction false} LineIsRead(parts: seq<Part>)
    requires IsLine(parts)
    ensures Subs(LineArgs(parts)) == SubWords(parts) && Pairs(LineArgs(parts)) == ValuesByName(parts)
    decreases |parts|
  {
    if parts != [] {
      var n := |parts| - 1;
      var init, p := parts[..n], parts[n];
      InitIsLine(parts);
      LineIsRead(init);
      PartIsRead(LineArgs(init), p);
    }
  }

  lemma InitIsLine(parts: seq<Part>)
    requires IsLine(parts) && parts != []
    ensures var n := |parts| - 1;
            var args := LineArgs(parts[..n]);
            IsLine(parts[..n]) && IsPart(parts[n]) && (parts[n].Sub? && args != [] ==> !("-" <= args[|args| - 1]))
  {
    var n := |parts| - 1;
    var init := parts[..n];
    assert forall i :: 0 <= i < n ==> init[i] == parts[i];
    if n > 0 {
      LastOfLine(init);
    }
  }

  /** What one more part adds to what has been read. */
  lemma PartIsRead(args: seq<string>, p: Part)
    requires IsPart(p) && (p.Sub? && args != [] ==> !("-" <= args[|args| - 1]))
    ensures Subs(args + PartArgs(p)) == Subs(args) + if p.Sub? then [p.word] else []
    ensures Pairs(args + PartArgs(p)) == if p.Valued? then Pairs(args)[p.flag.name := p.value] else Pairs(args)
  {
    assert Subs(args) + [] == Subs(args);
    if p.Sub? {
      SubsSnoc(args, p.word);
    } else if p.Valued? {
      ValueSnoc(args, p.flag, p.value);
    } else {
      FlagSnoc(args, p.flag);
    }
  }

  // ---------------------------------------------------------------- and every list of arguments is such a line

  lemma {:induction false} FlagWordOf(x: string) returns (f: FlagWord)
    ensures FlagText(f) == x && !("-" <= f.name) && ("-" <= x ==> f.dashes >= 1)
    decreases |x|
  {
    if "-" <= x {
      var g := FlagWordOf(x[1..]);
      f := g.(dashes := g.dashes + 1);
      assert FlagText(f) == ['-'] + FlagText(g) == x;
    } else {
      f := FlagWord(0, x);
      assert FlagText(f) == x;
    }
  }

  lemma {:induction false} EveryLine(args: seq<string>) returns (parts: seq<Part>)
    requires "--" !in args
    ensures IsLine(parts) && LineArgs(parts) == args
    decreases |args|
  {
    if args == [] {
      parts := [];
    } else {
      var n := |args| - 1;
      var x := args[n];
      var init := EveryLine(args[..n]);
      assert args == args[..n] + [x] && x in args;
      if "-" <= x {
        var f := FlagWordOf(x);
        LineSnoc(init, Lone(f));
        parts := init + [Lone(f)];
      } else if init != [] && init[|init| - 1].Lone? {
        parts := GivesValue(init, x);
      } else {
        LineSnoc(init, Part.Sub(x));
        parts := init + [Part.Sub(x)];
      }
    }
  }

  lemma LineSnoc(init: seq<Part>, p: Part)
    requires IsLine(init) && IsPart(p) && (p.Sub? && init != [] ==> !init[|init| - 1].Lone?)
    ensures IsLine(init + [p]) && LineArgs(init + [p]) == LineArgs(init) + PartArgs(p)
  {
    var parts := init + [p];
    ArgsSnoc(init, p);
    forall i | 0 <= i < |parts| ensures IsPart(parts[i]) && (i > 0 && parts[i].Sub? ==> !parts[i - 1].Lone?) {
      assert parts[i] == if i < |init| then init[i] else p;
    }
  }

  lemma ArgsSnoc(init: seq<Part>, p: Part)
    ensures LineArgs(init + [p]) == LineArgs(init) + PartArgs(p)
  {
    assert (init + [p])[..|init|] == init;
  }

  /** A word behind a flag without a value is its value. */
  lemma GivesValue(init: seq<Part>, x: string) returns (parts: seq<Part>)
    requires IsLine(init) && init != [] && init[|init| - 1].Lone? && !("-" <= x)
    ensures IsLine(parts) && LineArgs(parts) == LineArgs(init) + [x]
  {
    var m := |init| - 1;
    var f, before := init[m].flag, init[..m];
    assert IsPart(init[m]) && IsLine(before) by {
      assert forall i :: 0 <= i < m ==> before[i] == init[i];
    }
    LineSnoc(before, Valued(f, x));
    parts := before + [Valued(f, x)];
    assert LineArgs(before) + [FlagText(f), x] == LineArgs(before) + [FlagText(f)] + [x];
  }

  /** So these are the sub-commands and flag values of any list of arguments without `--`. */
  lemma ReadsAsLine(args: seq<string>) returns (parts: seq<Part>)
    requires "--" !in args
    ensures IsLine(parts) && LineArgs(parts) == args
    ensures Subs(args) == SubWords(parts) && Pairs(args) == ValuesByName(parts)
  {
    parts := EveryLine(args);
    LineIsRead(parts);
  }
}

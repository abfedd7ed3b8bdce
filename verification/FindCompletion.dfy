/** `CompleteKind::find`: which completion a command line asks for, and the flag arguments on it. */
module FindCompletion {
  import opened Prelude
  import opened CommandTree

  datatype CompleteKind = Uncompletable | List(offer: seq<Completable>) | OfFlag(kind: string)

  /** Keys of the map are flags without their leading dashes. */
  type FlagMap = map<string, string>

  predicate IsDash(arg: string): (b: bool)
    ensures b <==> "-" <= arg
  {
    arg != "" && arg[0] == '-'
  }

  /** `trim_start_matches('-')`. */
  function Trim(arg: string): (r: string)
    ensures !IsDash(r)
  {
    if IsDash(arg) then Trim(arg[1..]) else arg
  }

  // ---------------------------------------------------------------- the adjacency rule

  /** The i-th argument is a sub-command: it is no flag and does not directly follow one. */
  predicate IsSub(args: seq<string>, i: nat)
    requires i < |args|
  {
    !IsDash(args[i]) && (i == 0 || !IsDash(args[i - 1]))
  }

  /** The i-th argument is a flag and the next one is its value. */
  predicate IsPair(args: seq<string>, i: nat) {
    i + 1 < |args| && IsDash(args[i]) && !IsDash(args[i + 1])
  }

  function Subs(args: seq<string>): seq<string> {
    if args == [] then []
    else
      var n := |args| - 1;
      Subs(args[..n]) + if IsSub(args, n) then [args[n]] else []
  }

  function Pairs(args: seq<string>): FlagMap {
    if |args| <= 1 then map[]
    else
      var n := |args| - 1;
      var before := Pairs(args[..n]);
      if IsPair(args, n - 1) then before[Trim(args[n - 1]) := args[n]] else before
  }

  /** A flag is bound to the value next to its last occurrence that has one. */
  predicate LastPair(args: seq<string>, flag: string, i: nat) {
    && IsPair(args, i) && Trim(args[i]) == flag
    && forall j :: i < j < |args| && IsPair(args, j) ==> Trim(args[j]) != flag
  }

  lemma {:induction false} LastPairWins(args: seq<string>, flag: string)
    ensures flag in Pairs(args) <==> exists i: nat :: IsPair(args, i) && Trim(args[i]) == flag
    ensures forall i: nat :: LastPair(args, flag, i) ==> flag in Pairs(args) && Pairs(args)[flag] == args[i + 1]
  {
    if |args| > 1 {
      var n := |args| - 1;
      var shorter := args[..n];
      LastPairWins(shorter, flag);
      assert forall i: nat :: i < n - 1 ==> (IsPair(args, i) <==> IsPair(shorter, i));
      forall i: nat | LastPair(args, flag, i) ensures flag in Pairs(args) && Pairs(args)[flag] == args[i + 1] {
        assert i < n - 1 ==> LastPair(shorter, flag, i);
      }
      if IsPair(args, n - 1) && Trim(args[n - 1]) == flag {
        assert flag in Pairs(args);
      } else if exists i: nat :: IsPair(args, i) && Trim(args[i]) == flag {
        var i: nat :| IsPair(args, i) && Trim(args[i]) == flag;
        assert i < n - 1 && IsPair(shorter, i) && shorter[i] == args[i];
      } else {
        assert forall i: nat :: IsPair(shorter, i) ==> IsPair(args, i) && shorter[i] == args[i];
      }
    }
  }

  /** `FlagMap::get_flag`: the long name first. */
  function GetFlag(flags: FlagMap, long: string, short: string): Option<string> {
    if long in flags then Some(flags[long])
    else if short in flags then Some(flags[short])
    else None
  }

  ghost predicate HasValue(args: seq<string>, flag: string) {
    exists i: nat :: IsPair(args, i) && Trim(args[i]) == flag
  }

  /** A flag lookup answers the last value of the long name, of the short one only when the long has none. */
  lemma GetFlagIsLast(args: seq<string>, long: string, short: string, i: nat)
    requires LastPair(args, long, i) || (!HasValue(args, long) && LastPair(args, short, i))
    ensures GetFlag(Pairs(args), long, short) == Some(args[i + 1])
  {
    LastPairWins(args, long);
    LastPairWins(args, short);
  }

  lemma GetFlagIsNone(args: seq<string>, long: string, short: string)
    ensures GetFlag(Pairs(args), long, short) == None <==> !HasValue(args, long) && !HasValue(args, short)
  {
    LastPairWins(args, long);
    LastPairWins(args, short);
  }

  // ---------------------------------------------------------------- the answer

  /** `Flag::matches`. */
  predicate Matches(c: Completable, arg: string) {
    c.Flag? && ((c.long != "" && arg == c.long) || (c.short != "" && arg == c.short))
  }

  function FirstMatch(offer: seq<Completable>, arg: string): (r: Option<Completable>)
    ensures r.Some? ==> Matches(r.value, arg) && r.value in offer
    ensures r.None? ==> forall c :: c in offer ==> !Matches(c, arg)
  {
    if offer == [] then None
    else if Matches(offer[0], arg) then Some(offer[0])
    else FirstMatch(offer[1..], arg)
  }

  /** What the offer of the current command means for the last argument. */
  function Answer(offer: seq<Completable>, last: string): CompleteKind {
    if !IsDash(last) then List(offer)
    else
      match FirstMatch(offer, last)
      case None => Uncompletable
      case Some(flag) =>
        if flag.kind == "None" then List(offer)
        else if flag.kind == "Uncompletable" then Uncompletable
        else OfFlag(flag.kind)
  }

  /** The flag is called so, by its long or its short name; an empty name is none. */
  ghost predicate IsCalled(c: Completable, name: string) {
    c.Flag? && name != "" && (c.long == name || c.short == name)
  }

  ghost predicate IsFirstCalled(offer: seq<Completable>, name: string, i: nat) {
    i < |offer| && IsCalled(offer[i], name) && forall j :: 0 <= j < i ==> !IsCalled(offer[j], name)
  }

  /**
   * The answer told over the places of the offer. Behind a flag that takes no argument, or behind no flag, the
   * offer is listed; a flag that takes one is answered with its kind; an unknown flag is not completed.
   */
  ghost predicate AnswersBy(offer: seq<Completable>, last: string, kind: CompleteKind) {
    && (!("-" <= last) ==> kind == List(offer))
    && ("-" <= last && (forall i :: 0 <= i < |offer| ==> !IsCalled(offer[i], last)) ==> kind == Uncompletable)
    && ("-" <= last ==>
          forall i: nat :: IsFirstCalled(offer, last, i) ==>
            && (offer[i].kind == "None" ==> kind == List(offer))
            && (offer[i].kind == "Uncompletable" ==> kind == Uncompletable)
            && (offer[i].kind != "None" && offer[i].kind != "Uncompletable" ==> kind == OfFlag(offer[i].kind)))
  }

  lemma {:induction false} FirstMatchAt(offer: seq<Completable>, last: string, i: nat)
    requires IsFirstCalled(offer, last, i)
    ensures FirstMatch(offer, last) == Some(offer[i])
    decreases |offer|
  {
    if i > 0 {
      assert offer[0] == offer[..i][0] && !IsCalled(offer[0], last);
      assert forall j :: 0 <= j < i - 1 ==> offer[1..][j] == offer[j + 1];
      FirstMatchAt(offer[1..], last, i - 1);
    }
  }

  lemma AnswerIs(offer: seq<Completable>, last: string)
    ensures AnswersBy(offer, last, Answer(offer, last))
  {
    forall i: nat | IsFirstCalled(offer, last, i) ensures FirstMatch(offer, last) == Some(offer[i]) {
      FirstMatchAt(offer, last, i);
    }
    if FirstMatch(offer, last).Some? {
      var c := FirstMatch(offer, last).value;
      var i :| 0 <= i < |offer| && offer[i] == c;
      assert "-" <= last ==> IsCalled(offer[i], last);
    }
  }

  method CompleteFlag(offer: seq<Completable>, last: string) returns (kind: CompleteKind)
    requires IsDash(last)
    ensures kind == Answer(offer, last) && AnswersBy(offer, last, kind)
  {
    AnswerIs(offer, last);
    var i := 0;
    while i < |offer|
      invariant i <= |offer| && FirstMatch(offer, last) == FirstMatch(offer[i..], last)
    {
      var c := offer[i];
      assert offer[i..][0] == c && offer[i..][1..] == offer[i + 1..];
      if Matches(c, last) {
        if c.kind == "None" {
          return List(offer);
        }
        return if c.kind == "Uncompletable" then Uncompletable else OfFlag(c.kind);
      }
      i := i + 1;
    }
    return Uncompletable;
  }

  /** The index of the first `--`, or the number of arguments. */
  function DashDashAt(args: seq<string>): (k: nat)
    ensures k <= |args| && "--" !in args[..k] && (k < |args| ==> args[k] == "--")
  {
    if args == [] || args[0] == "--" then 0 else 1 + DashDashAt(args[1..])
  }

  lemma {:induction false} DashDashIsAt(args: seq<string>, k: nat)
    requires k <= |args| && "--" !in args[..k] && (k < |args| ==> args[k] == "--")
    ensures DashDashAt(args) == k
  {
    if k > 0 {
      assert args[0] == args[..k][0] && args[..k][1..] == args[1..][..k - 1];
      DashDashIsAt(args[1..], k - 1);
    }
  }

  /** What the arguments before the k-th come to. */
  predicate Scanned(args: seq<string>, k: nat, subcommands: seq<string>, flagMap: FlagMap) {
    k <= |args| && "--" !in args[..k] && subcommands == Subs(args[..k]) && flagMap == Pairs(args[..k])
  }

  /** The k-th argument does not follow a flag, or is a flag itself: it is not somebody's value. */
  predicate Free(args: seq<string>, k: nat) {
    0 < k < |args| && !IsDash(args[k]) ==> !IsDash(args[k - 1])
  }

  lemma ScanSub(args: seq<string>, k: nat, subcommands: seq<string>, flagMap: FlagMap)
    requires k < |args| && Scanned(args, k, subcommands, flagMap) && Free(args, k) && !IsDash(args[k])
    ensures Scanned(args, k + 1, subcommands + [args[k]], flagMap)
  {
    assert args[..k + 1][..k] == args[..k] && args[..k + 1] == args[..k] + [args[k]];
  }

  lemma ScanFlag(args: seq<string>, k: nat, subcommands: seq<string>, flagMap: FlagMap)
    requires k < |args| && Scanned(args, k, subcommands, flagMap) && IsDash(args[k]) && args[k] != "--"
    ensures Scanned(args, k + 1, subcommands, flagMap)
  {
    assert args[..k + 1][..k] == args[..k] && args[..k + 1] == args[..k] + [args[k]];
    assert Subs(args[..k]) + [] == Subs(args[..k]);
  }

  lemma ScanValue(args: seq<string>, k: nat, subcommands: seq<string>, flagMap: FlagMap)
    requires 0 < k < |args| && Scanned(args, k, subcommands, flagMap) && IsPair(args, k - 1)
    ensures Scanned(args, k + 1, subcommands, flagMap[Trim(args[k - 1]) := args[k]])
  {
    assert args[..k + 1][..k] == args[..k] && args[..k + 1] == args[..k] + [args[k]];
    assert Subs(args[..k]) + [] == Subs(args[..k]);
  }

  /** The push-back loop, up to the first `--` or the end. */
  method Scan(args: seq<string>) returns (subcommands: seq<string>, flagMap: FlagMap, dashDash: bool)
    ensures dashDash == ("--" in args)
    ensures subcommands == Subs(args[..DashDashAt(args)]) && flagMap == Pairs(args[..DashDashAt(args)])
  {
    subcommands, flagMap := [], map[];
    ghost var k := 0;
    var it := 0;
    var cur: Option<string> := None;
    while true
      invariant k + (if cur.Some? then 1 else 0) == it <= |args|
      invariant cur.Some? ==> cur.value == args[k] && IsDash(args[k])
      invariant Free(args, k) && Scanned(args, k, subcommands, flagMap)
      decreases |args| - k
    {
      var arg;
      if cur.None? {
        if it == |args| {
          break;
        }
        arg, it := args[it], it + 1;
      } else {
        arg, cur := cur.value, None;
      }
      if arg == "--" {
        DashDashIsAt(args, k);
        return subcommands, flagMap, true;
      }
      if IsDash(arg) {
        ScanFlag(args, k, subcommands, flagMap);
        k := k + 1;
        if it == |args| {
          break;
        }
        var v := args[it];
        it := it + 1;
        if !IsDash(v) {
          ScanValue(args, k, subcommands, flagMap);
          flagMap := flagMap[Trim(arg) := v];
          k := k + 1;
        } else {
          cur := Some(v);
        }
      } else {
        ScanSub(args, k, subcommands, flagMap);
        subcommands := subcommands + [arg];
        k := k + 1;
      }
    }
    DashDashIsAt(args, k);
    assert args[..k] == args;
    dashDash := false;
  }

  /**
   * `getCompletions` is the generated dispatcher, `base` its offer for no arguments. With `--` anywhere
   * nothing is completed; otherwise the sub-commands and flags are those of the adjacency rule.
   */
  method Find(args: seq<string>, base: seq<Completable>, getCompletions: seq<string> -> seq<Completable>)
    returns (kind: CompleteKind, flagMap: FlagMap)
    ensures flagMap == Pairs(args[..DashDashAt(args)])
    ensures kind == if args == [] then List(base)
                    else if "--" in args then Uncompletable
                    else Answer(getCompletions(Subs(args)), args[|args| - 1])
    ensures args != [] && "--" !in args ==> AnswersBy(getCompletions(Subs(args)), args[|args| - 1], kind)
  {
    if args == [] {
      return List(base), map[];
    }
    var last := args[|args| - 1];
    var subcommands, dashDash;
    subcommands, flagMap, dashDash := Scan(args);
    if dashDash {
      return Uncompletable, flagMap;
    }
    DashDashIsAt(args, |args|);
    assert args[..|args|] == args;
    var offer := getCompletions(subcommands);
    AnswerIs(offer, last);
    if IsDash(last) {
      kind := CompleteFlag(offer, last);
    } else {
      kind := List(offer);
    }
  }

  /**
   * Joined with the generated code: without `--`, the answer is the one for the offer of the command that the
   * sub-command words lead to furthest, whether or not the line ends in a flag.
   */
  method FindInTree(args: seq<string>, commands: seq<Sub>) returns (kind: CompleteKind, flagMap: FlagMap)
    requires DistinctNames(GenFns(None, commands))
    ensures "--" in args ==> kind == Uncompletable
    ensures "--" !in args ==> flagMap == Pairs(args)
    ensures args == [] ==> kind == List(BaseTable(commands))
    ensures args != [] && "--" !in args ==>
              forall n: nat :: Furthest(commands, Subs(args), n) ==>
                kind == Answer(Offer(BaseTable(commands), commands, Subs(args)[..n]), args[|args| - 1])
    ensures args != [] && "--" !in args ==>
              GetCompletions(commands, Subs(args)).Some?
              && AnswersBy(GetCompletions(commands, Subs(args)).value, args[|args| - 1], kind)
  {
    var base := BaseTable(commands);
    kind, flagMap := Find(args, base, words =>
      match GetCompletions(commands, words) case Some(offer) => offer case None => base);
    assert args[..|args|] == args;
    if "--" !in args {
      DashDashIsAt(args, |args|);
    }
    var k := RunFollowsTree(GenFns(None, commands), base, None, commands, Subs(args));
    forall n: nat | Furthest(commands, Subs(args), n)
      ensures GetCompletions(commands, Subs(args)) == Some(Offer(base, commands, Subs(args)[..n]))
    {
      DispatchIsWalk(commands, Subs(args), n);
    }
  }
}

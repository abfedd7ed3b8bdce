/** The completion compiler: a tree of commands becomes functions that match one argument each and call on. */
module CommandTree {
  import opened Prelude

  datatype Opt = Opt(long: string, short: string, kind: string, help: string)

  /** Sub-commands are given in the iteration order of their hash map. */
  datatype Command = Command(options: seq<Opt>, help: string, subs: seq<Sub>)
  datatype Sub = Sub(name: string, cmd: Command)

  datatype Completable =
    | Flag(long: string, short: string, help: string, kind: string)
    | Simple(name: string, help: string)

  const HELP := Flag("--help", "-h", "Show this help and exit", "None")

  const BASE_FLAGS := [
    Flag("--log-stderr", "-e", "Log to stderr instead of a file", "None"),
    Flag("--log-file", "-f", "Send log to the given file", "File"),
    Flag("--log-spec", "-s", "flexi_logger log spec", "None"),
    Flag("--log-level", "-l", "Set the log level, 0 = warn, 1 = info, etc", "None"),
    HELP
  ]

  function Simples(subs: seq<Sub>): (r: seq<Completable>)
    ensures |r| == |subs|
  {
    seq(|subs|, i requires 0 <= i < |subs| => Simple(subs[i].name, subs[i].cmd.help))
  }

  function Flags(options: seq<Opt>): (r: seq<Completable>)
    ensures |r| == |options|
  {
    seq(|options|, i requires 0 <= i < |options| =>
      Flag(options[i].long, options[i].short, options[i].help, options[i].kind))
  }

  /** What a command offers: its help flag, its own flags, its sub-commands. */
  function Table(cmd: Command): seq<Completable> {
    [HELP] + Flags(cmd.options) + Simples(cmd.subs)
  }

  function BaseTable(commands: seq<Sub>): seq<Completable> {
    Simples(commands) + BASE_FLAGS
  }

  // ---------------------------------------------------------------- walking the tree

  function FindSub(subs: seq<Sub>, name: string): Option<Command>
  {
    if subs == [] then None
    else if subs[0].name == name then Some(subs[0].cmd)
    else FindSub(subs[1..], name)
  }

  /** The sub-commands under the path, when there is such a path. */
  function At(subs: seq<Sub>, path: seq<string>): Option<Command>
    requires path != []
    decreases |path|
  {
    match FindSub(subs, path[0])
    case None => None
    case Some(cmd) => if |path| == 1 then Some(cmd) else At(cmd.subs, path[1..])
  }

  predicate IsPath(subs: seq<Sub>, path: seq<string>) {
    path != [] ==> At(subs, path).Some?
  }

  /** The offer of the command the path leads to; the empty path leads to `top`. */
  function Offer(top: seq<Completable>, subs: seq<Sub>, path: seq<string>): seq<Completable>
    requires IsPath(subs, path)
  {
    if path == [] then top else Table(At(subs, path).value)
  }

  // ---------------------------------------------------------------- generated code

  /** One arm of a generated `match`: either a call that goes on, or a leaf's own table. */
  datatype Arm = CallArm(pattern: string, callee: string) | TableArm(pattern: string, table: seq<Completable>)

  datatype GenFn = GenFn(name: string, table: seq<Completable>, arms: seq<Arm>)

  function Underscored(name: string): (r: string)
    ensures |r| == |name|
  {
    seq(|name|, i requires 0 <= i < |name| => if name[i] == '-' then '_' else name[i])
  }

  function CmdEnum(parent: Option<string>, name: string): string {
    match parent
    case Some(v) => v + "_" + Underscored(name)
    case None => Underscored(name)
  }

  function FnName(name: string): string {
    name + "_get_completions"
  }

  function GenFns(parent: Option<string>, subs: seq<Sub>): seq<GenFn>
    decreases subs
  {
    if subs == [] then [] else GenFnsOf(parent, subs[0]) + GenFns(parent, subs[1..])
  }

  function GenFnsOf(parent: Option<string>, sub: Sub): seq<GenFn>
    decreases sub
  {
    if sub.cmd.subs == [] then []
    else
      var name := CmdEnum(parent, sub.name);
      GenFns(Some(name), sub.cmd.subs) + [GenFn(FnName(name), Table(sub.cmd), GenArms(Some(name), sub.cmd.subs))]
  }

  function GenArm(parent: Option<string>, sub: Sub): Arm {
    if sub.cmd.subs == [] then TableArm(sub.name, Table(sub.cmd))
    else CallArm(sub.name, FnName(CmdEnum(parent, sub.name)))
  }

  function GenArms(parent: Option<string>, subs: seq<Sub>): seq<Arm> {
    if subs == [] then [] else [GenArm(parent, subs[0])] + GenArms(parent, subs[1..])
  }

  class OutFile {
    var fns: seq<GenFn>

    constructor ()
      ensures fns == []
    {
      fns := [];
    }
  }

  class SubMatches {
    var arms: seq<Arm>

    constructor ()
      ensures arms == []
    {
      arms := [];
    }
  }

  lemma GenStep(fns: seq<GenFn>, arms: seq<Arm>, parent: Option<string>, commands: seq<Sub>, i: nat)
    requires i < |commands|
    ensures fns + GenFns(parent, commands[i..])
            == (fns + GenFnsOf(parent, commands[i])) + GenFns(parent, commands[i + 1..])
    ensures arms + GenArms(parent, commands[i..])
            == (arms + [GenArm(parent, commands[i])]) + GenArms(parent, commands[i + 1..])
    ensures fns + [] == fns && commands[|commands|..] == []
  {
    assert commands[i..][0] == commands[i] && commands[i..][1..] == commands[i + 1..];
  }

  lemma SnocInner(fns: seq<GenFn>, inner: seq<GenFn>, f: GenFn)
    ensures fns + inner + [f] == fns + (inner + [f])
  {
  }

  /** `write_gen_cmd_values`: appends the functions of all inner commands, and the arms for these ones. */
  method WriteGenCmdValues(out: OutFile, subMatches: SubMatches, commands: seq<Sub>, parent: Option<string>)
    modifies out, subMatches
    ensures out.fns == old(out.fns) + GenFns(parent, commands)
    ensures subMatches.arms == old(subMatches.arms) + GenArms(parent, commands)
    decreases commands
  {
    var i := 0;
    while i < |commands|
      invariant i <= |commands|
      invariant out.fns + GenFns(parent, commands[i..]) == old(out.fns) + GenFns(parent, commands)
      invariant subMatches.arms + GenArms(parent, commands[i..]) == old(subMatches.arms) + GenArms(parent, commands)
    {
      var sub := commands[i];
      var name := CmdEnum(parent, sub.name);
      GenStep(out.fns, subMatches.arms, parent, commands, i);
      if sub.cmd.subs != [] {
        var subSubMatches := new SubMatches();
        ghost var before := out.fns;
        WriteGenCmdValues(out, subSubMatches, sub.cmd.subs, Some(name));
        assert subSubMatches.arms == GenArms(Some(name), sub.cmd.subs);
        SnocInner(before, GenFns(Some(name), sub.cmd.subs), GenFn(FnName(name), Table(sub.cmd), subSubMatches.arms));
        out.fns := out.fns + [GenFn(FnName(name), Table(sub.cmd), subSubMatches.arms)];
        subMatches.arms := subMatches.arms + [CallArm(sub.name, FnName(name))];
      } else {
        subMatches.arms := subMatches.arms + [TableArm(sub.name, Table(sub.cmd))];
      }
      i := i + 1;
    }
  }

  // ---------------------------------------------------------------- running generated code

  function FindArm(arms: seq<Arm>, arg: string): (r: Option<Arm>) {
    if arms == [] then None
    else if arms[0].pattern == arg then Some(arms[0])
    else FindArm(arms[1..], arg)
  }

  function FindFn(prog: seq<GenFn>, name: string): (r: Option<GenFn>)
    ensures r.Some? ==> r.value in prog && r.value.name == name
  {
    if prog == [] then None
    else if prog[0].name == name then Some(prog[0])
    else FindFn(prog[1..], name)
  }

  /** Runs one function body; None when a call names no function. */
  function Run(prog: seq<GenFn>, table: seq<Completable>, arms: seq<Arm>, args: seq<string>): Option<seq<Completable>>
    decreases |args|
  {
    if args == [] then Some(table)
    else
      match FindArm(arms, args[0])
      case None => Some(table)
      case Some(TableArm(_, own)) => Some(own)
      case Some(CallArm(_, callee)) =>
        match FindFn(prog, callee)
        case None => None
        case Some(f) => Run(prog, f.table, f.arms, args[1..])
  }

  /** The generated `get_completions`. */
  function GetCompletions(commands: seq<Sub>, args: seq<string>): Option<seq<Completable>> {
    Run(GenFns(None, commands), BaseTable(commands), GenArms(None, commands), args)
  }

  /** The generated file compiles only when no two functions have one name. */
  predicate DistinctNames(prog: seq<GenFn>) {
    forall i, j :: 0 <= i < j < |prog| ==> prog[i].name != prog[j].name
  }

  lemma {:induction false} FindsTheOne(prog: seq<GenFn>, f: GenFn)
    requires DistinctNames(prog) && f in prog
    ensures FindFn(prog, f.name) == Some(f)
  {
    if prog[0] != f {
      var k :| 0 <= k < |prog| && prog[k] == f;
      assert prog[1..][k - 1] == f;
      FindsTheOne(prog[1..], f);
    }
  }

  /** The arm for an argument and the sub-command of that name; an inner command's functions are all emitted. */
  lemma {:induction false} ArmOfSub(parent: Option<string>, subs: seq<Sub>, arg: string)
    ensures match FindSub(subs, arg)
            case None => FindArm(GenArms(parent, subs), arg) == None
            case Some(cmd) =>
              var sub := Sub(arg, cmd);
              FindArm(GenArms(parent, subs), arg) == Some(GenArm(parent, sub))
              && forall f :: f in GenFnsOf(parent, sub) ==> f in GenFns(parent, subs)
  {
    if subs != [] {
      var arms := GenArms(parent, subs);
      assert arms[0] == GenArm(parent, subs[0]) && arms[1..] == GenArms(parent, subs[1..]);
      if subs[0].name == arg {
        assert subs[0] == Sub(arg, subs[0].cmd);
      } else {
        ArmOfSub(parent, subs[1..], arg);
      }
    }
  }

  /** `n` is how far the arguments can be followed. */
  predicate Furthest(subs: seq<Sub>, args: seq<string>, n: nat) {
    && n <= |args| && IsPath(subs, args[..n])
    && (n < |args| ==> !IsPath(subs, args[..n + 1]))
  }

  lemma StepDown(top: seq<Completable>, subs: seq<Sub>, args: seq<string>, cmd: Command, n: nat)
    requires args != [] && FindSub(subs, args[0]) == Some(cmd) && Furthest(cmd.subs, args[1..], n)
    ensures Furthest(subs, args, n + 1)
    ensures Offer(top, subs, args[..n + 1]) == Offer(Table(cmd), cmd.subs, args[1..][..n])
  {
    assert args[..n + 1][1..] == args[1..][..n] && args[..n + 1][0] == args[0];
    if n + 1 < |args| {
      assert args[..n + 2][1..] == args[1..][..n + 1] && args[..n + 2][0] == args[0];
    }
  }

  lemma StopsHere(prog: seq<GenFn>, top: seq<Completable>, parent: Option<string>, subs: seq<Sub>, args: seq<string>)
    requires args == [] || FindSub(subs, args[0]) == None
    ensures Furthest(subs, args, 0)
    ensures Run(prog, top, GenArms(parent, subs), args) == Some(Offer(top, subs, args[..0]))
  {
    ArmOfSub(parent, subs, if args == [] then "" else args[0]);
    if args != [] {
      assert args[..1][0] == args[0];
    }
  }

  lemma RunLeaf(prog: seq<GenFn>, top: seq<Completable>, parent: Option<string>, subs: seq<Sub>, args: seq<string>,
                cmd: Command)
    requires args != [] && FindSub(subs, args[0]) == Some(cmd) && cmd.subs == []
    ensures Run(prog, top, GenArms(parent, subs), args) == Some(Table(cmd))
  {
    ArmOfSub(parent, subs, args[0]);
  }

  lemma RunInner(prog: seq<GenFn>, top: seq<Completable>, parent: Option<string>, subs: seq<Sub>, args: seq<string>,
                 cmd: Command)
    requires args != [] && FindSub(subs, args[0]) == Some(cmd) && cmd.subs != []
    requires var name := CmdEnum(parent, args[0]);
             FindFn(prog, FnName(name)) == Some(GenFn(FnName(name), Table(cmd), GenArms(Some(name), cmd.subs)))
    ensures Run(prog, top, GenArms(parent, subs), args)
            == Run(prog, Table(cmd), GenArms(Some(CmdEnum(parent, args[0])), cmd.subs), args[1..])
  {
    ArmOfSub(parent, subs, args[0]);
  }

  /** Code for part of a tree, inside any program that holds its functions, follows the tree as far as it goes. */
  lemma {:induction false} RunFollowsTree(prog: seq<GenFn>, top: seq<Completable>, parent: Option<string>,
                                          subs: seq<Sub>, args: seq<string>) returns (n: nat)
    requires DistinctNames(prog) && forall f :: f in GenFns(parent, subs) ==> f in prog
    ensures Furthest(subs, args, n)
    ensures Run(prog, top, GenArms(parent, subs), args) == Some(Offer(top, subs, args[..n]))
    decreases |args|
  {
    if args == [] || FindSub(subs, args[0]) == None {
      StopsHere(prog, top, parent, subs, args);
      return 0;
    }
    var cmd := FindSub(subs, args[0]).value;
    if cmd.subs == [] {
      RunLeaf(prog, top, parent, subs, args, cmd);
      LeafStops(args[1..]);
      StepDown(top, subs, args, cmd, 0);
      return 1;
    }
    var name := CmdEnum(parent, args[0]);
    CalleeOfSub(prog, parent, subs, args[0], cmd);
    RunInner(prog, top, parent, subs, args, cmd);
    n := RunFollowsTree(prog, Table(cmd), Some(name), cmd.subs, args[1..]);
    StepDown(top, subs, args, cmd, n);
    n := n + 1;
  }

  lemma {:induction false} CalleeOfSub(prog: seq<GenFn>, parent: Option<string>, subs: seq<Sub>, arg: string,
                                       cmd: Command)
    requires DistinctNames(prog) && forall f :: f in GenFns(parent, subs) ==> f in prog
    requires FindSub(subs, arg) == Some(cmd) && cmd.subs != []
    ensures var name := CmdEnum(parent, arg);
            FindFn(prog, FnName(name)) == Some(GenFn(FnName(name), Table(cmd), GenArms(Some(name), cmd.subs)))
            && forall f :: f in GenFns(Some(name), cmd.subs) ==> f in prog
  {
    ArmOfSub(parent, subs, arg);
    var name := CmdEnum(parent, arg);
    var f := GenFn(FnName(name), Table(cmd), GenArms(Some(name), cmd.subs));
    assert f in GenFnsOf(parent, Sub(arg, cmd));
    FindsTheOne(prog, f);
    assert forall g :: g in GenFns(Some(name), cmd.subs) ==> g in GenFnsOf(parent, Sub(arg, cmd));
  }

  lemma LeafStops(args: seq<string>)
    ensures Furthest([], args, 0)
  {
  }

  lemma {:induction false} FurthestIsUnique(subs: seq<Sub>, args: seq<string>, m: nat, n: nat)
    requires Furthest(subs, args, m) && Furthest(subs, args, n)
    ensures m == n
  {
    if m < n {
      assert args[..n][..m + 1] == args[..m + 1];
      PathPrefix(subs, args[..n], m + 1);
    } else if n < m {
      assert args[..m][..n + 1] == args[..n + 1];
      PathPrefix(subs, args[..m], n + 1);
    }
  }

  lemma {:induction false} PathPrefix(subs: seq<Sub>, path: seq<string>, n: nat)
    requires n <= |path| && IsPath(subs, path)
    ensures IsPath(subs, path[..n])
    decreases |path|
  {
    if n > 1 {
      assert path[..n][1..] == path[1..][..n - 1] && path[..n][0] == path[0];
      PathPrefix(FindSub(subs, path[0]).value.subs, path[1..], n - 1);
    } else if n == 1 {
      assert path[..1][0] == path[0];
    }
  }

  /**
   * The dispatcher of a tree that compiles offers what the node offers that the longest matching
   * beginning of the arguments leads to, for every iteration order and every list of arguments.
   */
  lemma {:induction false} DispatchIsWalk(commands: seq<Sub>, args: seq<string>, n: nat)
    requires DistinctNames(GenFns(None, commands)) && Furthest(commands, args, n)
    ensures GetCompletions(commands, args) == Some(Offer(BaseTable(commands), commands, args[..n]))
  {
    var k := RunFollowsTree(GenFns(None, commands), BaseTable(commands), None, commands, args);
    FurthestIsUnique(commands, args, k, n);
  }

  // ---------------------------------------------------------------- what is offered

  /** The root offers an entry for each command, then five flags of its own, and nothing else. */
  lemma RootOffers(commands: seq<Sub>, args: seq<string>)
    requires DistinctNames(GenFns(None, commands)) && Furthest(commands, args, 0)
    ensures var got, n := GetCompletions(commands, args), |commands|;
            && got.Some? && |got.value| == n + 5
            && (forall i :: 0 <= i < n ==> got.value[i] == Simple(commands[i].name, commands[i].cmd.help))
            && got.value[n] == Flag("--log-stderr", "-e", "Log to stderr instead of a file", "None")
            && got.value[n + 1] == Flag("--log-file", "-f", "Send log to the given file", "File")
            && got.value[n + 2] == Flag("--log-spec", "-s", "flexi_logger log spec", "None")
            && got.value[n + 3] == Flag("--log-level", "-l", "Set the log level, 0 = warn, 1 = info, etc", "None")
            && got.value[n + 4] == Flag("--help", "-h", "Show this help and exit", "None")
  {
    DispatchIsWalk(commands, args, 0);
  }

  /**
   * Any other command offers its help flag, then one flag for each of its options and one entry for each of its
   * sub-commands, with their names, kinds and help texts, in order, and nothing else.
   */
  lemma CommandOffers(commands: seq<Sub>, args: seq<string>, n: nat, cmd: Command)
    requires DistinctNames(GenFns(None, commands)) && Furthest(commands, args, n) && n > 0
    requires At(commands, args[..n]) == Some(cmd)
    ensures var got, k := GetCompletions(commands, args), 1 + |cmd.options|;
            && got.Some? && |got.value| == k + |cmd.subs|
            && got.value[0] == Flag("--help", "-h", "Show this help and exit", "None")
            && (forall i :: 0 <= i < |cmd.options| ==>
                  var o := cmd.options[i]; got.value[1 + i] == Flag(o.long, o.short, o.help, o.kind))
            && (forall i :: 0 <= i < |cmd.subs| ==>
                  got.value[k + i] == Simple(cmd.subs[i].name, cmd.subs[i].cmd.help))
  {
    DispatchIsWalk(commands, args, n);
  }

  /** So these are the elements of the offer. */
  lemma CommandOffersIff(commands: seq<Sub>, args: seq<string>, n: nat, cmd: Command, c: Completable)
    requires DistinctNames(GenFns(None, commands)) && Furthest(commands, args, n) && n > 0
    requires At(commands, args[..n]) == Some(cmd)
    ensures GetCompletions(commands, args).Some?
    ensures c in GetCompletions(commands, args).value <==>
            || c == Flag("--help", "-h", "Show this help and exit", "None")
            || (exists o :: o in cmd.options && c == Flag(o.long, o.short, o.help, o.kind))
            || (exists sub :: sub in cmd.subs && c == Simple(sub.name, sub.cmd.help))
  {
    CommandOffers(commands, args, n, cmd);
    MembersOfOffer(GetCompletions(commands, args).value, cmd, c);
  }

  lemma MembersOfOffer(got: seq<Completable>, cmd: Command, c: Completable)
    requires var k := 1 + |cmd.options|;
             && |got| == k + |cmd.subs|
             && (forall i :: 0 <= i < |cmd.options| ==>
                   var o := cmd.options[i]; got[1 + i] == Flag(o.long, o.short, o.help, o.kind))
             && (forall i :: 0 <= i < |cmd.subs| ==> got[k + i] == Simple(cmd.subs[i].name, cmd.subs[i].cmd.help))
    ensures c in got <==>
            || c == got[0]
            || (exists o :: o in cmd.options && c == Flag(o.long, o.short, o.help, o.kind))
            || (exists sub :: sub in cmd.subs && c == Simple(sub.name, sub.cmd.help))
  {
    var k := 1 + |cmd.options|;
    if c in got {
      var j :| 0 <= j < |got| && got[j] == c;
      if 0 < j < k {
        assert cmd.options[j - 1] in cmd.options && got[1 + (j - 1)] == c;
      } else if j >= k {
        assert cmd.subs[j - k] in cmd.subs && got[k + (j - k)] == c;
      }
    }
    if o :| o in cmd.options && c == Flag(o.long, o.short, o.help, o.kind) {
      var i :| 0 <= i < |cmd.options| && cmd.options[i] == o;
      assert got[1 + i] == c;
    }
    if sub :| sub in cmd.subs && c == Simple(sub.name, sub.cmd.help) {
      var i :| 0 <= i < |cmd.subs| && cmd.subs[i] == sub;
      assert got[k + i] == c;
    }
  }

  // ---------------------------------------------------------------- when the names are distinct

  /** The keys of a hash map are distinct, at every level. */
  predicate DistinctSubs(subs: seq<Sub>)
    decreases subs
  {
    subs != [] ==>
      && (forall i :: 0 < i < |subs| ==> subs[i].name != subs[0].name)
      && DistinctSubsOf(subs[0])
      && DistinctSubs(subs[1..])
  }

  predicate DistinctSubsOf(sub: Sub)
    decreases sub
  {
    DistinctSubs(sub.cmd.subs)
  }

  /** The path leads to a command that has sub-commands. */
  predicate IsInner(subs: seq<Sub>, path: seq<string>) {
    path != [] && At(subs, path).Some? && At(subs, path).value.subs != []
  }

  /** The name `cmd_enum` builds up along a path. */
  function NameOf(parent: Option<string>, path: seq<string>): string
    requires path != []
    decreases |path|
  {
    var name := CmdEnum(parent, path[0]);
    if |path| == 1 then name else NameOf(Some(name), path[1..])
  }

  /** The inner paths in the order in which their functions are written. */
  function Inner(subs: seq<Sub>): seq<seq<string>>
    decreases subs
  {
    if subs == [] then [] else InnerOf(subs[0]) + Inner(subs[1..])
  }

  function InnerOf(sub: Sub): seq<seq<string>>
    decreases sub
  {
    if sub.cmd.subs == [] then [] else Under(sub.name, Inner(sub.cmd.subs)) + [[sub.name]]
  }

  function Under(name: string, paths: seq<seq<string>>): (r: seq<seq<string>>)
    ensures |r| == |paths|
  {
    seq(|paths|, i requires 0 <= i < |paths| => [name] + paths[i])
  }

  /** The i-th function is named after the i-th inner path. */
  predicate NamedAfter(fns: seq<GenFn>, parent: Option<string>, paths: seq<seq<string>>) {
    |fns| == |paths| && forall i :: 0 <= i < |fns| ==> paths[i] != [] && fns[i].name == FnName(NameOf(parent, paths[i]))
  }

  lemma {:induction false} FnsNamedAfterPaths(parent: Option<string>, subs: seq<Sub>)
    ensures NamedAfter(GenFns(parent, subs), parent, Inner(subs))
    decreases subs
  {
    if subs != [] {
      FnsOfNamedAfterPaths(parent, subs[0]);
      FnsNamedAfterPaths(parent, subs[1..]);
    }
  }

  lemma {:induction false} FnsOfNamedAfterPaths(parent: Option<string>, sub: Sub)
    ensures NamedAfter(GenFnsOf(parent, sub), parent, InnerOf(sub))
    decreases sub
  {
    if sub.cmd.subs != [] {
      var name := CmdEnum(parent, sub.name);
      var paths := Inner(sub.cmd.subs);
      FnsNamedAfterPaths(Some(name), sub.cmd.subs);
      forall i | 0 <= i < |paths| ensures NameOf(parent, [sub.name] + paths[i]) == NameOf(Some(name), paths[i]) {
        assert ([sub.name] + paths[i])[1..] == paths[i];
      }
    }
  }

  lemma {:induction false} InnerOfPaths(sub: Sub, path: seq<string>)
    requires DistinctSubsOf(sub)
    ensures path in InnerOf(sub) <==>
            && path != [] && path[0] == sub.name
            && if |path| == 1 then sub.cmd.subs != [] else IsInner(sub.cmd.subs, path[1..])
    decreases sub
  {
    var paths := Inner(sub.cmd.subs);
    if path != [] {
      InnerPaths(sub.cmd.subs, path[1..]);
      assert path == [path[0]] + path[1..];
    }
    if sub.cmd.subs != [] {
      UnderMembers(sub.name, paths, path);
      InnerNotEmpty(sub.cmd.subs);
      assert |path| == 1 ==> path[1..] == [] && path == [path[0]];
      assert path in InnerOf(sub) <==> path in Under(sub.name, paths) || path == [sub.name];
    }
  }

  lemma UnderMembers(name: string, paths: seq<seq<string>>, path: seq<string>)
    ensures path in Under(name, paths) <==> path != [] && path[0] == name && path[1..] in paths
  {
    if path in Under(name, paths) {
      var i :| 0 <= i < |paths| && Under(name, paths)[i] == path;
      assert path[1..] == paths[i];
    }
    if path != [] && path[0] == name && path[1..] in paths {
      var i :| 0 <= i < |paths| && paths[i] == path[1..];
      assert Under(name, paths)[i] == path;
    }
  }

  lemma {:induction false} InnerNotEmpty(subs: seq<Sub>)
    ensures [] !in Inner(subs)
  {
    FnsNamedAfterPaths(None, subs);
  }

  /** The listed paths are exactly the inner ones. */
  lemma {:induction false} InnerPaths(subs: seq<Sub>, path: seq<string>)
    requires DistinctSubs(subs)
    ensures path in Inner(subs) <==> IsInner(subs, path)
    decreases subs
  {
    if subs != [] {
      InnerOfPaths(subs[0], path);
      InnerPaths(subs[1..], path);
      if path != [] && path[0] == subs[0].name {
        NoSuchSub(subs[1..], path[0]);
      }
    }
  }

  lemma {:induction false} NoSuchSub(subs: seq<Sub>, name: string)
    requires forall i :: 0 <= i < |subs| ==> subs[i].name != name
    ensures FindSub(subs, name) == None
  {
    if subs != [] {
      NoSuchSub(subs[1..], name);
    }
  }

  predicate NoRepeat(paths: seq<seq<string>>) {
    forall i, j :: 0 <= i < j < |paths| ==> paths[i] != paths[j]
  }

  lemma NoRepeatAppend(a: seq<seq<string>>, b: seq<seq<string>>)
    requires NoRepeat(a) && NoRepeat(b) && forall p :: p in a ==> p !in b
    ensures NoRepeat(a + b)
  {
    var all := a + b;
    forall i, j | 0 <= i < j < |all| ensures all[i] != all[j] {
      if i < |a| <= j {
        assert all[i] in a && all[j] in b;
      }
    }
  }

  lemma {:induction false} InnerNoRepeat(subs: seq<Sub>)
    requires DistinctSubs(subs)
    ensures NoRepeat(Inner(subs))
    decreases subs
  {
    if subs != [] {
      InnerOfNoRepeat(subs[0]);
      InnerNoRepeat(subs[1..]);
      forall p | p in InnerOf(subs[0]) ensures p !in Inner(subs[1..]) {
        InnerOfPaths(subs[0], p);
        InnerPaths(subs[1..], p);
        NoSuchSub(subs[1..], subs[0].name);
      }
      NoRepeatAppend(InnerOf(subs[0]), Inner(subs[1..]));
    }
  }

  lemma {:induction false} InnerOfNoRepeat(sub: Sub)
    requires DistinctSubsOf(sub)
    ensures NoRepeat(InnerOf(sub))
    decreases sub
  {
    if sub.cmd.subs != [] {
      var paths := Inner(sub.cmd.subs);
      var under := Under(sub.name, paths);
      InnerNoRepeat(sub.cmd.subs);
      InnerNotEmpty(sub.cmd.subs);
      forall i, j | 0 <= i < j < |under| ensures under[i] != under[j] {
        assert under[i][1..] == paths[i] && under[j][1..] == paths[j];
      }
      UnderMembers(sub.name, paths, [sub.name]);
      assert [sub.name][1..] == [];
      NoRepeatAppend(under, [[sub.name]]);
    }
  }

  lemma SuffixIsInjective(a: string, b: string)
    ensures FnName(a) == FnName(b) <==> a == b
  {
    if FnName(a) == FnName(b) {
      assert a == FnName(a)[..|a|] && b == FnName(b)[..|b|];
    }
  }

  /** No two paths to inner commands are joined to one name. */
  ghost predicate DistinctJoins(commands: seq<Sub>) {
    forall p, q :: IsInner(commands, p) && IsInner(commands, q) && p != q ==> NameOf(None, p) != NameOf(None, q)
  }

  lemma DistinctNamesThenJoins(commands: seq<Sub>)
    requires DistinctSubs(commands) && DistinctNames(GenFns(None, commands))
    ensures DistinctJoins(commands)
  {
    var fns, paths := GenFns(None, commands), Inner(commands);
    FnsNamedAfterPaths(None, commands);
    forall p, q | IsInner(commands, p) && IsInner(commands, q) && p != q ensures NameOf(None, p) != NameOf(None, q) {
      InnerPaths(commands, p);
      InnerPaths(commands, q);
      NamesOfPathsDiffer(fns, paths, p, q);
    }
  }

  lemma NamesOfPathsDiffer(fns: seq<GenFn>, paths: seq<seq<string>>, p: seq<string>, q: seq<string>)
    requires NamedAfter(fns, None, paths) && DistinctNames(fns) && p in paths && q in paths && p != q
    ensures p != [] && q != [] && NameOf(None, p) != NameOf(None, q)
  {
    var i :| 0 <= i < |paths| && paths[i] == p;
    var j :| 0 <= j < |paths| && paths[j] == q;
    assert fns[i].name == FnName(NameOf(None, p)) && fns[j].name == FnName(NameOf(None, q));
  }

  lemma DistinctJoinsThenNames(commands: seq<Sub>)
    requires DistinctSubs(commands) && DistinctJoins(commands)
    ensures DistinctNames(GenFns(None, commands))
  {
    var fns, paths := GenFns(None, commands), Inner(commands);
    FnsNamedAfterPaths(None, commands);
    InnerNoRepeat(commands);
    forall i, j | 0 <= i < j < |fns| ensures fns[i].name != fns[j].name {
      InnerPaths(commands, paths[i]);
      InnerPaths(commands, paths[j]);
      assert paths[i] in paths && paths[j] in paths;
      SuffixIsInjective(NameOf(None, paths[i]), NameOf(None, paths[j]));
    }
  }

  /** The generated file has distinct names exactly when no two inner paths are joined to one name. */
  lemma DistinctNamesIff(commands: seq<Sub>)
    requires DistinctSubs(commands)
    ensures DistinctNames(GenFns(None, commands)) <==> DistinctJoins(commands)
  {
    if DistinctNames(GenFns(None, commands)) {
      DistinctNamesThenJoins(commands);
    }
    if DistinctJoins(commands) {
      DistinctJoinsThenNames(commands);
    }
  }

  function UnderscoredAll(path: seq<string>): (r: seq<string>)
    ensures |r| == |path|
  {
    seq(|path|, i requires 0 <= i < |path| => Underscored(path[i]))
  }

  /** That name is the words of the path, their dashes replaced, joined by underscores. */
  lemma {:induction false} NameIsJoin(parent: Option<string>, path: seq<string>)
    requires path != []
    ensures NameOf(parent, path) == Join("_", (if parent.Some? then [parent.value] else []) + UnderscoredAll(path))
    decreases |path|
  {
    var words := UnderscoredAll(path);
    if |path| == 1 {
      assert words == [Underscored(path[0])];
      if parent.Some? {
        assert ([parent.value] + words)[1..] == words;
        assert Join("_", [parent.value] + words) == parent.value + "_" + Join("_", words);
      } else {
        assert [] + words == words;
      }
    } else {
      var name := CmdEnum(parent, path[0]);
      NameIsJoin(Some(name), path[1..]);
      var rest := UnderscoredAll(path[1..]);
      assert words == [Underscored(path[0])] + rest;
      assert ([name] + rest)[1..] == rest;
      if parent.Some? {
        var all := [parent.value] + words;
        assert all[1..] == words && words[1..] == rest;
        assert Join("_", all) == parent.value + "_" + (Underscored(path[0]) + "_" + Join("_", rest));
      } else {
        assert [] + words == words && words[1..] == rest;
      }
    }
  }

  /** For one, `a-b` and `a_b` beside each other, both with sub-commands, have one name. */
  lemma NamesCollide(x: Command, y: Command)
    requires x.subs != [] && y.subs != [] && DistinctSubs(x.subs) && DistinctSubs(y.subs)
    ensures !DistinctNames(GenFns(None, [Sub("a-b", x), Sub("a_b", y)]))
  {
    var commands := [Sub("a-b", x), Sub("a_b", y)];
    assert "a-b"[1] != "a_b"[1];
    TwoInner("a-b", "a_b", x, y);
    assert Underscored("a-b") == "a_b" && Underscored("a_b") == "a_b";
    SameJoins(commands, ["a-b"], ["a_b"]);
    DistinctNamesIff(commands);
  }

  lemma TwoInner(a: string, b: string, x: Command, y: Command)
    requires a != b && x.subs != [] && y.subs != [] && DistinctSubs(x.subs) && DistinctSubs(y.subs)
    ensures var commands := [Sub(a, x), Sub(b, y)];
            DistinctSubs(commands) && IsInner(commands, [a]) && IsInner(commands, [b]) && [a] != [b]
  {
    var commands := [Sub(a, x), Sub(b, y)];
    assert commands[1..] == [Sub(b, y)] && commands[1..][1..] == [];
    assert FindSub(commands[1..], b) == Some(y);
    assert At(commands, [a]) == Some(x) && At(commands, [b]) == Some(y);
    assert [a][0] != [b][0];
  }

  lemma SameJoins(commands: seq<Sub>, p: seq<string>, q: seq<string>)
    requires IsInner(commands, p) && IsInner(commands, q) && p != q && NameOf(None, p) == NameOf(None, q)
    ensures !DistinctJoins(commands)
  {
  }
}

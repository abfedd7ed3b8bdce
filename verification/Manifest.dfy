/** Resource references in manifests: resolution over a table that may be cyclic, and provider authorities. */
module Manifest {
  import opened Prelude

  /** What follows the start tag of an entry: its text, or anything else. */
  datatype Resource = Text(text: string) | Other

  /** The `res/values` files by kind, each with its entries of that kind by name. */
  type Table = map<string, map<string, Resource>>

  datatype ValueReference = ValueReference(kind: string, name: string)

  predicate IsReference(s: string) {
    s != "" && s[0] == '@'
  }

  /** `split_once('/')` behind the first character. */
  function Parse(from: string): Option<ValueReference>
    requires IsReference(from)
  {
    match SplitOnce(from[1..])
    case None => None
    case Some(parts) => Some(ValueReference(parts.0, parts.1))
  }

  function SplitOnce(s: string): (r: Option<(string, string)>)
    ensures match r
            case None => '/' !in s
            case Some(parts) => '/' !in parts.0 && s == parts.0 + "/" + parts.1
  {
    if s == "" then None
    else if s[0] == '/' then Some(("", s[1..]))
    else
      match SplitOnce(s[1..])
      case None => None
      case Some(parts) => Some(([s[0]] + parts.0, parts.1))
  }

  /** The text an entry holds; None when there is no such entry or it does not hold text. */
  function Lookup(table: Table, vr: ValueReference): (r: Option<string>)
    ensures r.Some? && IsReference(r.value) ==> r.value in References(table)
  {
    if vr.kind in table && vr.name in table[vr.kind] && table[vr.kind][vr.name].Text? then
      Some(table[vr.kind][vr.name].text)
    else None
  }

  /** The distinct texts in the table that are references themselves. */
  function References(table: Table): set<string> {
    set kind, name
      | kind in table && name in table[kind] && table[kind][name].Text? && IsReference(table[kind][name].text)
      :: table[kind][name].text
  }

  // ---------------------------------------------------------------- resolution

  /** Nothing to look up behind this text: no reference, a malformed one, or one into a file that is not there. */
  predicate Final(table: Table, text: string) {
    IsReference(text) ==> Parse(text).None? || Parse(text).value.kind !in table
  }

  /** The text that a reference leads to in one lookup. */
  function Next(table: Table, text: string): (r: Option<string>)
    ensures r.Some? ==> !Final(table, text) && (IsReference(r.value) ==> r.value in References(table))
  {
    if Final(table, text) then None else Lookup(table, Parse(text).value)
  }

  /** What is found from `text` on, having come through the texts in `seen`. */
  function Chase(table: Table, text: string, seen: set<string>): Option<string>
    requires IsReference(text) ==> text in References(table)
    decreases |References(table) - seen|
  {
    if !IsReference(text) || text in seen || Final(table, text) then Some(text)
    else
      match Next(table, text)
      case None => None
      case Some(next) =>
        Shrinks(References(table), seen, text);
        Chase(table, next, seen + {text})
  }

  /** How many more entries are read. */
  function Depth(table: Table, text: string, seen: set<string>): (n: nat)
    requires IsReference(text) ==> text in References(table)
    ensures n <= |References(table) - seen|
    decreases |References(table) - seen|
  {
    if !IsReference(text) || text in seen || Final(table, text) then 0
    else
      Shrinks(References(table), seen, text);
      match Next(table, text)
      case None => 1
      case Some(next) => 1 + Depth(table, next, seen + {text})
  }

  lemma Shrinks(all: set<string>, seen: set<string>, text: string)
    requires text in all && text !in seen
    ensures |all - (seen + {text})| < |all - seen|
  {
    assert all - (seen + {text}) == (all - seen) - {text};
  }

  function Apply<T>(r: Option<string>, transform: string -> Option<T>): Option<T> {
    match r case None => None case Some(text) => transform(text)
  }

  /** The set of visited references that nested resolvers share. */
  class Seen {
    var texts: set<string>

    constructor ()
      ensures texts == {}
    {
      texts := {};
    }

    /** `recursive_reference_target`. */
    method Target(reference: string) returns (r: Option<ValueReference>)
      requires IsReference(reference)
      modifies this
      ensures r == if reference in old(texts) then None else Parse(reference)
      ensures texts == old(texts) + {reference}
    {
      if reference in texts {
        return None;
      }
      texts := texts + {reference};
      r := Parse(reference);
    }
  }

  /** `XmlResolver::resolve`; `depth` counts the entries that are looked up. */
  method ResolveEntry<T>(table: Table, vr: ValueReference, seen: Seen, transform: string -> Option<T>)
    returns (r: Option<T>, depth: nat)
    requires vr.kind in table
    modifies seen
    ensures match Lookup(table, vr)
            case None => r == None && depth == 1
            case Some(text) =>
              r == Apply(Chase(table, text, old(seen.texts)), transform)
              && depth == 1 + Depth(table, text, old(seen.texts))
    ensures depth <= |References(table) - old(seen.texts)| + 1
    decreases |References(table) - seen.texts|
  {
    var entry := Lookup(table, vr);
    if entry.None? {
      return None, 1;
    }
    var text := entry.value;
    if !IsReference(text) {
      return transform(text), 1;
    }
    ghost var before := seen.texts;
    var target := seen.Target(text);
    if target.None? || target.value.kind !in table {
      return transform(text), 1;
    }
    Shrinks(References(table), before, text);
    r, depth := ResolveEntry(table, target.value, seen, transform);
    depth := depth + 1;
  }

  /** `ApktoolManifestResolver::resolve`, as a function. */
  function Found(table: Table, value: string): Option<string> {
    match Next(table, value)
    case None => None
    case Some(text) => Chase(table, text, {})
  }

  method Resolve<T>(table: Table, value: string, transform: string -> Option<T>) returns (r: Option<T>, depth: nat)
    ensures r == Apply(Found(table, value), transform)
    ensures depth <= |References(table)| + 1
  {
    if !IsReference(value) {
      return None, 0;
    }
    var reference := Parse(value);
    if reference.None? || reference.value.kind !in table {
      return None, 0;
    }
    var seen := new Seen();
    r, depth := ResolveEntry(table, reference.value, seen, transform);
    assert References(table) - {} == References(table);
  }

  function ResolveString(table: Table, value: string): string {
    match Found(table, value) case Some(text) => text case None => value
  }

  function GetBool(raw: string): Option<bool> {
    if raw == "true" then Some(true) else if raw == "false" then Some(false) else None
  }

  method ResolveStringOf(table: Table, value: string) returns (r: string)
    ensures r == ResolveString(table, value)
  {
    var found, _ := Resolve(table, value, (s: string) => Some(s));
    r := if found.Some? then found.value else value;
  }

  /** A boolean attribute is the boolean reading of what its value resolves to as a string. */
  method ResolveBool(table: Table, value: string) returns (r: Option<bool>)
    ensures r == GetBool(ResolveString(table, value))
    ensures r == Some(true) <==> ResolveString(table, value) == "true"
    ensures r == Some(false) <==> ResolveString(table, value) == "false"
  {
    var found, _ := Resolve(table, value, GetBool);
    if found.None? {
      r := GetBool(value);
      assert Found(table, value).Some? ==> IsReference(value);
    } else {
      r := found;
    }
  }

  // ---------------------------------------------------------------- chains of references

  /** The text after `n` lookups from `text`. */
  function Hop(table: Table, text: string, n: nat): Option<string>
    decreases n
  {
    if n == 0 then Some(text)
    else
      match Next(table, text)
      case None => None
      case Some(next) => Hop(table, next, n - 1)
  }

  lemma {:induction false} HopAdd(table: Table, text: string, m: nat, n: nat)
    ensures Hop(table, text, m + n) == match Hop(table, text, m) case None => None case Some(mid) => Hop(table, mid, n)
    decreases m
  {
    if m > 0 && Next(table, text).Some? {
      HopAdd(table, Next(table, text).value, m - 1, n);
    }
  }

  /** From a text on a cycle there is always a next one. */
  lemma {:induction false} CycleIsEndless(table: Table, text: string, p: nat, m: nat)
    requires p > 0 && Hop(table, text, p) == Some(text)
    ensures Hop(table, text, m).Some?
    decreases m
  {
    if m >= p {
      HopAdd(table, text, p, m - p);
      CycleIsEndless(table, text, p, m - p);
    } else {
      HopAdd(table, text, m, p - m);
    }
  }

  /** Going `m` times round a cycle. */
  lemma {:induction false} Rounds(table: Table, text: string, p: nat, m: nat)
    requires Hop(table, text, p) == Some(text)
    ensures Hop(table, text, m * p) == Some(text)
    decreases m
  {
    if m > 0 {
      Rounds(table, text, p, m - 1);
      HopAdd(table, text, p, (m - 1) * p);
      assert p + (m - 1) * p == m * p;
    }
  }

  /** How a search ends: at a final text, at a text it has seen, or in an entry that is not there. */
  ghost predicate EndsAt(table: Table, text: string, seen: set<string>, n: nat)
    requires IsReference(text) ==> text in References(table)
  {
    match Chase(table, text, seen)
    case None =>
      && Hop(table, text, n).Some?
      && var u := Hop(table, text, n).value; Next(table, u).None? && !Final(table, u)
    case Some(r) =>
      Hop(table, text, n) == Some(r) &&
      (Final(table, r) || r in seen || exists i: nat :: i < n && Hop(table, text, i) == Some(r))
  }

  lemma {:induction false} ChaseEnds(table: Table, text: string, seen: set<string>) returns (n: nat)
    requires IsReference(text) ==> text in References(table)
    ensures EndsAt(table, text, seen, n)
    decreases |References(table) - seen|
  {
    n := 0;
    if IsReference(text) && text !in seen && Next(table, text).Some? {
      var next := Next(table, text).value;
      Shrinks(References(table), seen, text);
      var k := ChaseEnds(table, next, seen + {text});
      n := k + 1;
      var found := Chase(table, next, seen + {text});
      if found.Some? && found.value == text {
        assert Hop(table, text, 0) == Some(text);
      }
      forall i: nat | i < k && found.Some? && Hop(table, next, i) == found ensures Hop(table, text, i + 1) == found {
      }
    }
  }

  lemma NothingBehind(table: Table, text: string, end: nat, n: nat)
    requires Hop(table, text, end).Some? && Next(table, Hop(table, text, end).value).None?
    ensures n > end ==> Hop(table, text, n).None?
  {
    if n > end {
      HopAdd(table, text, end, n - end);
    }
  }

  /** A text that comes again within a chain is on a cycle. */
  lemma Recurs(table: Table, text: string, i: nat, k: nat, r: string)
    requires i < k && Hop(table, text, i) == Some(r) == Hop(table, text, k)
    ensures Hop(table, r, k - i) == Some(r)
  {
    HopAdd(table, text, i, k - i);
  }

  /** A chain that recurs never ends. */
  lemma RecursSoEndless(table: Table, text: string, i: nat, k: nat, r: string, n: nat)
    requires i < k && Hop(table, text, i) == Some(r) == Hop(table, text, k)
    ensures Hop(table, text, n).Some?
  {
    Recurs(table, text, i, k, r);
    CycleIsEndless(table, r, k - i, n);
    HopAdd(table, text, i, n);
    HopAdd(table, text, n, i);
  }

  /**
   * Where the chain of references from a value ends, at `last`, the value resolves to that text; when the
   * end is a reference to an entry that is not there, the value stays as it is.
   */
  lemma ResolvesToEnd(table: Table, value: string, n: nat, last: string)
    requires Hop(table, value, n) == Some(last) && Next(table, last).None?
    ensures ResolveString(table, value) == if Final(table, last) then last else value
  {
    if n > 0 {
      var first := Next(table, value).value;
      var k := ChaseEnds(table, first, {});
      NothingBehind(table, first, n - 1, k);
      var found := Chase(table, first, {});
      if found.None? || Final(table, found.value) {
        NothingBehind(table, first, k, n - 1);
      } else {
        var i: nat :| i < k && Hop(table, first, i) == found;
        RecursSoEndless(table, first, i, k, found.value, n);
        NothingBehind(table, first, n - 1, n);
      }
    }
  }

  /** In particular a chain that reaches a text that is no reference yields that text. */
  lemma ResolvesToText(table: Table, value: string, n: nat, text: string)
    requires Hop(table, value, n) == Some(text) && !IsReference(text)
    ensures ResolveString(table, value) == text
  {
    ResolvesToEnd(table, value, n, text);
  }

  predicate OnCycle(table: Table, text: string, p: nat) {
    p > 0 && Hop(table, text, p) == Some(text)
  }

  /** The chain gets into a cycle of two or more texts. */
  ghost predicate EntersLongCycle(table: Table, value: string) {
    exists n: nat, p: nat :: LongCycleAt(table, value, n, p)
  }

  predicate LongCycleAt(table: Table, value: string, n: nat, p: nat) {
    && Hop(table, value, n).Some?
    && var text := Hop(table, value, n).value;
    && OnCycle(table, text, p) && Next(table, text) != Some(text)
  }

  /** A value that does not resolve to itself resolves to a final text or to a text on a cycle of its chain. */
  lemma ResultIsStable(table: Table, value: string) returns (n: nat, p: nat)
    requires ResolveString(table, value) != value
    ensures var r := ResolveString(table, value);
            Hop(table, value, n) == Some(r) && (Final(table, r) || OnCycle(table, r, p))
  {
    var first := Next(table, value).value;
    var k := ChaseEnds(table, first, {});
    var r := ResolveString(table, value);
    n, p := k + 1, 0;
    if !Final(table, r) {
      var i: nat :| i < k && Hop(table, first, i) == Some(r);
      Recurs(table, first, i, k, r);
      p := k - i;
    }
  }

  lemma SelfLoopStays(table: Table, text: string)
    requires Next(table, text) == Some(text)
    ensures ResolveString(table, text) == text
  {
    var none: set<string> := {};
    assert none + {text} == {text} && Chase(table, text, {text}) == Some(text);
  }

  lemma IdempotentOffLongCycles(table: Table, value: string)
    requires !EntersLongCycle(table, value)
    ensures ResolveString(table, ResolveString(table, value)) == ResolveString(table, value)
  {
    var r := ResolveString(table, value);
    if r != value {
      var n, p := ResultIsStable(table, value);
      if !Final(table, r) {
        assert !LongCycleAt(table, value, n, p);
        SelfLoopStays(table, r);
      }
    }
  }

  /** All texts of a cycle are behind one another. */
  lemma BackAround(table: Table, text: string, p: nat, k: nat) returns (m: nat)
    requires OnCycle(table, text, p) && Hop(table, text, k).Some?
    ensures Hop(table, Hop(table, text, k).value, m) == Some(text)
  {
    Rounds(table, text, p, k);
    assert k * p >= k by {
      if k > 0 {
        assert k * (p - 1) >= 0;
        assert k * p == k * (p - 1) + k;
      }
    }
    m := k * p - k;
    HopAdd(table, text, k, m);
  }

  /** Going forward from a text that stays where it is. */
  lemma {:induction false} Stays(table: Table, text: string, m: nat)
    requires Next(table, text) == Some(text)
    ensures Hop(table, text, m) == Some(text)
    decreases m
  {
    if m > 0 {
      Stays(table, text, m - 1);
    }
  }

  /** On a cycle the text before a text is unique. */
  lemma SamePredecessor(table: Table, text: string, p: nat, i: nat, j: nat)
    requires OnCycle(table, text, p) && 0 < i && 0 < j
    requires Hop(table, text, i) == Hop(table, text, j)
    ensures Hop(table, text, i - 1) == Hop(table, text, j - 1)
  {
    CycleIsEndless(table, text, p, i);
    HopAdd(table, text, i, p - 1);
    HopAdd(table, text, j, p - 1);
    HopAdd(table, text, p, i - 1);
    HopAdd(table, text, p, j - 1);
  }

  /** `path` lists the first texts from `text` on, all of them different. */
  ghost predicate Visited(table: Table, text: string, path: seq<string>) {
    && (forall i {:trigger path[i]} :: 0 <= i < |path| ==> Hop(table, text, i) == Some(path[i]))
    && (forall a, b :: 0 <= a < b < |path| ==> path[a] != path[b])
  }

  /** The search has come to `x` from `text`, through the texts in `path`, which it has recorded. */
  ghost predicate Came(table: Table, text: string, path: seq<string>, x: string, seen: set<string>) {
    && Visited(table, text, path) && Hop(table, text, |path|) == Some(x)
    && (forall s :: s in seen <==> s in path)
    && (IsReference(x) ==> x in References(table))
  }

  lemma ComesOn(table: Table, text: string, p: nat, path: seq<string>, x: string, seen: set<string>)
    requires OnCycle(table, text, p) && Came(table, text, path, x, seen) && x !in seen
    ensures Next(table, x).Some? && Came(table, text, path + [x], Next(table, x).value, seen + {x})
  {
    CycleGoesOn(table, text, p, |path|, x);
    VisitedMore(table, text, path, x);
    assert |path + [x]| == |path| + 1;
  }

  lemma VisitedMore(table: Table, text: string, path: seq<string>, x: string)
    requires Visited(table, text, path) && Hop(table, text, |path|) == Some(x) && x !in path
    ensures Visited(table, text, path + [x])
  {
  }

  lemma ChaseOn(table: Table, x: string, seen: set<string>)
    requires Next(table, x).Some? && x !in seen && (IsReference(x) ==> x in References(table))
    ensures Chase(table, x, seen) == Chase(table, Next(table, x).value, seen + {x})
    ensures |References(table) - (seen + {x})| < |References(table) - seen|
  {
    assert !Final(table, x);
    Shrinks(References(table), seen, x);
  }

  /** The first text that comes again is the one the search set out from. */
  lemma FirstAgain(table: Table, text: string, p: nat, path: seq<string>, x: string)
    requires OnCycle(table, text, p) && Visited(table, text, path) && Hop(table, text, |path|) == Some(x) && x in path
    ensures x == text
  {
    var i :| 0 <= i < |path| && path[i] == x;
    if i > 0 {
      assert Hop(table, text, i - 1) == Some(path[i - 1]);
      assert Hop(table, text, |path| - 1) == Some(path[|path| - 1]);
      SamePredecessor(table, text, p, i, |path|);
    }
  }

  /** A search that sets out on a cycle ends where it set out. */
  lemma {:induction false} ChaseRound(table: Table, text: string, p: nat, path: seq<string>, x: string,
                                      seen: set<string>)
    requires OnCycle(table, text, p) && Came(table, text, path, x, seen)
    ensures Chase(table, x, seen) == Some(text)
    decreases |References(table) - seen|
  {
    if x in seen {
      FirstAgain(table, text, p, path, x);
    } else {
      ComesOn(table, text, p, path, x, seen);
      ChaseOn(table, x, seen);
      ChaseRound(table, text, p, path + [x], Next(table, x).value, seen + {x});
    }
  }

  lemma CycleGoesOn(table: Table, text: string, p: nat, j: nat, x: string)
    requires OnCycle(table, text, p) && Hop(table, text, j) == Some(x)
    ensures Next(table, x).Some? && Hop(table, text, j + 1) == Next(table, x)
  {
    CycleIsEndless(table, text, p, j + 1);
    HopAdd(table, text, j, 1);
    assert Hop(table, x, 1) == Next(table, x);
  }

  lemma CycleStepsOn(table: Table, text: string, p: nat)
    requires OnCycle(table, text, p)
    ensures Next(table, text).Some? && ResolveString(table, text) == Next(table, text).value
  {
    var next := Next(table, text).value;
    HopAdd(table, text, 1, p);
    HopAdd(table, text, p, 1);
    assert Hop(table, next, 0) == Some(next) && Hop(table, text, 1) == Some(next);
    ChaseRound(table, next, p, [], next, {});
  }

  /** On the way into a long cycle no text stays where it is. */
  lemma NoSelfLoop(table: Table, value: string, n: nat, p: nat, k: nat, r: string)
    requires LongCycleAt(table, value, n, p) && Hop(table, value, k) == Some(r)
    ensures Next(table, r) != Some(r)
  {
    var text := Hop(table, value, n).value;
    if Next(table, r) == Some(r) {
      if k <= n {
        HopAdd(table, value, k, n - k);
        Stays(table, r, n - k);
      } else {
        HopAdd(table, value, n, k - n);
        var m := BackAround(table, text, p, k - n);
        Stays(table, r, m);
      }
    }
  }

  lemma LongCycleIsEndless(table: Table, value: string, n: nat, p: nat, m: nat)
    requires LongCycleAt(table, value, n, p)
    ensures Hop(table, value, m).Some?
  {
    if m >= n {
      HopAdd(table, value, n, m - n);
      CycleIsEndless(table, Hop(table, value, n).value, p, m - n);
    } else {
      HopAdd(table, value, m, n - m);
    }
  }

  lemma MovesOnLongCycles(table: Table, value: string, n: nat, p: nat)
    requires LongCycleAt(table, value, n, p)
    ensures ResolveString(table, ResolveString(table, value)) != ResolveString(table, value)
  {
    LongCycleIsEndless(table, value, n, p, 1);
    var first := Next(table, value).value;
    var k := ChaseEnds(table, first, {});
    LongCycleIsEndless(table, value, n, p, k + 2);
    HopAdd(table, value, k + 1, 1);
    var r := Hop(table, value, k + 1).value;
    assert Chase(table, first, {}) == Some(r);
    var i: nat :| i < k && Hop(table, first, i) == Some(r);
    Recurs(table, first, i, k, r);
    NoSelfLoop(table, value, n, p, k + 1, r);
    CycleStepsOn(table, r, k - i);
  }

  /** Resolving twice is resolving once exactly when the chain gets into no cycle of two or more texts. */
  lemma IdempotentIff(table: Table, value: string)
    ensures ResolveString(table, ResolveString(table, value)) == ResolveString(table, value)
            <==> !EntersLongCycle(table, value)
  {
    if EntersLongCycle(table, value) {
      var n: nat, p: nat :| LongCycleAt(table, value, n, p);
      MovesOnLongCycles(table, value, n, p);
    } else {
      IdempotentOffLongCycles(table, value);
    }
  }

  function InFile(name: string): string {
    "@string/" + name
  }

  /** Two entries that refer to each other. */
  function Loop(x: string, y: string): Table {
    map["string" := map[x := Text(InFile(y)), y := Text(InFile(x))]]
  }

  lemma {:induction false} SplitOnceOf(kind: string, name: string)
    requires '/' !in kind
    ensures SplitOnce(kind + "/" + name) == Some((kind, name))
  {
    if kind == "" {
      assert kind + "/" + name == "/" + name && ("/" + name)[1..] == name;
    } else {
      assert (kind + "/" + name)[1..] == kind[1..] + "/" + name;
      SplitOnceOf(kind[1..], name);
      assert [kind[0]] + kind[1..] == kind;
    }
  }

  /** What the table says of a reference to an entry of any kind. */
  lemma EntryOf(table: Table, kind: string, name: string, text: string)
    requires '/' !in kind
    ensures var reference := "@" + kind + "/" + name;
            && IsReference(reference)
            && (Final(table, reference) <==> kind !in table)
            && (Next(table, reference) == Some(text)
                <==> kind in table && name in table[kind] && table[kind][name] == Text(text))
  {
    assert ("@" + kind + "/" + name)[1..] == kind + "/" + name;
    SplitOnceOf(kind, name);
  }

  /** A text without a slash, or without the at sign in front, leads nowhere. */
  lemma NoEntryOf(table: Table, s: string)
    ensures '/' !in s ==> Final(table, "@" + s) && Next(table, "@" + s) == None
    ensures !("@" <= s) ==> Final(table, s) && Next(table, s) == None
  {
    assert ("@" + s)[1..] == s;
    var parts := SplitOnce(s);
    if parts.Some? {
      assert s[|parts.value.0|] == '/';
    }
  }

  lemma HopTwice(table: Table, x: string, y: string)
    requires Next(table, x) == Some(y) && Next(table, y) == Some(x)
    ensures OnCycle(table, x, 2)
  {
    assert Hop(table, y, 1) == Some(x);
  }

  /** Such tables exist: on this one each resolve of one of the two texts gives the other. */
  lemma LoopNeverSettles(x: string, y: string)
    requires x != y
    ensures EntersLongCycle(Loop(x, y), InFile(x))
    ensures ResolveString(Loop(x, y), InFile(x)) == InFile(y) && ResolveString(Loop(x, y), InFile(y)) == InFile(x)
  {
    var table, a, b := Loop(x, y), InFile(x), InFile(y);
    assert a == "@" + "string" + "/" + x && b == "@" + "string" + "/" + y;
    EntryOf(table, "string", x, b);
    EntryOf(table, "string", y, a);
    HopTwice(table, a, b);
    HopTwice(table, b, a);
    assert a[8..] == x && b[8..] == y && LongCycleAt(table, a, 0, 2);
    CycleStepsOn(table, a, 2);
    CycleStepsOn(table, b, 2);
  }

  /** A boolean attribute is decided by the text at the end of its chain. */
  lemma BoolAtEnd(table: Table, value: string, n: nat, text: string)
    requires Hop(table, value, n) == Some(text) && !IsReference(text)
    ensures GetBool(ResolveString(table, value)) == Some(true) <==> text == "true"
    ensures GetBool(ResolveString(table, value)) == Some(false) <==> text == "false"
  {
    ResolvesToText(table, value, n, text);
  }

  // ---------------------------------------------------------------- authorities

  function Map(f: string -> string, parts: seq<string>): (r: seq<string>)
    ensures |r| == |parts|
  {
    seq(|parts|, i requires 0 <= i < |parts| => f(parts[i]))
  }

  /** What every resolver of manifests does: texts that are no references stay as they are. */
  ghost predicate LeavesPlain(resolve: string -> string) {
    forall s :: !IsReference(s) ==> resolve(s) == s
  }

  lemma ResolversLeavePlain(table: Table)
    ensures LeavesPlain(s => ResolveString(table, s)) && LeavesPlain(s => s)
  {
  }

  lemma {:induction false} MapPlain(resolve: string -> string, parts: seq<string>)
    requires LeavesPlain(resolve) && forall p :: p in parts ==> '@' !in p
    ensures Map(resolve, parts) == parts
  {
    forall i | 0 <= i < |parts| ensures Map(resolve, parts)[i] == parts[i] {
      assert parts[i] in parts;
    }
  }

  function CountOf(c: char, s: string): (n: nat)
    ensures n == 0 <==> c !in s
  {
    if s == "" then 0 else (if s[0] == c then 1 else 0) + CountOf(c, s[1..])
  }

  lemma {:induction false} PiecesAreCountPlusOne(c: char, s: string)
    ensures |SplitOn(c, s)| == CountOf(c, s) + 1
  {
    if s != "" {
      PiecesAreCountPlusOne(c, s[1..]);
    }
  }

  lemma {:induction false} JoinSnoc<T>(sep: seq<T>, parts: seq<seq<T>>, k: nat)
    requires k < |parts|
    ensures Join(sep, parts[..k + 1]) == if k == 0 then parts[0] else Join(sep, parts[..k]) + sep + parts[k]
  {
    if k > 0 {
      JoinSnoc(sep, parts[1..], k - 1);
      assert parts[..k + 1][1..] == parts[1..][..k] && parts[..k][1..] == parts[1..][..k - 1];
      assert parts[..k + 1][0] == parts[0] && parts[..k][0] == parts[0];
    }
  }

  /** The loop of `authorities`: a semicolon after every piece up to number `total`. */
  method ResolveJoined(resolve: string -> string, split: seq<string>, total: int) returns (s: string)
    requires split != [] && total == |split| - 2
    ensures s == Join(";", Map(resolve, split))
  {
    s := "";
    ghost var resolved := Map(resolve, split);
    var i := 0;
    while i < |split|
      invariant i <= |split|
      invariant s == Join(";", resolved[..i]) + if 0 < i <= total + 1 then ";" else ""
    {
      JoinSnoc(";", resolved, i);
      s := s + resolve(split[i]);
      if i <= total {
        s := s + ";";
      }
      i := i + 1;
    }
    assert resolved[..i] == resolved;
  }

  /** `Provider::authorities`: all three paths give the resolved pieces, joined as they were. */
  method Authorities(resolve: string -> string, authorities: string) returns (s: string)
    requires LeavesPlain(resolve)
    ensures s == Join(";", Map(resolve, SplitOn(';', authorities)))
  {
    if '@' !in authorities {
      SplitPieces(';', authorities);
      MapPlain(resolve, SplitOn(';', authorities));
      JoinSplit(';', authorities);
      return authorities;
    }
    if ';' !in authorities {
      SplitFree(';', authorities);
      return resolve(authorities);
    }
    var total := CountOf(';', authorities) - 1;
    PiecesAreCountPlusOne(';', authorities);
    s := ResolveJoined(resolve, SplitOn(';', authorities), total);
  }
}

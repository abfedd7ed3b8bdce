/** Decompiling dex files with a bounded queue of child processes. */
module DexScheduler {
  import opened Prelude

  /** How a child ends, as `wait` and `try_wait` report it. */
  datatype Exit = Success | Failure | WaitError

  /**
   * What the operating system decides: which spawns work, how each child ends, and whether the child asked
   * at the n-th `try_wait` has ended by then.
   */
  datatype Env = Env(spawns: nat -> bool, exits: nat -> Exit, ended: nat -> bool)

  datatype ApkFile = ApkFile(maxParallel: nat) {
    function SetMaxParallel(n: nat): (r: ApkFile)
      ensures maxParallel >= 1 ==> r.maxParallel >= 1
      ensures n >= 1 ==> r.maxParallel == n
      ensures n < 1 ==> r == this
    {
      if n >= 1 then this.(maxParallel := n) else this
    }
  }

  function Range(n: nat): (r: seq<nat>)
    ensures |r| == n
  {
    seq(n, i => i)
  }

  predicate NoneFailed(env: Env, children: seq<nat>) {
    forall c :: c in children ==> env.exits(c) == Success
  }

  predicate NoneLost(env: Env, children: seq<nat>) {
    forall c :: c in children ==> env.exits(c) != WaitError
  }

  /**
   * How far one round of reaping goes when `polls` children have been asked before: behind the first child each
   * next one is asked, those that have ended are reaped, and the first that has not ends the round.
   */
  predicate Polled(env: Env, polls: nat, queued: nat, count: nat) {
    && (forall k: nat :: polls <= k < polls + count - 1 ==> env.ended(k))
    && (0 < count < queued ==> !env.ended(polls + count - 1))
  }

  /** The deque of running children, with a record of what was waited for and how long the deque has been. */
  class Children {
    var queue: seq<nat>
    var reaped: seq<nat>
    var peak: nat
    var polls: nat

    constructor ()
      ensures queue == [] && reaped == [] && peak == 0
    {
      queue, reaped, peak, polls := [], [], 0, 0;
    }

    /** The first `count` children have left the front of the queue, ended and counted. */
    twostate predicate Reaped(count: nat)
      reads this
    {
      && count <= |old(queue)| && queue == old(queue)[count..] && reaped == old(reaped) + old(queue)[..count]
      && peak == old(peak)
    }

    /** `wait_for_children`: blocks for the oldest child, then takes those behind it that have already ended. */
    method WaitForChildren(env: Env) returns (ok: bool, count: nat, success: bool)
      modifies this
      ensures ok ==> Reaped(count) && (old(queue) != [] ==> count >= 1)
      ensures ok ==> success == NoneFailed(env, old(queue)[..count]) && NoneLost(env, old(queue)[..count])
      ensures ok ==> Polled(env, old(polls), |old(queue)|, count)
      ensures !ok ==> !NoneLost(env, old(queue)) && peak == old(peak)
    {
      ghost var start := queue;
      if queue == [] {
        return true, 0, true;
      }
      var it := queue[0];
      queue := queue[1..];
      if env.exits(it) == WaitError {
        return false, 0, false;
      }
      reaped := reaped + [it];
      success := env.exits(it) == Success;
      count := 1;
      while queue != []
        invariant 1 <= count <= |start| && queue == start[count..]
        invariant reaped == old(reaped) + start[..count] && peak == old(peak)
        invariant success == NoneFailed(env, start[..count]) && NoneLost(env, start[..count])
        invariant polls == old(polls) + count - 1 && forall k: nat :: old(polls) <= k < polls ==> env.ended(k)
        decreases |queue|
      {
        it := queue[0];
        assert start[..count + 1] == start[..count] + [it];
        assert it == start[count] && it in start;
        polls := polls + 1;
        if !env.ended(polls - 1) {
          break;
        }
        queue := queue[1..];
        if env.exits(it) == WaitError {
          return false, count, success;
        }
        reaped := reaped + [it];
        count := count + 1;
        if success && env.exits(it) != Success {
          success := false;
        }
      }
      ok := true;
    }

    method PushBack(child: nat)
      modifies this`queue, this`peak
      ensures queue == old(queue) + [child] && peak == if |queue| > old(peak) then |queue| else old(peak)
    {
      queue := queue + [child];
      if |queue| > peak {
        peak := |queue|;
      }
    }

    /** The last loop: waits for every child that is still queued, without taking it off the queue. */
    method WaitForAll(env: Env, failedBefore: bool) returns (ok: bool, failed: bool)
      modifies this`reaped
      ensures ok == NoneLost(env, queue)
      ensures ok ==> reaped == old(reaped) + queue && failed == (failedBefore || !NoneFailed(env, queue))
    {
      failed := failedBefore;
      var i := 0;
      while i < |queue|
        invariant i <= |queue| && reaped == old(reaped) + queue[..i]
        invariant NoneLost(env, queue[..i]) && failed == (failedBefore || !NoneFailed(env, queue[..i]))
      {
        assert queue[..i + 1] == queue[..i] + [queue[i]];
        if env.exits(queue[i]) == WaitError {
          return false, failed;
        }
        reaped := reaped + [queue[i]];
        if !failed && env.exits(queue[i]) != Success {
          failed := true;
        }
        i := i + 1;
      }
      assert queue[..i] == queue;
      ok := true;
    }
  }

  lemma RangeMembers(env: Env, n: nat)
    ensures NoneFailed(env, Range(n)) <==> forall i: nat :: i < n ==> env.exits(i) == Success
    ensures NoneLost(env, Range(n)) <==> forall i: nat :: i < n ==> env.exits(i) != WaitError
  {
    forall i: nat | i < n ensures i in Range(n) {
      assert Range(n)[i] == i;
    }
  }

  lemma LostInRange(env: Env, reaped: seq<nat>, queue: seq<nat>, n: nat)
    requires reaped + queue == Range(n)
    ensures !NoneLost(env, queue) ==> exists i: nat :: i < n && env.exits(i) == WaitError
    ensures NoneLost(env, Range(n)) == (NoneLost(env, reaped) && NoneLost(env, queue))
    ensures NoneFailed(env, Range(n)) == (NoneFailed(env, reaped) && NoneFailed(env, queue))
  {
    assert forall c :: c in queue ==> c in reaped + queue;
    assert forall c :: c in reaped ==> c in reaped + queue;
  }

  /** Between two files: the first `i` have been spawned, and those no longer queued have been waited for. */
  ghost predicate Running(children: Children, env: Env, i: nat, active: int, failed: bool, maxParallel: nat)
    reads children
  {
    && children.reaped + children.queue == Range(i)
    && active == |children.queue| <= maxParallel
    && children.peak == (if i < maxParallel then i else maxParallel)
    && (i < maxParallel ==> children.reaped == [])
    && failed == !NoneFailed(env, children.reaped) && NoneLost(env, children.reaped)
  }

  /** The inner loop: waits until one more child may be spawned. */
  method MakeRoom(children: Children, env: Env, ghost i: nat, activeBefore: int, failedBefore: bool, maxParallel: nat)
    returns (ok: bool, active: int, failed: bool)
    requires maxParallel >= 1 && Running(children, env, i, activeBefore, failedBefore, maxParallel)
    modifies children
    ensures ok ==> Running(children, env, i, active, failed, maxParallel) && active < maxParallel
    ensures !ok ==> exists c: nat :: c < i && env.exits(c) == WaitError
    ensures children.peak == old(children.peak)
  {
    active, failed := activeBefore, failedBefore;
    while active >= maxParallel
      invariant Running(children, env, i, active, failed, maxParallel) && children.peak == old(children.peak)
      decreases active
    {
      ghost var reapedBefore, waiting := children.reaped, children.queue;
      var count, success;
      ok, count, success := children.WaitForChildren(env);
      LostInRange(env, reapedBefore, waiting, i);
      if !ok {
        return;
      }
      active := active - count;
      if !success {
        failed := true;
      }
    }
    ok := true;
  }

  /**
   * `decompile_jadx_dex_files` on `n` files. It answers exactly when every spawn and every wait works; then
   * each child has been waited for once, in order, at most `maxParallel` have been unreaped at a time and as
   * many as that when there is work for them, and the answer tells whether all succeeded.
   */
  method DecompileDexFiles(apk: ApkFile, n: nat, env: Env) returns (result: Option<bool>, reaped: seq<nat>, peak: nat)
    requires apk.maxParallel >= 1
    ensures result.Some? <==> forall i: nat :: i < n ==> env.spawns(i) && env.exits(i) != WaitError
    ensures result.Some? ==> reaped == Range(n) && peak == (if n < apk.maxParallel then n else apk.maxParallel)
    ensures result.Some? ==> (result.value <==> forall i: nat :: i < n ==> env.exits(i) == Success)
    ensures peak <= apk.maxParallel
  {
    var children := new Children();
    var failed, active := false, 0;
    for i := 0 to n
      invariant Running(children, env, i, active, failed, apk.maxParallel)
      invariant forall j: nat :: j < i ==> env.spawns(j)
    {
      var ok;
      ok, active, failed := MakeRoom(children, env, i, active, failed, apk.maxParallel);
      if !ok {
        return None, children.reaped, children.peak;
      }
      if !env.spawns(i) {
        return None, children.reaped, children.peak;
      }
      children.PushBack(i);
      assert Range(i + 1) == Range(i) + [i];
      active := active + 1;
    }
    var ok;
    RangeMembers(env, n);
    LostInRange(env, children.reaped, children.queue, n);
    ok, failed := children.WaitForAll(env, failed);
    if !ok {
      return None, children.reaped, children.peak;
    }
    return Some(!failed), children.reaped, children.peak;
  }
}

/** Module initialisation: dependencies first, and how often a module can be initialised. */
module ModOrder {
  import opened Machine
  import opened ModSpec

  /** The modules initialised with success, in order, with repetitions. */
  ghost function Successes(trace: seq<Event>): seq<Id> {
    if trace == [] then [] else
      var last := trace[|trace| - 1];
      Successes(trace[..|trace| - 1]) + if last.result >= 0 then [last.id] else []
  }

  /** `d` was initialised with success before the n-th init call. */
  ghost predicate Before(trace: seq<Event>, n: int, d: Id) {
    exists j :: 0 <= j < n <= |trace| && trace[j].id == d && trace[j].result >= 0
  }

  /** No init call is made, successful or not, before all the module's dependencies have succeeded. */
  ghost predicate Ordered(s: Sys) {
    forall k, d | 0 <= k < |s.trace| && Needs(s.installed, s.trace[k].id, d) :: Before(s.trace, k, d)
  }

  /** After the first success no module succeeds twice. */
  ghost predicate NoRepeatAfterFirst(l: seq<Id>) {
    forall j, k | 1 <= j < k < |l| :: l[j] != l[k]
  }

  ghost predicate AfterFirst(l: seq<Id>, id: Id) {
    exists k :: 1 <= k < |l| && l[k] == id
  }

  /** The loaded list as the link test sees it: every success but the first leaves a link. */
  ghost predicate LinksMatch(s: Sys, l: seq<Id>) {
    && s.first == (if l == [] then None else Some(l[|l| - 1]))
    && forall id :: id in s.next <==> AfterFirst(l, id)
  }

  ghost predicate OnlyInstalled(s: Sys) {
    forall k | 0 <= k < |s.trace| :: FindMod(s.installed, s.trace[k].id).Some?
  }

  ghost predicate Inv(s: Sys) {
    && LinksMatch(s, Successes(s.trace))
    && NoRepeatAfterFirst(Successes(s.trace))
    && Ordered(s)
    && OnlyInstalled(s)
  }

  ghost predicate InitialSys(s: Sys) {
    s.first == None && s.next == map[] && s.trace == []
  }

  lemma InitialInv(s: Sys)
    requires InitialSys(s)
    ensures Inv(s)
  {
  }

  /** `t` follows `s`: the same table, more init calls, none of them for a module of `stack`. */
  ghost predicate Follows(s: Sys, t: Sys, stack: seq<Id>) {
    && t.installed == s.installed
    && |s.trace| <= |t.trace|
    && t.trace[..|s.trace|] == s.trace
    && forall k | |s.trace| <= k < |t.trace| :: t.trace[k].id !in stack
  }

  lemma FollowsTransitive(s: Sys, t: Sys, u: Sys, stack: seq<Id>)
    requires Follows(s, t, stack) && Follows(t, u, stack)
    ensures Follows(s, u, stack)
  {
  }

  lemma BeforeFollows(s: Sys, t: Sys, stack: seq<Id>, d: Id)
    requires Follows(s, t, stack) && Before(s.trace, |s.trace|, d)
    ensures Before(t.trace, |t.trace|, d)
  {
  }

  lemma {:induction false} SuccessesGrow(a: seq<Event>, b: seq<Event>, id: Id)
    requires a <= b && forall k | |a| <= k < |b| :: b[k].id != id
    ensures Successes(a) <= Successes(b)
    ensures forall k | |Successes(a)| <= k < |Successes(b)| :: Successes(b)[k] != id
    decreases |b|
  {
    if a == b {
    } else {
      var c := b[..|b| - 1];
      assert a <= c;
      SuccessesGrow(a, c, id);
    }
  }

  lemma {:induction false} SuccessesAre(trace: seq<Event>, id: Id)
    ensures id in Successes(trace) <==> Before(trace, |trace|, id)
    decreases |trace|
  {
    if trace != [] {
      var front := trace[..|trace| - 1];
      SuccessesAre(front, id);
      if j :| 0 <= j < |trace| && trace[j].id == id && trace[j].result >= 0 && j < |front| {
        assert front[j] == trace[j];
      }
      if j :| 0 <= j < |front| && front[j].id == id && front[j].result >= 0 {
        assert trace[j] == front[j];
      }
    }
  }

  /** A module not linked before its dependencies were initialised is not linked after. */
  lemma StillNotLoaded(s: Sys, t: Sys, stack: seq<Id>, id: Id)
    requires Inv(s) && Inv(t) && Follows(s, t, stack) && id in stack && !Loaded(s, id)
    ensures !Loaded(t, id)
  {
    assert s.trace <= t.trace;
    SuccessesGrow(s.trace, t.trace, id);
    var a, b := Successes(s.trace), Successes(t.trace);
    forall k | 1 <= k < |b| ensures b[k] != id {
      assert k < |a| ==> a[k] == b[k] && !AfterFirst(a, id);
    }
  }

  // ----- one call -----

  /** What a call of module_init promises. */
  ghost predicate Promise(s: Sys, t: Sys, r: int, id: Id, stack: seq<Id>) {
    && Inv(t) && Follows(s, t, stack)
    && (r >= 0 ==> Before(t.trace, |t.trace|, id))
  }

  ghost predicate PromiseAll(s: Sys, t: Sys, r: int, deps: seq<Id>, stack: seq<Id>) {
    && Inv(t) && Follows(s, t, stack)
    && (r >= 0 ==> forall d | d in deps :: Before(t.trace, |t.trace|, d))
  }

  lemma LoadedIsBefore(s: Sys, id: Id)
    requires Inv(s) && Loaded(s, id)
    ensures Before(s.trace, |s.trace|, id)
  {
    SuccessesAre(s.trace, id);
  }

  /** The module's own call, once its dependencies have all succeeded. */
  lemma RunKeepsInv(s: Sys, m: Mod, result: int)
    requires Inv(s) && FindMod(s.installed, m.id) == Some(m) && !Loaded(s, m.id)
    requires forall d | d in m.deps :: Before(s.trace, |s.trace|, d)
    ensures Inv(Run(s, m.id, result))
    ensures result >= 0 ==> Before(Run(s, m.id, result).trace, |s.trace| + 1, m.id)
  {
    RunKeepsLinks(s, m.id, result);
    RunKeepsOrder(s, m, result);
    assert Run(s, m.id, result).trace[|s.trace|] == Event(m.id, result);
  }

  lemma RunKeepsOrder(s: Sys, m: Mod, result: int)
    requires Ordered(s) && FindMod(s.installed, m.id) == Some(m)
    requires forall d | d in m.deps :: Before(s.trace, |s.trace|, d)
    ensures Ordered(Run(s, m.id, result))
  {
    var t, n := Run(s, m.id, result), |s.trace|;
    assert t.trace[n] == Event(m.id, result);
    forall k, d | 0 <= k < |t.trace| && Needs(t.installed, t.trace[k].id, d) ensures Before(t.trace, k, d) {
      assert k < n ==> Before(s.trace, k, d);
      var j :| 0 <= j < k && j < n && s.trace[j].id == d && s.trace[j].result >= 0;
      assert t.trace[j] == s.trace[j];
    }
  }

  lemma RunKeepsLinks(s: Sys, id: Id, result: int)
    requires Inv(s) && !Loaded(s, id)
    ensures var t := Run(s, id, result);
            LinksMatch(t, Successes(t.trace)) && NoRepeatAfterFirst(Successes(t.trace))
  {
    SuccessesRun(s, id, result);
    if result >= 0 {
      LoadKeepsLinks(s.(trace := s.trace + [Event(id, result)]), id, Successes(s.trace));
    } else {
      assert Successes(s.trace) + [] == Successes(s.trace);
    }
  }

  lemma SuccessesRun(s: Sys, id: Id, result: int)
    ensures Successes(Run(s, id, result).trace) == Successes(s.trace) + if result >= 0 then [id] else []
  {
    var t := Run(s, id, result);
    assert t.trace[..|t.trace| - 1] == s.trace;
  }

  lemma AfterFirstAppend(l: seq<Id>, id: Id, x: Id)
    ensures AfterFirst(l + [id], x) <==> AfterFirst(l, x) || (l != [] && x == id)
  {
    var b := l + [id];
    assert b[|l|] == id;
    if k :| 1 <= k < |l| && l[k] == x { assert b[k] == x; }
    if k :| 1 <= k < |b| && b[k] == x { assert k < |l| ==> l[k] == x; }
  }

  lemma LoadKeepsLinks(s: Sys, id: Id, l: seq<Id>)
    requires LinksMatch(s, l) && NoRepeatAfterFirst(l) && !Loaded(s, id)
    ensures LinksMatch(Load(s, id), l + [id]) && NoRepeatAfterFirst(l + [id])
  {
    forall x ensures x in Load(s, id).next <==> AfterFirst(l + [id], x) {
      AfterFirstAppend(l, id, x);
    }
    assert !AfterFirst(l, id);
  }

  lemma RunFollows(s: Sys, t: Sys, id: Id, result: int, stack: seq<Id>)
    requires Follows(s, t, stack + [id]) && id !in stack
    ensures Follows(s, Run(t, id, result), stack)
  {
  }

  lemma {:induction false} InitKeepsPromise(s: Sys, id: Id, env: nat -> int, stack: seq<Id>)
    requires Acyclic(s.installed) && Nested(s.installed, stack, id) && Inv(s)
    ensures var (t, r) := Init(s, id, env, stack); Promise(s, t, r, id, stack)
    decreases |Unvisited(s.installed, stack)|, 0, 0
  {
    if FindMod(s.installed, id).Some? {
      var m := FindMod(s.installed, id).value;
      if Loaded(s, id) {
        LoadedIsBefore(s, id);
      } else {
        NotOnStack(s.installed, stack, id);
        Descend(s.installed, stack, id);
        InitDepsKeepPromise(s, m.deps, env, stack + [id]);
        var (t, r) := InitDeps(s, m.deps, env, stack + [id]);
        if r >= 0 {
          var result := env(|t.trace|);
          StillNotLoaded(s, t, stack + [id], id);
          RunKeepsInv(t, m, result);
          RunFollows(s, t, id, result, stack);
        } else {
          assert forall x | x in stack :: x in stack + [id];
        }
      }
    }
  }

  lemma {:induction false} InitDepsKeepPromise(s: Sys, deps: seq<Id>, env: nat -> int, stack: seq<Id>)
    requires Acyclic(s.installed) && (forall d | d in deps :: Nested(s.installed, stack, d)) && Inv(s)
    ensures var (t, r) := InitDeps(s, deps, env, stack); PromiseAll(s, t, r, deps, stack)
    decreases |Unvisited(s.installed, stack)|, 1, |deps|
  {
    if deps != [] {
      InitKeepsPromise(s, deps[0], env, stack);
      var (t, r) := Init(s, deps[0], env, stack);
      if r >= 0 {
        InitDepsKeepPromise(t, deps[1..], env, stack);
        var (u, q) := InitDeps(t, deps[1..], env, stack);
        FollowsTransitive(s, t, u, stack);
        BeforeFollows(t, u, stack, deps[0]);
      }
    }
  }

  // ----- topological order -----

  /** Whatever a module needs, however indirectly, succeeded before its init was called. */
  lemma {:induction false} TransitiveDependenciesFirst(s: Sys, k: int, p: seq<Id>)
    requires Inv(s) && 0 <= k < |s.trace| && |p| > 1
    requires Path(s.installed, p) && p[0] == s.trace[k].id
    ensures Before(s.trace, k, p[|p| - 1])
    decreases |p|
  {
    assert Needs(s.installed, p[0], p[1]);
    assert Before(s.trace, k, p[1]);
    if |p| > 2 {
      var j :| 0 <= j < k && s.trace[j].id == p[1] && s.trace[j].result >= 0;
      var q := p[1..];
      forall i | 0 <= i < |q| - 1 ensures Needs(s.installed, q[i], q[i + 1]) {
        assert q[i] == p[i + 1] && q[i + 1] == p[i + 2];
      }
      TransitiveDependenciesFirst(s, j, q);
    }
  }

  /**
   The init calls from `from` on stop at the first failure: whatever fails is the last
   call made and its result is returned; a call that returns any other error than a
   missing module's got it from the last init call.
   */
  ghost predicate StopsAtFailure(trace: seq<Event>, from: int, r: int) {
    && (forall k | 0 <= from <= k < |trace| && trace[k].result < 0 :: k == |trace| - 1 && trace[k].result == r)
    && (r < 0 && r != -ENOENT ==> 0 <= from < |trace| && trace[|trace| - 1].result == r)
  }

  lemma {:induction false} InitStopsAtFailure(s: Sys, id: Id, env: nat -> int, stack: seq<Id>)
    requires Acyclic(s.installed) && Nested(s.installed, stack, id) && Inv(s)
    ensures var (t, r) := Init(s, id, env, stack); StopsAtFailure(t.trace, |s.trace|, r)
    decreases |Unvisited(s.installed, stack)|, 0, 0
  {
    if FindMod(s.installed, id).Some? && !Loaded(s, id) {
      var m := FindMod(s.installed, id).value;
      Descend(s.installed, stack, id);
      InitDepsStopAtFailure(s, m.deps, env, stack + [id]);
      InitDepsKeepPromise(s, m.deps, env, stack + [id]);
      var (t, r) := InitDeps(s, m.deps, env, stack + [id]);
      if r >= 0 { OwnStops(t, |s.trace|, r, id, env(|t.trace|)); }
    }
  }

  lemma OwnStops(t: Sys, from: nat, r: int, id: Id, result: int)
    requires from <= |t.trace| && r >= 0 && StopsAtFailure(t.trace, from, r)
    ensures StopsAtFailure(Run(t, id, result).trace, from, result)
  {
  }

  lemma {:induction false} InitDepsStopAtFailure(s: Sys, deps: seq<Id>, env: nat -> int, stack: seq<Id>)
    requires Acyclic(s.installed) && (forall d | d in deps :: Nested(s.installed, stack, d)) && Inv(s)
    ensures var (t, r) := InitDeps(s, deps, env, stack); StopsAtFailure(t.trace, |s.trace|, r)
    decreases |Unvisited(s.installed, stack)|, 1, |deps|
  {
    if deps != [] {
      InitStopsAtFailure(s, deps[0], env, stack);
      InitKeepsPromise(s, deps[0], env, stack);
      var (t, r) := Init(s, deps[0], env, stack);
      if r >= 0 {
        InitDepsStopAtFailure(t, deps[1..], env, stack);
        InitDepsKeepPromise(t, deps[1..], env, stack);
        var (u, q) := InitDeps(t, deps[1..], env, stack);
        StopsLater(t.trace, u.trace, |s.trace|, r, q);
      }
    }
  }

  /** A stretch without a failure, and then one that stops at its first. */
  lemma StopsLater(a: seq<Event>, b: seq<Event>, from: nat, r: int, q: int)
    requires from <= |a| && a <= b && r >= 0
    requires StopsAtFailure(a, from, r) && StopsAtFailure(b, |a|, q)
    ensures StopsAtFailure(b, from, q)
  {
  }

  /** No call of the module's own init from `from` on. */
  ghost predicate NotRun(trace: seq<Event>, from: int, id: Id) {
    forall k | 0 <= from <= k < |trace| :: trace[k].id != id
  }

  /** Somewhere from `from` on, the init of a module other than `id` failed. */
  ghost predicate AnotherFailed(trace: seq<Event>, from: int, id: Id) {
    exists k :: 0 <= from <= k < |trace| && trace[k].id != id && trace[k].result < 0
  }

  ghost predicate NeedsMissing(mods: seq<Mod>, id: Id) {
    exists d :: Needs(mods, id, d) && FindMod(mods, d).None?
  }

  /** The module's own init is called at most once from `from` on: last, with the result `r`. */
  ghost predicate OwnIsLast(trace: seq<Event>, from: int, id: Id, r: int) {
    forall k | 0 <= from <= k < |trace| && trace[k].id == id :: k == |trace| - 1 && trace[k].result == r
  }

  /**
   A call runs the module's own init at most once, as the last thing it does, and
   returns that init's result; when the module or one of its dependencies is not
   installed it is an error and the module's own init is not run.
   */
  lemma OwnInitComesLast(s: Sys, id: Id, env: nat -> int, stack: seq<Id>)
    requires Acyclic(s.installed) && Nested(s.installed, stack, id) && Inv(s)
    ensures var (t, r) := Init(s, id, env, stack);
            && OwnIsLast(t.trace, |s.trace|, id, r)
            && (!Loaded(s, id) && NeedsMissing(s.installed, id) ==> r < 0 && NotRun(t.trace, |s.trace|, id))
    ensures FindMod(s.installed, id).None? ==> Init(s, id, env, stack) == (s, -ENOENT)
  {
    if FindMod(s.installed, id).Some? && !Loaded(s, id) {
      var m := FindMod(s.installed, id).value;
      Descend(s.installed, stack, id);
      InitDepsKeepPromise(s, m.deps, env, stack + [id]);
      var (t, r) := InitDeps(s, m.deps, env, stack + [id]);
      NotOnPath(s, t, stack, id);
      OwnCall(t, |s.trace|, id, env(|t.trace|));
      if d :| Needs(s.installed, id, d) && FindMod(s.installed, d).None? {
        MissingDependencyFails(s, t, r, m.deps, stack + [id], d);
      }
    }
  }

  lemma OwnCall(t: Sys, from: int, id: Id, result: int)
    requires NotRun(t.trace, from, id)
    ensures OwnIsLast(Run(t, id, result).trace, from, id, result)
  {
  }

  lemma NotOnPath(s: Sys, t: Sys, stack: seq<Id>, id: Id)
    requires Follows(s, t, stack + [id])
    ensures NotRun(t.trace, |s.trace|, id)
  {
    assert id in stack + [id];
  }

  /** When the init of any other module fails during a call, that error is returned and the own init is not run. */
  lemma FailureElsewhereStops(s: Sys, id: Id, env: nat -> int, stack: seq<Id>)
    requires Acyclic(s.installed) && Nested(s.installed, stack, id) && Inv(s)
    ensures var (t, r) := Init(s, id, env, stack);
            AnotherFailed(t.trace, |s.trace|, id) ==>
              r < 0 && t.trace[|t.trace| - 1].result == r && NotRun(t.trace, |s.trace|, id)
  {
    InitStopsAtFailure(s, id, env, stack);
    OwnInitComesLast(s, id, env, stack);
    var (t, r) := Init(s, id, env, stack);
    if AnotherFailed(t.trace, |s.trace|, id) {
      AnotherIsLast(t.trace, |s.trace|, id, r);
    }
  }

  lemma AnotherIsLast(trace: seq<Event>, from: int, id: Id, r: int)
    requires OwnIsLast(trace, from, id, r) && StopsAtFailure(trace, from, r) && AnotherFailed(trace, from, id)
    ensures r < 0 && trace[|trace| - 1].result == r && NotRun(trace, from, id)
  {
  }

  lemma MissingDependencyFails(s: Sys, t: Sys, r: int, deps: seq<Id>, stack: seq<Id>, d: Id)
    requires PromiseAll(s, t, r, deps, stack) && d in deps && FindMod(s.installed, d).None?
    ensures r < 0
  {
  }

  /** The recursion is never deeper than there are modules. */
  lemma {:induction false} DepthIsBounded(mods: seq<Mod>, stack: seq<Id>, id: Id)
    requires Acyclic(mods) && Nested(mods, stack, id)
    ensures |stack| == |Elements(stack)| && Elements(stack) <= Ids(mods)
    ensures |stack| <= |Ids(mods)|
    decreases |stack|
  {
    if stack != [] {
      var front, last := stack[..|stack| - 1], stack[|stack| - 1];
      var p := stack + [id];
      forall k | 0 <= k < |stack| - 1 ensures Needs(mods, stack[k], stack[k + 1]) {
        assert stack[k] == p[k] && stack[k + 1] == p[k + 1];
      }
      assert front + [last] == stack;
      assert Nested(mods, front, last);
      DepthIsBounded(mods, front, last);
      NotOnStack(mods, front, last);
      assert Elements(stack) == Elements(front) + {last};
      assert Needs(mods, p[|stack| - 1], p[|stack|]);
      assert FindMod(mods, last).value in mods;
    } else {
      assert Elements(stack) == {};
    }
    SubsetSize(Elements(stack), Ids(mods));
  }

  lemma {:induction false} SubsetSize(a: set<Id>, b: set<Id>)
    requires a <= b
    ensures |a| <= |b|
  {
    assert b == a + (b - a);
  }

  // ----- the repeat bound -----

  function Count(l: seq<Id>, id: Id): nat {
    if l == [] then 0 else (if l[0] == id then 1 else 0) + Count(l[1..], id)
  }

  lemma {:induction false} CountDistinct(l: seq<Id>, id: Id)
    requires forall j, k | 0 <= j < k < |l| :: l[j] != l[k]
    ensures Count(l, id) <= 1 && (Count(l, id) == 1 <==> id in l)
  {
    if l != [] {
      CountDistinct(l[1..], id);
    }
  }

  /**
   Over any run a module succeeds at most once, except the very first one to
   succeed, which may succeed a second time.
   */
  lemma RepeatBound(s: Sys, id: Id)
    requires Inv(s)
    ensures var l := Successes(s.trace);
            Count(l, id) <= if l != [] && l[0] == id then 2 else 1
  {
    var l := Successes(s.trace);
    if l != [] {
      CountDistinct(l[1..], id);
    }
  }

  /** The flag overlooks a module that has succeeded exactly when it was the first and has not been repeated. */
  lemma FlagOverlooksIff(s: Sys, id: Id)
    requires Inv(s) && id in Successes(s.trace)
    ensures var l := Successes(s.trace);
            !Loaded(s, id) <==> (l[0] == id && Count(l, id) == 1)
  {
    var l := Successes(s.trace);
    CountDistinct(l[1..], id);
    if k :| 1 <= k < |l| && l[k] == id { assert l[1..][k - 1] == id; }
    if id in l[1..] {
      var k :| 0 <= k < |l| - 1 && l[1..][k] == id;
      assert l[k + 1] == id;
    }
  }

  /** Initialising the only module twice runs its init twice: the bound of two is met. */
  lemma OnlyModuleRunsTwice(env: nat -> int)
    requires env(0) >= 0 && env(1) >= 0
    ensures var s := Sys([Mod("a", [])], None, map[], []);
            && Acyclic(s.installed) && Nested(s.installed, [], "a")
            && var t := Init(s, "a", env, []).0;
            && t.installed == s.installed
            && Init(t, "a", env, []).0.trace == [Event("a", env(0)), Event("a", env(1))]
  {
    var s := Sys([Mod("a", [])], None, map[], []);
    forall p | |p| > 1 ensures !Path(s.installed, p) {
      assert !Needs(s.installed, p[0], p[1]);
    }
    var t := Init(s, "a", env, []).0;
    assert t.trace == [Event("a", env(0))];
    assert Init(t, "a", env, []).0.trace == t.trace + [Event("a", env(1))];
  }

  // ----- runs -----

  datatype Op = InstallOp(m: Mod) | InitOp(id: Id)

  /** module_install: a module whose id is taken is turned down. */
  ghost function Install(s: Sys, m: Mod): (Sys, int) {
    if FindMod(s.installed, m.id).Some? then (s, -EEXIST)
    else (s.(installed := [m] + s.installed, next := s.next - {m.id}), 0)
  }

  /** The first loop of modules_init: install until one is turned down. */
  ghost function InstallAll(s: Sys, mods: seq<Mod>): (Sys, int)
    decreases |mods|
  {
    if mods == [] then (s, 0) else
      var (t, r) := Install(s, mods[0]);
      if r < 0 then (t, r) else InstallAll(t, mods[1..])
  }

  ghost function ModIds(mods: seq<Mod>): seq<Id> {
    seq(|mods|, i requires 0 <= i < |mods| => mods[i].id)
  }

  lemma Outermost(mods: seq<Mod>, id: Id)
    ensures Nested(mods, [], id)
  {
  }

  /** modules_init: install everything, then initialise everything, in list order. */
  ghost function InitEverything(s: Sys, mods: seq<Mod>, env: nat -> int): (Sys, int)
    requires Acyclic(InstallAll(s, mods).0.installed)
  {
    var (t, r) := InstallAll(s, mods);
    if r < 0 then (t, r) else
      assert forall d | d in ModIds(t.installed) :: Nested(t.installed, [], d) by {
        forall d | d in ModIds(t.installed) ensures Nested(t.installed, [], d) { Outermost(t.installed, d); }
      }
      InitDeps(t, ModIds(t.installed), env, [])
  }

  lemma {:induction false} InstallAllKeepsInv(s: Sys, mods: seq<Mod>)
    requires Inv(s)
    ensures Inv(InstallAll(s, mods).0)
    decreases |mods|
  {
    if mods != [] {
      InstallKeepsInv(s, mods[0]);
      if Install(s, mods[0]).1 >= 0 {
        InstallAllKeepsInv(Install(s, mods[0]).0, mods[1..]);
      }
    }
  }

  /** When modules_init reports success, every installed module has been initialised, in order. */
  lemma EverythingIsInitialised(s: Sys, mods: seq<Mod>, env: nat -> int)
    requires Inv(s) && Acyclic(InstallAll(s, mods).0.installed)
    ensures var (t, r) := InitEverything(s, mods, env);
            Inv(t) && (r >= 0 ==> forall m | m in t.installed :: m.id in Successes(t.trace))
  {
    InstallAllKeepsInv(s, mods);
    var (u, q) := InstallAll(s, mods);
    if q >= 0 {
      var ids := ModIds(u.installed);
      forall d | d in ids ensures Nested(u.installed, [], d) { Outermost(u.installed, d); }
      InitDepsKeepPromise(u, ids, env, []);
      var (t, r) := InitDeps(u, ids, env, []);
      if r >= 0 {
        forall m | m in t.installed ensures m.id in Successes(t.trace) {
          var i :| 0 <= i < |u.installed| && u.installed[i] == m;
          assert ids[i] == m.id;
          SuccessesAre(t.trace, m.id);
        }
      }
    }
  }

  ghost function Step(s: Sys, op: Op, env: nat -> int): Sys
    requires op.InitOp? ==> Acyclic(s.installed)
  {
    match op
    case InstallOp(m) => Install(s, m).0
    case InitOp(id) => assert Nested(s.installed, [], id); Init(s, id, env, []).0
  }

  lemma InstallKeepsInv(s: Sys, m: Mod)
    requires Inv(s)
    ensures Inv(Install(s, m).0)
  {
    if FindMod(s.installed, m.id).None? {
      var t := Install(s, m).0;
      forall id | id in s.next ensures id != m.id {
        SuccessesAre(s.trace, id);
        var k :| 1 <= k < |Successes(s.trace)| && Successes(s.trace)[k] == id;
        var j :| 0 <= j < |s.trace| && s.trace[j].id == id;
        assert FindMod(s.installed, s.trace[j].id).Some?;
      }
      forall k | 0 <= k < |s.trace| ensures FindMod(t.installed, s.trace[k].id) == FindMod(s.installed, s.trace[k].id) {
        assert FindMod(s.installed, s.trace[k].id).Some?;
        assert t.installed[1..] == s.installed;
      }
      forall k, d | 0 <= k < |t.trace| && Needs(t.installed, t.trace[k].id, d) ensures Before(t.trace, k, d) {
        assert Needs(s.installed, s.trace[k].id, d);
      }
    }
  }

  ghost predicate LegalRun(s: Sys, ops: seq<Op>, env: nat -> int)
    decreases |ops|
  {
    ops == [] || ((ops[0].InitOp? ==> Acyclic(s.installed)) && LegalRun(Step(s, ops[0], env), ops[1..], env))
  }

  ghost function Exec(s: Sys, ops: seq<Op>, env: nat -> int): Sys
    requires LegalRun(s, ops, env)
    decreases |ops|
  {
    if ops == [] then s else Exec(Step(s, ops[0], env), ops[1..], env)
  }

  /** Order and repeat bound hold after any run of installs and inits, whatever the init functions return. */
  lemma {:induction false} ExecKeepsInv(s: Sys, ops: seq<Op>, env: nat -> int)
    requires Inv(s) && LegalRun(s, ops, env)
    ensures Inv(Exec(s, ops, env))
    decreases |ops|
  {
    if ops != [] {
      match ops[0] {
        case InstallOp(m) => InstallKeepsInv(s, m);
        case InitOp(id) => InitKeepsPromise(s, id, env, []);
      }
      ExecKeepsInv(Step(s, ops[0], env), ops[1..], env);
    }
  }
}

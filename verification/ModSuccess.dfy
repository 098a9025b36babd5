/** When module_init and modules_init succeed, what they answer, and in which order they call. */
module ModSuccess {
  import opened Machine
  import opened ModSpec
  import opened ModOrder
  import opened ModRepeat

  /** Every module that `id` needs, however indirectly, is installed, and so is `id`. */
  ghost predicate AllInstalled(mods: seq<Mod>, id: Id) {
    forall p | Path(mods, p) && |p| > 0 && p[0] == id :: FindMod(mods, p[|p| - 1]).Some?
  }

  /** From `from` on some init call failed. */
  ghost predicate SomeFailed(trace: seq<Event>, from: int) {
    exists k :: 0 <= from <= k < |trace| && trace[k].result < 0
  }

  // ----- one call -----

  /** A module with a link is not initialised again: result 0, and nothing happens. */
  lemma LoadedIsDone(s: Sys, id: Id, env: nat -> int, stack: seq<Id>)
    requires Acyclic(s.installed) && Nested(s.installed, stack, id)
    requires FindMod(s.installed, id).Some? && id in s.next
    ensures Init(s, id, env, stack) == (s, 0)
  {
  }

  /** Success for a module without a link is its own init's result, and that call is the last one made. */
  lemma UnloadedIsRun(s: Sys, id: Id, env: nat -> int, stack: seq<Id>)
    requires Acyclic(s.installed) && Nested(s.installed, stack, id) && Inv(s) && id !in s.next
    ensures var (t, r) := Init(s, id, env, stack);
            r >= 0 ==> |t.trace| > |s.trace| && t.trace[|t.trace| - 1] == Event(id, r)
  {
    if FindMod(s.installed, id).Some? && Init(s, id, env, stack).1 >= 0 {
      var u := OwnRun(s, id, env, stack);
      RunEnds(u, |s.trace|, id, env(|u.trace|));
    }
  }

  /** The state in which the module's own init is called. */
  lemma OwnRun(s: Sys, id: Id, env: nat -> int, stack: seq<Id>) returns (u: Sys)
    requires Acyclic(s.installed) && Nested(s.installed, stack, id) && Inv(s) && id !in s.next
    requires FindMod(s.installed, id).Some? && Init(s, id, env, stack).1 >= 0
    ensures |s.trace| <= |u.trace| && Init(s, id, env, stack) == (Run(u, id, env(|u.trace|)), env(|u.trace|))
  {
    var m := FindMod(s.installed, id).value;
    Descend(s.installed, stack, id);
    DepsOnlyAdd(s, m.deps, env, stack + [id]);
    u := InitDeps(s, m.deps, env, stack + [id]).0;
  }

  lemma DepsOnlyAdd(s: Sys, deps: seq<Id>, env: nat -> int, stack: seq<Id>)
    requires Acyclic(s.installed) && (forall d | d in deps :: Nested(s.installed, stack, d)) && Inv(s)
    ensures |s.trace| <= |InitDeps(s, deps, env, stack).0.trace|
  {
    InitDepsKeepPromise(s, deps, env, stack);
  }

  lemma RunEnds(t: Sys, from: nat, id: Id, result: int)
    requires from <= |t.trace|
    ensures var u := Run(t, id, result);
            |u.trace| > from && u.trace[|u.trace| - 1] == Event(id, result)
  {
  }

  lemma AllInstalledDown(mods: seq<Mod>, id: Id, d: Id)
    requires AllInstalled(mods, id) && Needs(mods, id, d)
    ensures AllInstalled(mods, d)
  {
    forall p | Path(mods, p) && |p| > 0 && p[0] == d ensures FindMod(mods, p[|p| - 1]).Some? {
      var q := [id] + p;
      forall k | 0 <= k < |q| - 1 ensures Needs(mods, q[k], q[k + 1]) {
        if k > 0 { assert q[k] == p[k - 1] && q[k + 1] == p[k]; }
      }
      assert Path(mods, q) && q[|q| - 1] == p[|p| - 1];
    }
  }

  lemma FindsItself(mods: seq<Mod>, id: Id)
    requires AllInstalled(mods, id)
    ensures FindMod(mods, id).Some?
  {
    assert Path(mods, [id]);
  }

  /** What has succeeded was installed, with all it needs. */
  lemma SucceededIsInstalled(s: Sys, id: Id)
    requires Inv(s) && Succeeded(s, id)
    ensures AllInstalled(s.installed, id)
  {
    var j :| 0 <= j < |s.trace| && s.trace[j].id == id && s.trace[j].result >= 0;
    forall p | Path(s.installed, p) && |p| > 0 && p[0] == id ensures FindMod(s.installed, p[|p| - 1]).Some? {
      if |p| > 1 {
        TransitiveDependenciesFirst(s, j, p);
        var i :| 0 <= i < j && s.trace[i].id == p[|p| - 1];
        assert FindMod(s.installed, s.trace[i].id).Some?;
      } else {
        assert FindMod(s.installed, s.trace[j].id).Some?;
      }
    }
  }

  lemma FailedBefore(s: Sys, t: Sys, u: Sys, stack: seq<Id>)
    requires Follows(s, t, stack) && Follows(t, u, stack)
    ensures SomeFailed(u.trace, |s.trace|) <==> SomeFailed(t.trace, |s.trace|) || SomeFailed(u.trace, |t.trace|)
  {
    if k :| |s.trace| <= k < |u.trace| && u.trace[k].result < 0 && k < |t.trace| {
      assert u.trace[..|t.trace|][k] == t.trace[k];
    }
    if k :| |s.trace| <= k < |t.trace| && t.trace[k].result < 0 {
      assert u.trace[..|t.trace|][k] == u.trace[k];
    }
  }

  lemma RunFails(t: Sys, from: nat, id: Id, result: int)
    requires from <= |t.trace|
    ensures SomeFailed(Run(t, id, result).trace, from) <==> SomeFailed(t.trace, from) || result < 0
  {
    var u := Run(t, id, result);
    assert u.trace[|t.trace|] == Event(id, result);
    if k :| from <= k < |t.trace| && t.trace[k].result < 0 { assert u.trace[k] == t.trace[k]; }
    if k :| from <= k < |u.trace| && u.trace[k].result < 0 && k < |t.trace| { assert t.trace[k] == u.trace[k]; }
  }

  /** With everything installed and no init failing, a call succeeds. */
  lemma {:induction false} InitSucceeds(s: Sys, id: Id, env: nat -> int, stack: seq<Id>)
    requires Acyclic(s.installed) && Nested(s.installed, stack, id) && Inv(s) && AllInstalled(s.installed, id)
    requires !SomeFailed(Init(s, id, env, stack).0.trace, |s.trace|)
    ensures Init(s, id, env, stack).1 >= 0
    decreases |Unvisited(s.installed, stack)|, 0, 0
  {
    FindsItself(s.installed, id);
    if !Loaded(s, id) {
      var m := FindMod(s.installed, id).value;
      Descend(s.installed, stack, id);
      forall d | d in m.deps ensures AllInstalled(s.installed, d) {
        assert Needs(s.installed, id, d);
        AllInstalledDown(s.installed, id, d);
      }
      InitDepsKeepPromise(s, m.deps, env, stack + [id]);
      var (t, r) := InitDeps(s, m.deps, env, stack + [id]);
      RunFails(t, |s.trace|, id, env(|t.trace|));
      InitDepsSucceed(s, m.deps, env, stack + [id]);
    }
  }

  lemma {:induction false} InitDepsSucceed(s: Sys, deps: seq<Id>, env: nat -> int, stack: seq<Id>)
    requires Acyclic(s.installed) && (forall d | d in deps :: Nested(s.installed, stack, d)) && Inv(s)
    requires forall d | d in deps :: AllInstalled(s.installed, d)
    requires !SomeFailed(InitDeps(s, deps, env, stack).0.trace, |s.trace|)
    ensures InitDeps(s, deps, env, stack).1 >= 0
    decreases |Unvisited(s.installed, stack)|, 1, |deps|
  {
    if deps != [] {
      InitKeepsPromise(s, deps[0], env, stack);
      var (t, r) := Init(s, deps[0], env, stack);
      if r >= 0 {
        InitDepsKeepPromise(t, deps[1..], env, stack);
        FailedBefore(s, t, InitDeps(t, deps[1..], env, stack).0, stack);
        InitDepsSucceed(t, deps[1..], env, stack);
      } else {
        InitSucceeds(s, deps[0], env, stack);
      }
    }
  }

  lemma StoppedByFailure(trace: seq<Event>, from: nat, r: int)
    requires StopsAtFailure(trace, from, r)
    ensures SomeFailed(trace, from) ==> r < 0
    ensures r < 0 && !SomeFailed(trace, from) ==> r == -ENOENT
  {
  }

  /**
   module_init succeeds exactly when the module and all it needs are installed and no
   init called on the way fails. The error is then that init's, and -ENOENT otherwise.
   */
  lemma InitSucceedsIff(s: Sys, id: Id, env: nat -> int, stack: seq<Id>)
    requires Acyclic(s.installed) && Nested(s.installed, stack, id) && Inv(s)
    ensures var (t, r) := Init(s, id, env, stack);
            && (r >= 0 <==> AllInstalled(s.installed, id) && !SomeFailed(t.trace, |s.trace|))
            && (r < 0 && !SomeFailed(t.trace, |s.trace|) ==> r == -ENOENT)
  {
    var (t, r) := Init(s, id, env, stack);
    InitKeepsPromise(s, id, env, stack);
    InitStopsAtFailure(s, id, env, stack);
    StoppedByFailure(t.trace, |s.trace|, r);
    if r >= 0 {
      SucceededIsInstalled(t, id);
    } else if AllInstalled(s.installed, id) && !SomeFailed(t.trace, |s.trace|) {
      InitSucceeds(s, id, env, stack);
    }
  }

  /** The same for a list of modules, as a dependency list or at boot. */
  lemma InitDepsSucceedIff(s: Sys, deps: seq<Id>, env: nat -> int, stack: seq<Id>)
    requires Acyclic(s.installed) && (forall d | d in deps :: Nested(s.installed, stack, d)) && Inv(s)
    ensures var (t, r) := InitDeps(s, deps, env, stack);
            && (r >= 0 <==> (forall d | d in deps :: AllInstalled(s.installed, d)) && !SomeFailed(t.trace, |s.trace|))
            && (r < 0 && !SomeFailed(t.trace, |s.trace|) ==> r == -ENOENT)
  {
    var (t, r) := InitDeps(s, deps, env, stack);
    InitDepsKeepPromise(s, deps, env, stack);
    InitDepsStopAtFailure(s, deps, env, stack);
    StoppedByFailure(t.trace, |s.trace|, r);
    if r >= 0 {
      forall d | d in deps ensures AllInstalled(s.installed, d) { SucceededIsInstalled(t, d); }
    } else if (forall d | d in deps :: AllInstalled(s.installed, d)) && !SomeFailed(t.trace, |s.trace|) {
      InitDepsSucceed(s, deps, env, stack);
    }
  }

  // ----- which inits are called, with which results -----

  ghost predicate Reaches(mods: seq<Mod>, a: Id, b: Id) {
    exists p :: Path(mods, p) && |p| > 0 && p[0] == a && p[|p| - 1] == b
  }

  ghost predicate NeededBySome(mods: seq<Mod>, ids: seq<Id>, x: Id) {
    exists d :: d in ids && Reaches(mods, d, x)
  }

  /** Each call from `from` on was for a module that one of `ids` reaches, and gave what the environment answers. */
  ghost predicate OnlyNeeded(mods: seq<Mod>, trace: seq<Event>, from: int, ids: seq<Id>, env: nat -> int) {
    forall k | 0 <= from <= k < |trace| ::
      trace[k].result == env(k) && NeededBySome(mods, ids, trace[k].id)
  }

  lemma ReachesItself(mods: seq<Mod>, id: Id)
    ensures Reaches(mods, id, id)
  {
    assert Path(mods, [id]) && [id][|[id]| - 1] == id;
  }

  lemma ReachesFurther(mods: seq<Mod>, a: Id, d: Id, b: Id)
    requires Needs(mods, a, d) && Reaches(mods, d, b)
    ensures Reaches(mods, a, b)
  {
    var p :| Path(mods, p) && |p| > 0 && p[0] == d && p[|p| - 1] == b;
    var q := [a] + p;
    forall k | 0 <= k < |q| - 1 ensures Needs(mods, q[k], q[k + 1]) {
      if k > 0 { assert q[k] == p[k - 1] && q[k + 1] == p[k]; }
    }
    assert Path(mods, q) && q[|q| - 1] == b;
  }

  lemma NeededByOwner(s: Sys, t: Sys, m: Mod, env: nat -> int, from: nat)
    requires FindMod(s.installed, m.id) == Some(m) && t.installed == s.installed && from <= |t.trace|
    requires OnlyNeeded(s.installed, t.trace, from, m.deps, env)
    ensures OnlyNeeded(s.installed, t.trace, from, [m.id], env)
    ensures OnlyNeeded(s.installed, Run(t, m.id, env(|t.trace|)).trace, from, [m.id], env)
  {
    forall k | from <= k < |t.trace| ensures NeededBySome(s.installed, [m.id], t.trace[k].id) {
      OwnerReaches(s.installed, m, t.trace[k].id);
    }
    OwnCallNeeded(s.installed, t, m.id, env, from);
  }

  lemma OwnerReaches(mods: seq<Mod>, m: Mod, x: Id)
    requires FindMod(mods, m.id) == Some(m) && NeededBySome(mods, m.deps, x)
    ensures NeededBySome(mods, [m.id], x)
  {
    var d :| d in m.deps && Reaches(mods, d, x);
    assert Needs(mods, m.id, d);
    ReachesFurther(mods, m.id, d, x);
    assert m.id in [m.id];
  }

  lemma OwnCallNeeded(mods: seq<Mod>, t: Sys, id: Id, env: nat -> int, from: nat)
    requires from <= |t.trace| && OnlyNeeded(mods, t.trace, from, [id], env)
    ensures OnlyNeeded(mods, Run(t, id, env(|t.trace|)).trace, from, [id], env)
  {
    ReachesItself(mods, id);
    assert id in [id];
  }

  /** module_init calls only inits of modules that it needs. */
  lemma {:induction false} InitCallsOnlyNeeded(s: Sys, id: Id, env: nat -> int, stack: seq<Id>)
    requires Acyclic(s.installed) && Nested(s.installed, stack, id) && Inv(s)
    ensures OnlyNeeded(s.installed, Init(s, id, env, stack).0.trace, |s.trace|, [id], env)
    decreases |Unvisited(s.installed, stack)|, 0, 0
  {
    if FindMod(s.installed, id).Some? && !Loaded(s, id) {
      var m := FindMod(s.installed, id).value;
      Descend(s.installed, stack, id);
      InitDepsCallOnlyNeeded(s, m.deps, env, stack + [id]);
      InitDepsKeepPromise(s, m.deps, env, stack + [id]);
      NeededByOwner(s, InitDeps(s, m.deps, env, stack + [id]).0, m, env, |s.trace|);
    }
  }

  lemma {:induction false} InitDepsCallOnlyNeeded(s: Sys, deps: seq<Id>, env: nat -> int, stack: seq<Id>)
    requires Acyclic(s.installed) && (forall d | d in deps :: Nested(s.installed, stack, d)) && Inv(s)
    ensures OnlyNeeded(s.installed, InitDeps(s, deps, env, stack).0.trace, |s.trace|, deps, env)
    decreases |Unvisited(s.installed, stack)|, 1, |deps|
  {
    if deps != [] {
      InitCallsOnlyNeeded(s, deps[0], env, stack);
      InitKeepsPromise(s, deps[0], env, stack);
      var (t, r) := Init(s, deps[0], env, stack);
      NeededByFirst(s.installed, t.trace, |s.trace|, deps, env);
      if r >= 0 {
        InitDepsCallOnlyNeeded(t, deps[1..], env, stack);
        InitDepsKeepPromise(t, deps[1..], env, stack);
        NeededByMore(s.installed, t.trace, InitDeps(t, deps[1..], env, stack).0.trace, |s.trace|, deps, env);
      }
    }
  }

  lemma NeededByFirst(mods: seq<Mod>, trace: seq<Event>, from: nat, deps: seq<Id>, env: nat -> int)
    requires deps != [] && OnlyNeeded(mods, trace, from, [deps[0]], env)
    ensures OnlyNeeded(mods, trace, from, deps, env)
  {
    forall k | from <= k < |trace| ensures NeededBySome(mods, deps, trace[k].id) {
      assert NeededBySome(mods, [deps[0]], trace[k].id);
    }
  }

  lemma NeededByMore(mods: seq<Mod>, a: seq<Event>, b: seq<Event>, from: nat, deps: seq<Id>, env: nat -> int)
    requires a <= b && from <= |a| && deps != []
    requires OnlyNeeded(mods, a, from, deps, env) && OnlyNeeded(mods, b, |a|, deps[1..], env)
    ensures OnlyNeeded(mods, b, from, deps, env)
  {
    forall k | from <= k < |b| ensures b[k].result == env(k) && NeededBySome(mods, deps, b[k].id) {
      if k < |a| {
        assert b[k] == a[k];
      } else {
        assert NeededBySome(mods, deps[1..], b[k].id);
      }
    }
  }

  /** Ready to be initialised: installed, without dependencies and without a link. */
  ghost predicate Leaves(s: Sys, ids: seq<Id>) {
    && (forall i, j | 0 <= i < j < |ids| :: ids[i] != ids[j])
    && forall d | d in ids :: FindMod(s.installed, d).Some? && FindMod(s.installed, d).value.deps == [] && d !in s.next
  }

  lemma LeafInit(s: Sys, d: Id, env: nat -> int, stack: seq<Id>)
    requires Acyclic(s.installed) && Nested(s.installed, stack, d)
    requires FindMod(s.installed, d).Some? && FindMod(s.installed, d).value.deps == [] && d !in s.next
    ensures Init(s, d, env, stack) == (Run(s, d, env(|s.trace|)), env(|s.trace|))
  {
    Descend(s.installed, stack, d);
  }

  lemma LeavesLeft(s: Sys, ids: seq<Id>, result: int)
    requires ids != [] && Leaves(s, ids)
    ensures Leaves(Run(s, ids[0], result), ids[1..])
  {
    forall d | d in ids[1..] ensures d in ids && d != ids[0] {
      var i :| 0 <= i < |ids| - 1 && ids[1..][i] == d;
      assert ids[i + 1] == d;
    }
  }

  /** `b` is `a` and then one call for each of `ids`, in order. */
  ghost predicate CallsInOrder(a: seq<Event>, b: seq<Event>, ids: seq<Id>) {
    |b| == |a| + |ids| && a <= b && forall i | 0 <= i < |ids| :: b[|a| + i].id == ids[i]
  }

  lemma OneCallMore(a: seq<Event>, e: Event, b: seq<Event>, ids: seq<Id>)
    requires ids != [] && e.id == ids[0] && CallsInOrder(a + [e], b, ids[1..])
    ensures CallsInOrder(a, b, ids)
  {
    assert b[|a|] == (a + [e])[|a|];
    forall i | 0 < i < |ids| ensures b[|a| + i].id == ids[i] {
      assert b[|a + [e]| + (i - 1)].id == ids[1..][i - 1];
    }
  }

  /** Modules without dependencies are initialised in the order of the list. */
  lemma {:induction false} LeavesInOrder(s: Sys, ids: seq<Id>, env: nat -> int, stack: seq<Id>)
    requires Acyclic(s.installed) && (forall d | d in ids :: Nested(s.installed, stack, d))
    requires Leaves(s, ids) && forall n :: env(n) >= 0
    ensures var (t, r) := InitDeps(s, ids, env, stack);
            r >= 0 && CallsInOrder(s.trace, t.trace, ids)
    decreases |ids|
  {
    if ids != [] {
      LeafInit(s, ids[0], env, stack);
      LeavesLeft(s, ids, env(|s.trace|));
      var t := Run(s, ids[0], env(|s.trace|));
      LeavesInOrder(t, ids[1..], env, stack);
      OneCallMore(s.trace, Event(ids[0], env(|s.trace|)), InitDeps(t, ids[1..], env, stack).0.trace, ids);
    }
  }

  // ----- the modules built into the kernel -----

  /** The id of the i-th module is taken: installed before, or by one of the modules before it. */
  ghost predicate Clashes(installed: seq<Mod>, mods: seq<Mod>, i: nat)
    requires i < |mods|
  {
    || (exists k :: 0 <= k < |installed| && installed[k].id == mods[i].id)
    || (exists j :: 0 <= j < i && mods[j].id == mods[i].id)
  }

  /** The first `n` of `mods`, in reverse order, stand before what was installed. */
  ghost predicate InstalledFirst(before: seq<Mod>, after: seq<Mod>, mods: seq<Mod>, n: nat) {
    && n <= |mods| && |after| == n + |before|
    && (forall j | 0 <= j < n :: after[n - 1 - j] == mods[j])
    && after[n..] == before
  }

  lemma FindIffThere(mods: seq<Mod>, id: Id)
    ensures FindMod(mods, id).Some? <==> exists k :: 0 <= k < |mods| && mods[k].id == id
  {
    if FindMod(mods, id).Some? {
      var k :| 0 <= k < |mods| && mods[k] == FindMod(mods, id).value;
    }
  }

  /** module_install: a new module comes first, without a link; one whose id is taken is turned down. */
  lemma InstallEffect(s: Sys, m: Mod)
    ensures var (t, r) := Install(s, m);
            if exists k :: 0 <= k < |s.installed| && s.installed[k].id == m.id
            then t == s && r == -EEXIST
            else && r == 0 && t.installed == [m] + s.installed && t.first == s.first && t.trace == s.trace
                 && m.id !in t.next && forall x | x != m.id :: (x in t.next <==> x in s.next)
  {
    FindIffThere(s.installed, m.id);
  }

  /** SLIST_INSERT_HEAD: the module comes first, and its link leads to the one that came first before. */
  lemma LoadEffect(s: Sys, id: Id, x: Id)
    ensures var t := Load(s, id);
            && t.first == Some(id) && t.installed == s.installed && t.trace == s.trace
            && (id in t.next <==> s.first.Some?)
            && (s.first.Some? ==> t.next[id] == s.first.value)
            && (x != id ==> (x in t.next <==> x in s.next) && (x in s.next ==> t.next[x] == s.next[x]))
  {
  }

  lemma ClashesLater(installed: seq<Mod>, mods: seq<Mod>, i: nat)
    requires i + 1 < |mods|
    ensures Clashes([mods[0]] + installed, mods[1..], i) <==> Clashes(installed, mods, i + 1)
  {
    var more, rest := [mods[0]] + installed, mods[1..];
    assert rest[i] == mods[i + 1];
    if k :| 0 <= k < |more| && more[k].id == rest[i].id {
      if k > 0 { assert installed[k - 1] == more[k]; } else { assert mods[0].id == mods[i + 1].id; }
    }
    if j :| 0 <= j < i && rest[j].id == rest[i].id { assert mods[j + 1].id == mods[i + 1].id; }
    if k :| 0 <= k < |installed| && installed[k].id == mods[i + 1].id { assert more[k + 1] == installed[k]; }
    if j :| 0 <= j < i + 1 && mods[j].id == mods[i + 1].id {
      if j > 0 { assert rest[j - 1] == mods[j]; } else { assert more[0].id == rest[i].id; }
    }
  }

  /** The install loop stops at the first of `mods` whose id is taken, at `n`, or takes them all. */
  lemma {:induction false} InstallAllEffect(s: Sys, mods: seq<Mod>, n: nat)
    requires n <= |mods| && forall i | 0 <= i < n :: !Clashes(s.installed, mods, i)
    requires n < |mods| ==> Clashes(s.installed, mods, n)
    ensures var (t, r) := InstallAll(s, mods);
            && InstalledFirst(s.installed, t.installed, mods, n)
            && r == (if n == |mods| then 0 else -EEXIST)
            && t.first == s.first && t.trace == s.trace
    decreases |mods|
  {
    if mods != [] {
      InstallEffect(s, mods[0]);
      if n > 0 {
        assert !Clashes(s.installed, mods, 0);
        var t := Install(s, mods[0]).0;
        forall i | 0 <= i < |mods| - 1
          ensures Clashes(t.installed, mods[1..], i) <==> Clashes(s.installed, mods, i + 1)
        {
          ClashesLater(s.installed, mods, i);
        }
        InstallAllEffect(t, mods[1..], n - 1);
        OneMoreInstalled(s.installed, InstallAll(t, mods[1..]).0.installed, mods, n);
      }
    }
  }

  lemma OneMoreInstalled(before: seq<Mod>, after: seq<Mod>, mods: seq<Mod>, n: nat)
    requires 0 < n <= |mods| && InstalledFirst([mods[0]] + before, after, mods[1..], n - 1)
    ensures InstalledFirst(before, after, mods, n)
  {
    assert after[n - 1] == after[n - 1..][0];
    assert after[n..] == after[n - 1..][1..];
    forall j | 0 <= j < n ensures after[n - 1 - j] == mods[j] {
      if j > 0 { assert after[n - 2 - (j - 1)] == mods[1..][j - 1]; }
    }
  }

  /** When modules_init reports success, every built-in module is installed and has been initialised. */
  lemma BuiltinSucceeded(s: Sys, mods: seq<Mod>, env: nat -> int, m: Mod)
    requires Inv(s) && Acyclic(InstallAll(s, mods).0.installed) && m in mods
    ensures var (t, r) := InitEverything(s, mods, env);
            r >= 0 ==> m in t.installed && m.id in Successes(t.trace)
  {
    EverythingIsInitialised(s, mods, env);
    var n := FirstClash(s.installed, mods);
    InstallAllEffect(s, mods, n);
    if n == |mods| {
      var j :| 0 <= j < |mods| && mods[j] == m;
      assert InstallAll(s, mods).0.installed[n - 1 - j] == m;
    }
  }

  lemma FirstClash(installed: seq<Mod>, mods: seq<Mod>) returns (n: nat)
    ensures n <= |mods| && forall i | 0 <= i < n :: !Clashes(installed, mods, i)
    ensures n < |mods| ==> Clashes(installed, mods, n)
  {
    n := 0;
    while n < |mods| && !Clashes(installed, mods, n)
      invariant n <= |mods| && forall i | 0 <= i < n :: !Clashes(installed, mods, i)
    {
      n := n + 1;
    }
  }

  /** modules_init succeeds exactly when no id clashes, all that is needed is installed, and no init fails. */
  lemma ModulesInitSucceedsIff(s: Sys, mods: seq<Mod>, env: nat -> int)
    requires Inv(s) && Acyclic(InstallAll(s, mods).0.installed)
    ensures var (t, r) := InitEverything(s, mods, env);
            && (r >= 0 <==> && (forall i | 0 <= i < |mods| :: !Clashes(s.installed, mods, i))
                            && (forall m | m in t.installed :: AllInstalled(t.installed, m.id))
                            && !SomeFailed(t.trace, |s.trace|))
            && r <= 0
  {
    var n := FirstClash(s.installed, mods);
    InstallAllEffect(s, mods, n);
    if n == |mods| {
      var u := InstallAll(s, mods).0;
      InstallAllKeepsInv(s, mods);
      var ids := ModIds(u.installed);
      forall d | d in ids ensures Nested(u.installed, [], d) { Outermost(u.installed, d); }
      InitDepsSucceedIff(u, ids, env, []);
      DepsGiveZero(u, ids, env, []);
      IdsOfAll(u.installed);
    }
  }

  /** The loop over a list of modules ends with 0 or with an error. */
  lemma {:induction false} DepsGiveZero(s: Sys, deps: seq<Id>, env: nat -> int, stack: seq<Id>)
    requires Acyclic(s.installed) && forall d | d in deps :: Nested(s.installed, stack, d)
    ensures InitDeps(s, deps, env, stack).1 <= 0
    decreases |deps|
  {
    if deps != [] && Init(s, deps[0], env, stack).1 >= 0 {
      DepsGiveZero(Init(s, deps[0], env, stack).0, deps[1..], env, stack);
    }
  }

  lemma IdsOfAll(mods: seq<Mod>)
    ensures (forall d | d in ModIds(mods) :: AllInstalled(mods, d))
            <==> forall m | m in mods :: AllInstalled(mods, m.id)
  {
    var ids := ModIds(mods);
    if forall d | d in ids :: AllInstalled(mods, d) {
      forall m | m in mods ensures AllInstalled(mods, m.id) {
        var i :| 0 <= i < |mods| && mods[i] == m;
        assert ids[i] == m.id;
      }
    }
  }

  /** If each dependency of an installed module is installed, so is all that it needs. */
  lemma DependenciesSuffice(mods: seq<Mod>, id: Id)
    requires FindMod(mods, id).Some?
    requires forall m, d | m in mods && d in m.deps :: FindMod(mods, d).Some?
    ensures AllInstalled(mods, id)
  {
    forall p | Path(mods, p) && |p| > 0 && p[0] == id ensures FindMod(mods, p[|p| - 1]).Some? {
      if |p| > 1 {
        assert Needs(mods, p[|p| - 2], p[|p| - 2 + 1]);
        assert FindMod(mods, p[|p| - 2]).value in mods;
      }
    }
  }

  /** At boot, modules without dependencies are initialised in installed order: the last built-in one first. */
  lemma BootCallsInOrder(s: Sys, mods: seq<Mod>, env: nat -> int)
    requires InitialSys(s) && s.installed == [] && Acyclic(InstallAll(s, mods).0.installed)
    requires forall i, j | 0 <= i < j < |mods| :: mods[i].id != mods[j].id
    requires (forall m | m in mods :: m.deps == []) && forall n :: env(n) >= 0
    ensures var (t, r) := InitEverything(s, mods, env);
            && r >= 0 && |t.trace| == |mods|
            && forall i | 0 <= i < |mods| :: t.trace[i].id == mods[|mods| - 1 - i].id
  {
    InstallAllKeepsDistinct(s, mods);
    InstallAllEffect(s, mods, |mods|);
    InitialInv(s);
    InstallAllKeepsInv(s, mods);
    var u := InstallAll(s, mods).0;
    var ids := ModIds(u.installed);
    assert |u.installed| == |mods|;
    forall i | 0 <= i < |mods| ensures ids[i] == mods[|mods| - 1 - i].id && u.installed[i].deps == [] {
      assert u.installed[|mods| - 1 - (|mods| - 1 - i)] == mods[|mods| - 1 - i];
    }
    forall d | d in ids ensures Nested(u.installed, [], d) { Outermost(u.installed, d); }
    AllLeaves(u);
    LeavesInOrder(u, ids, env, []);
  }

  lemma AllLeaves(u: Sys)
    requires DistinctIds(u.installed) && u.next == map[]
    requires forall i | 0 <= i < |u.installed| :: u.installed[i].deps == []
    ensures Leaves(u, ModIds(u.installed))
  {
    var ids := ModIds(u.installed);
    forall d | d in ids ensures FindMod(u.installed, d).Some? && FindMod(u.installed, d).value.deps == [] {
      var i :| 0 <= i < |ids| && ids[i] == d;
      assert u.installed[i].id == d;
      FindIffThere(u.installed, d);
    }
  }
}

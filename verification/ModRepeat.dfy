/** When modules_init itself initialises a module twice. */
module ModRepeat {
  import opened ModSpec
  import opened ModOrder

  ghost predicate IsNeeded(mods: seq<Mod>, f: Id) {
    exists g :: Needs(mods, g, f)
  }

  ghost predicate Succeeded(s: Sys, f: Id) {
    Before(s.trace, |s.trace|, f)
  }

  lemma {:induction false} SuccessesPrefix(a: seq<Event>, b: seq<Event>)
    requires a <= b
    ensures Successes(a) <= Successes(b)
    decreases |b|
  {
    if a != b {
      assert a <= b[..|b| - 1];
      SuccessesPrefix(a, b[..|b| - 1]);
    }
  }

  /** A link once set stays set. */
  lemma LoadedStays(s: Sys, t: Sys, stack: seq<Id>, f: Id)
    requires Inv(s) && Inv(t) && Follows(s, t, stack) && Loaded(s, f)
    ensures Loaded(t, f)
  {
    SuccessesPrefix(s.trace, t.trace);
    var a, b := Successes(s.trace), Successes(t.trace);
    var k :| 1 <= k < |a| && a[k] == f;
    assert b[k] == f;
  }

  // ----- who is asked for -----

  lemma NotRunThrough(s: Sys, t: Sys, u: Sys, stack: seq<Id>, f: Id)
    requires Follows(s, t, stack) && Follows(t, u, stack)
    requires NotRun(t.trace, |s.trace|, f) && NotRun(u.trace, |t.trace|, f)
    ensures NotRun(u.trace, |s.trace|, f)
  {
    forall k | |s.trace| <= k < |u.trace| ensures u.trace[k].id != f {
      if k < |t.trace| { assert u.trace[..|t.trace|][k] == t.trace[k]; }
    }
  }

  /** A module that nobody needs is initialised only when it is asked for itself. */
  lemma {:induction false} UnneededByInit(s: Sys, id: Id, env: nat -> int, stack: seq<Id>, f: Id)
    requires Acyclic(s.installed) && Nested(s.installed, stack, id) && Inv(s)
    requires !IsNeeded(s.installed, f) && id != f
    ensures NotRun(Init(s, id, env, stack).0.trace, |s.trace|, f)
    decreases |Unvisited(s.installed, stack)|, 0, 0
  {
    if FindMod(s.installed, id).Some? && !Loaded(s, id) {
      var m := FindMod(s.installed, id).value;
      Descend(s.installed, stack, id);
      forall d | d in m.deps ensures d != f { assert Needs(s.installed, id, d); }
      UnneededByDeps(s, m.deps, env, stack + [id], f);
      var t := InitDeps(s, m.deps, env, stack + [id]).0;
      RunOfAnother(t, |s.trace|, id, env(|t.trace|), f);
    }
  }

  lemma RunOfAnother(t: Sys, from: int, id: Id, result: int, f: Id)
    requires NotRun(t.trace, from, f) && id != f
    ensures NotRun(Run(t, id, result).trace, from, f)
  {
  }

  lemma {:induction false} UnneededByDeps(s: Sys, deps: seq<Id>, env: nat -> int, stack: seq<Id>, f: Id)
    requires Acyclic(s.installed) && (forall d | d in deps :: Nested(s.installed, stack, d)) && Inv(s)
    requires !IsNeeded(s.installed, f) && f !in deps
    ensures NotRun(InitDeps(s, deps, env, stack).0.trace, |s.trace|, f)
    decreases |Unvisited(s.installed, stack)|, 1, |deps|
  {
    if deps != [] {
      UnneededByInit(s, deps[0], env, stack, f);
      InitKeepsPromise(s, deps[0], env, stack);
      var (t, r) := Init(s, deps[0], env, stack);
      if r >= 0 {
        UnneededByDeps(t, deps[1..], env, stack, f);
        InitDepsKeepPromise(t, deps[1..], env, stack);
        NotRunThrough(s, t, InitDeps(t, deps[1..], env, stack).0, stack, f);
      }
    }
  }

  // ----- what is asked for again -----

  lemma RunAgainLoads(s: Sys, f: Id, result: int)
    requires Inv(s) && Succeeded(s, f) && result >= 0
    ensures Loaded(Run(s, f, result), f)
  {
    SuccessesAre(s.trace, f);
  }

  /** A module that has succeeded and is asked for again has a link afterwards. */
  lemma AskedAgain(s: Sys, f: Id, env: nat -> int, stack: seq<Id>)
    requires Acyclic(s.installed) && Nested(s.installed, stack, f) && Inv(s) && Succeeded(s, f)
    ensures Init(s, f, env, stack).1 >= 0 ==> Loaded(Init(s, f, env, stack).0, f)
  {
    if FindMod(s.installed, f).Some? && !Loaded(s, f) {
      var m := FindMod(s.installed, f).value;
      Descend(s.installed, stack, f);
      InitDepsKeepPromise(s, m.deps, env, stack + [f]);
      var (t, r) := InitDeps(s, m.deps, env, stack + [f]);
      if r >= 0 && env(|t.trace|) >= 0 {
        BeforeFollows(s, t, stack + [f], f);
        RunAgainLoads(t, f, env(|t.trace|));
      }
    }
  }

  lemma {:induction false} DepsAskAgain(s: Sys, deps: seq<Id>, env: nat -> int, stack: seq<Id>, f: Id)
    requires Acyclic(s.installed) && (forall d | d in deps :: Nested(s.installed, stack, d)) && Inv(s)
    requires Succeeded(s, f) && f in deps && InitDeps(s, deps, env, stack).1 >= 0
    ensures Loaded(InitDeps(s, deps, env, stack).0, f)
    decreases |deps|
  {
    InitKeepsPromise(s, deps[0], env, stack);
    var t := Init(s, deps[0], env, stack).0;
    InitDepsKeepPromise(t, deps[1..], env, stack);
    if deps[0] == f {
      AskedAgain(s, f, env, stack);
      LoadedStays(t, InitDeps(t, deps[1..], env, stack).0, stack, f);
    } else {
      BeforeFollows(s, t, stack, f);
      DepsAskAgain(t, deps[1..], env, stack, f);
    }
  }

  lemma RunSucceeded(s: Sys, id: Id, result: int, g: Id)
    requires g != id || result < 0
    ensures Succeeded(Run(s, id, result), g) ==> Succeeded(s, g)
  {
    var t := Run(s, id, result);
    if k :| 0 <= k < |t.trace| && t.trace[k].id == g && t.trace[k].result >= 0 {
      assert k < |s.trace| && s.trace[k] == t.trace[k];
    }
  }

  /** Once `f` has succeeded, the success of a module that needs it asks for it again. */
  lemma {:induction false} NeederAsksAgain(s: Sys, id: Id, env: nat -> int, stack: seq<Id>, f: Id, g: Id)
    requires Acyclic(s.installed) && Nested(s.installed, stack, id) && Inv(s)
    requires Succeeded(s, f) && !Succeeded(s, g) && Needs(s.installed, g, f)
    requires Succeeded(Init(s, id, env, stack).0, g)
    ensures Loaded(Init(s, id, env, stack).0, f)
    decreases |Unvisited(s.installed, stack)|, 0, 0
  {
    if FindMod(s.installed, id).Some? && !Loaded(s, id) {
      var m := FindMod(s.installed, id).value;
      NotOnStack(s.installed, stack, id);
      Descend(s.installed, stack, id);
      InitDepsKeepPromise(s, m.deps, env, stack + [id]);
      var (t, r) := InitDeps(s, m.deps, env, stack + [id]);
      if Succeeded(t, g) {
        DepsAskAgainFor(s, m.deps, env, stack + [id], f, g);
      } else if r >= 0 {
        if g != id || env(|t.trace|) < 0 { RunSucceeded(t, id, env(|t.trace|), g); }
        DepsAskAgain(s, m.deps, env, stack + [id], f);
      }
      if r >= 0 { RunKeepsLoaded(t, id, env(|t.trace|), f); }
    }
  }

  lemma RunKeepsLoaded(s: Sys, id: Id, result: int, f: Id)
    requires Inv(s) && Loaded(s, f)
    ensures Loaded(Run(s, id, result), f)
  {
  }

  lemma {:induction false} DepsAskAgainFor(s: Sys, deps: seq<Id>, env: nat -> int, stack: seq<Id>, f: Id, g: Id)
    requires Acyclic(s.installed) && (forall d | d in deps :: Nested(s.installed, stack, d)) && Inv(s)
    requires Succeeded(s, f) && !Succeeded(s, g) && Needs(s.installed, g, f)
    requires Succeeded(InitDeps(s, deps, env, stack).0, g)
    ensures Loaded(InitDeps(s, deps, env, stack).0, f)
    decreases |Unvisited(s.installed, stack)|, 1, |deps|
  {
    if deps != [] {
      InitKeepsPromise(s, deps[0], env, stack);
      var (t, r) := Init(s, deps[0], env, stack);
      if Succeeded(t, g) { NeederAsksAgain(s, deps[0], env, stack, f, g); }
      if r >= 0 {
        InitDepsKeepPromise(t, deps[1..], env, stack);
        BeforeFollows(s, t, stack, f);
        if Succeeded(t, g) {
          LoadedStays(t, InitDeps(t, deps[1..], env, stack).0, stack, f);
        } else {
          DepsAskAgainFor(t, deps[1..], env, stack, f, g);
        }
      }
    }
  }

  // ----- the loop of modules_init, cut at the turn of the first module to succeed -----

  /** A stretch of dependencies and then another. */
  lemma {:induction false} DepsSplit(s: Sys, ids: seq<Id>, a: seq<Id>, b: seq<Id>, env: nat -> int)
    requires Acyclic(s.installed) && ids == a + b && forall d | d in ids :: Nested(s.installed, [], d)
    ensures forall d | d in a || d in b :: Nested(s.installed, [], d)
    ensures var (t, r) := InitDeps(s, a, env, []);
            InitDeps(s, ids, env, []) == if r < 0 then (t, r) else InitDeps(t, b, env, [])
    decreases |a|
  {
    assert forall d | d in a || d in b :: d in ids;
    if a == [] {
      assert ids == b;
    } else {
      var (t, r) := Init(s, a[0], env, []);
      assert ids[0] == a[0] && ids[1..] == a[1..] + b;
      if r >= 0 { DepsSplit(t, ids[1..], a[1..], b, env); }
    }
  }

  /** The first module to succeed has no dependencies, and until then nothing else has succeeded. */
  lemma FirstIsAlone(s: Sys, f: Id, env: nat -> int)
    requires Acyclic(s.installed) && Nested(s.installed, [], f) && Inv(s) && !Succeeded(s, f)
    requires var (t, r) := Init(s, f, env, []);
             r >= 0 && Successes(t.trace) != [] && Successes(t.trace)[0] == f
    ensures Successes(Init(s, f, env, []).0.trace) == [f]
    ensures FindMod(s.installed, f).Some? && FindMod(s.installed, f).value.deps == []
  {
    if Loaded(s, f) { SuccessesAre(s.trace, f); }
    var u, q := InitIsRun(s, f, env);
    FirstRun(s, u, q, f, FindMod(s.installed, f).value.deps, env(|u.trace|));
  }

  /** A successful call for a module without a link: its dependencies, and then its own init. */
  lemma InitIsRun(s: Sys, f: Id, env: nat -> int) returns (u: Sys, q: int)
    requires Acyclic(s.installed) && Nested(s.installed, [], f) && Inv(s)
    requires !Loaded(s, f) && Init(s, f, env, []).1 >= 0
    ensures FindMod(s.installed, f).Some? && q >= 0 && env(|u.trace|) >= 0
    ensures PromiseAll(s, u, q, FindMod(s.installed, f).value.deps, [f])
    ensures Init(s, f, env, []).0 == Run(u, f, env(|u.trace|))
  {
    Descend(s.installed, [], f);
    assert [] + [f] == [f];
    var deps := FindMod(s.installed, f).value.deps;
    InitDepsKeepPromise(s, deps, env, [f]);
    u, q := InitDeps(s, deps, env, [f]).0, InitDeps(s, deps, env, [f]).1;
  }

  lemma FirstRun(s: Sys, u: Sys, q: int, f: Id, deps: seq<Id>, result: int)
    requires PromiseAll(s, u, q, deps, [f]) && q >= 0 && result >= 0 && !Succeeded(s, f)
    requires Successes(Run(u, f, result).trace)[0] == f
    ensures Successes(Run(u, f, result).trace) == [f] && deps == []
  {
    SuccessesRun(u, f, result);
    StillNotSucceeded(s, u, f);
    EarlierSuccesses(u, Run(u, f, result), f);
    if deps != [] { SuccessesAre(u.trace, deps[0]); }
  }

  /** Before `f`, the first to succeed, nothing has succeeded. */
  lemma EarlierSuccesses(s: Sys, t: Sys, f: Id)
    requires s.trace <= t.trace && !Succeeded(s, f)
    requires Successes(t.trace) != [] && Successes(t.trace)[0] == f
    ensures Successes(s.trace) == []
  {
    SuccessesPrefix(s.trace, t.trace);
    SuccessesAre(s.trace, f);
  }

  lemma StillNotSucceeded(s: Sys, t: Sys, f: Id)
    requires Follows(s, t, [f]) && !Succeeded(s, f)
    ensures !Succeeded(t, f)
  {
    assert f in [f];
    assert s.trace == t.trace[..|s.trace|];
  }

  ghost predicate Turns(s: Sys, pre: seq<Id>, f: Id, post: seq<Id>) {
    && Acyclic(s.installed) && InitialSys(s)
    && (forall d | d in pre :: Nested(s.installed, [], d))
    && Nested(s.installed, [], f)
    && (forall d | d in post :: Nested(s.installed, [], d))
    && f !in pre && f !in post
  }

  lemma TurnsKeepInv(s: Sys, s1: Sys, s2: Sys, t: Sys, pre: seq<Id>, f: Id, post: seq<Id>, env: nat -> int)
    requires Turns(s, pre, f, post)
    requires InitDeps(s, pre, env, []).0 == s1 && Init(s1, f, env, []).0 == s2
    requires InitDeps(s2, post, env, []).0 == t && Init(s1, f, env, []).1 >= 0
    ensures Inv(s) && Inv(s1) && Inv(s2) && Inv(t) && s1.installed == s.installed && Succeeded(s2, f)
    ensures Follows(s, s1, []) && Follows(s1, s2, []) && Follows(s2, t, [])
  {
    InitialInv(s);
    InitDepsKeepPromise(s, pre, env, []);
    InitKeepsPromise(s1, f, env, []);
    InitDepsKeepPromise(s2, post, env, []);
  }

  /** Its first turn, if nothing has succeeded before. */
  lemma FirstTurn(s: Sys, t: Sys, u: Sys, f: Id, env: nat -> int)
    requires Acyclic(s.installed) && Nested(s.installed, [], f) && Inv(s) && !Succeeded(s, f)
    requires Init(s, f, env, []).0 == t && Init(s, f, env, []).1 >= 0 && Succeeded(t, f) && Follows(t, u, [])
    requires Successes(u.trace) != [] && Successes(u.trace)[0] == f
    ensures Successes(t.trace) == [f] && !Needs(s.installed, f, f)
  {
    FirstSoFar(t, u, f);
    FirstIsAlone(s, f, env);
  }

  /** A first module that somebody needs is asked for twice. */
  lemma NeededIsRepeated(s: Sys, s1: Sys, s2: Sys, t: Sys, pre: seq<Id>, f: Id, post: seq<Id>,
                         env: nat -> int, g: Id)
    requires Turns(s, pre, f, post) && Needs(s.installed, g, f)
    requires InitDeps(s, pre, env, []).0 == s1 && Init(s1, f, env, []).0 == s2
    requires InitDeps(s2, post, env, []).0 == t && Init(s1, f, env, []).1 >= 0
    requires Succeeded(t, g) && Successes(t.trace) != [] && Successes(t.trace)[0] == f
    ensures Loaded(t, f)
  {
    TurnsKeepInv(s, s1, s2, t, pre, f, post, env);
    if Succeeded(s1, f) {
      AskedAgain(s1, f, env, []);
      LoadedStays(s2, t, [], f);
    } else {
      FirstTurn(s1, s2, t, f, env);
      SuccessesAre(s2.trace, g);
      DepsAskAgainFor(s2, post, env, [], f, g);
    }
  }

  lemma FirstSoFar(s: Sys, t: Sys, f: Id)
    requires s.trace <= t.trace && Succeeded(s, f) && Successes(t.trace) != [] && Successes(t.trace)[0] == f
    ensures Successes(s.trace) != [] && Successes(s.trace)[0] == f
  {
    SuccessesPrefix(s.trace, t.trace);
    SuccessesAre(s.trace, f);
  }

  /** A first module that nobody needs has its own turn and no other. */
  lemma UnneededIsNotRepeated(s: Sys, s1: Sys, s2: Sys, t: Sys, pre: seq<Id>, f: Id, post: seq<Id>, env: nat -> int)
    requires Turns(s, pre, f, post) && !IsNeeded(s.installed, f)
    requires InitDeps(s, pre, env, []).0 == s1 && Init(s1, f, env, []).0 == s2
    requires InitDeps(s2, post, env, []).0 == t && Init(s1, f, env, []).1 >= 0
    requires Successes(t.trace) != [] && Successes(t.trace)[0] == f
    ensures !Loaded(t, f)
  {
    TurnsKeepInv(s, s1, s2, t, pre, f, post, env);
    UnneededByDeps(s, pre, env, [], f);
    NotYet(s1, f);
    FirstTurn(s1, s2, t, f, env);
    UnneededByDeps(s2, post, env, [], f);
    OnlyOnce(s2, t, f);
  }

  lemma NotYet(s: Sys, f: Id)
    requires NotRun(s.trace, 0, f)
    ensures !Succeeded(s, f)
  {
  }

  lemma OnlyOnce(s: Sys, t: Sys, f: Id)
    requires Inv(t) && Follows(s, t, []) && NotRun(t.trace, |s.trace|, f) && Successes(s.trace) == [f]
    ensures !Loaded(t, f)
  {
    assert s.trace <= t.trace;
    SuccessesGrow(s.trace, t.trace, f);
  }

  /** The turns `ids` are those of `pre`, of `f` and of `post`. */
  ghost predicate Cut(ids: seq<Id>, pre: seq<Id>, f: Id, post: seq<Id>) {
    ids == pre + ([f] + post) && f !in pre && f !in post
  }

  /** A loop without an error, cut at the turn of `f`. */
  lemma CutAtTurn(s: Sys, ids: seq<Id>, pre: seq<Id>, f: Id, post: seq<Id>, env: nat -> int)
    returns (s1: Sys, s2: Sys)
    requires Acyclic(s.installed) && Cut(ids, pre, f, post) && forall d | d in ids :: Nested(s.installed, [], d)
    requires InitDeps(s, ids, env, []).1 >= 0
    ensures forall d | d in pre || d == f || d in post :: Nested(s.installed, [], d)
    ensures InitDeps(s, pre, env, []).0 == s1 && s1.installed == s.installed == s2.installed
    ensures Init(s1, f, env, []).0 == s2 && Init(s1, f, env, []).1 >= 0
    ensures InitDeps(s2, post, env, []).0 == InitDeps(s, ids, env, []).0
  {
    var rest := [f] + post;
    DepsSplit(s, ids, pre, rest, env);
    s1 := InitDeps(s, pre, env, []).0;
    OneThenRest(s1, f, post, env);
    s2 := Init(s1, f, env, []).0;
  }

  lemma RepeatedIsLoaded(t: Sys)
    requires Inv(t) && Successes(t.trace) != []
    ensures var l := Successes(t.trace); Count(l, l[0]) == 2 <==> Loaded(t, l[0])
  {
    var l := Successes(t.trace);
    FlagOverlooksIff(t, l[0]);
    RepeatBound(t, l[0]);
    CountDistinct(l[1..], l[0]);
  }

  /** Whether the first module to succeed has a link after the loop. */
  lemma LinkedIffNeeded(s: Sys, ids: seq<Id>, pre: seq<Id>, f: Id, post: seq<Id>, env: nat -> int)
    requires Acyclic(s.installed) && InitialSys(s) && Cut(ids, pre, f, post)
    requires forall d | d in ids :: Nested(s.installed, [], d)
    requires var (t, r) := InitDeps(s, ids, env, []);
             && r >= 0 && Successes(t.trace) != [] && Successes(t.trace)[0] == f
             && forall g | FindMod(s.installed, g).Some? :: Succeeded(t, g)
    ensures Loaded(InitDeps(s, ids, env, []).0, f) <==> IsNeeded(s.installed, f)
  {
    var t := InitDeps(s, ids, env, []).0;
    var s1, s2 := CutAtTurn(s, ids, pre, f, post, env);
    if g :| Needs(s.installed, g, f) {
      NeededIsRepeated(s, s1, s2, t, pre, f, post, env, g);
    } else {
      UnneededIsNotRepeated(s, s1, s2, t, pre, f, post, env);
    }
  }

  /** A loop over all modules, successful from empty lists, makes all of them succeed. */
  lemma AllSucceed(s: Sys, env: nat -> int)
    requires Acyclic(s.installed) && InitialSys(s)
    requires forall d | d in ModIds(s.installed) :: Nested(s.installed, [], d)
    requires InitDeps(s, ModIds(s.installed), env, []).1 >= 0
    ensures var t := InitDeps(s, ModIds(s.installed), env, []).0;
            && Inv(t) && t.installed == s.installed
            && (forall g | FindMod(s.installed, g).Some? :: Succeeded(t, g))
            && (s.installed != [] ==> Successes(t.trace) != [])
  {
    InitialInv(s);
    InitDepsKeepPromise(s, ModIds(s.installed), env, []);
    var t := InitDeps(s, ModIds(s.installed), env, []).0;
    forall g | FindMod(s.installed, g).Some? ensures Succeeded(t, g) { Installed(s.installed, g); }
    if s.installed != [] { SuccessesAre(t.trace, ModIds(s.installed)[0]); }
  }

  /** That loop repeats its first module exactly when it is needed. */
  lemma LoopRepeatsIff(s: Sys, env: nat -> int)
    requires Acyclic(s.installed) && InitialSys(s) && DistinctIds(s.installed) && s.installed != []
    requires forall d | d in ModIds(s.installed) :: Nested(s.installed, [], d)
    requires InitDeps(s, ModIds(s.installed), env, []).1 >= 0
    ensures var l := Successes(InitDeps(s, ModIds(s.installed), env, []).0.trace);
            l != [] && (Count(l, l[0]) == 2 <==> IsNeeded(s.installed, l[0]))
  {
    AllSucceed(s, env);
    var ids := ModIds(s.installed);
    var t := InitDeps(s, ids, env, []).0;
    var f := Successes(t.trace)[0];
    HasATurn(t, f);
    var pre, post := TurnOf(ids, f);
    LinkedIffNeeded(s, ids, pre, f, post, env);
    RepeatedIsLoaded(t);
  }

  ghost predicate DistinctIds(mods: seq<Mod>) {
    forall i, j | 0 <= i < j < |mods| :: mods[i].id != mods[j].id
  }

  /** Every id that a lookup finds has its turn. */
  lemma Installed(mods: seq<Mod>, id: Id)
    requires FindMod(mods, id).Some?
    ensures id in ModIds(mods)
  {
    var i :| 0 <= i < |mods| && mods[i] == FindMod(mods, id).value;
    assert ModIds(mods)[i] == id;
  }

  lemma HasATurn(t: Sys, f: Id)
    requires Inv(t) && f in Successes(t.trace)
    ensures f in ModIds(t.installed)
  {
    SuccessesAre(t.trace, f);
    var k :| 0 <= k < |t.trace| && t.trace[k].id == f;
    assert FindMod(t.installed, t.trace[k].id).Some?;
    Installed(t.installed, f);
  }

  lemma TurnOf(ids: seq<Id>, f: Id) returns (pre: seq<Id>, post: seq<Id>)
    requires f in ids && forall i, j | 0 <= i < j < |ids| :: ids[i] != ids[j]
    ensures Cut(ids, pre, f, post)
  {
    var i :| 0 <= i < |ids| && ids[i] == f;
    pre, post := ids[..i], ids[i + 1..];
    assert ids == pre + ([f] + post);
  }

  lemma OneThenRest(s: Sys, f: Id, post: seq<Id>, env: nat -> int)
    requires Acyclic(s.installed) && forall d | d in [f] + post :: Nested(s.installed, [], d)
    ensures Nested(s.installed, [], f) && forall d | d in post :: Nested(s.installed, [], d)
    ensures var (t, r) := Init(s, f, env, []);
            InitDeps(s, [f] + post, env, []) == if r < 0 then (t, r) else InitDeps(t, post, env, [])
  {
    assert f in [f] + post;
    assert ([f] + post)[1..] == post;
  }

  lemma {:induction false} InstallAllKeepsDistinct(s: Sys, mods: seq<Mod>)
    requires InitialSys(s) && DistinctIds(s.installed)
    ensures InitialSys(InstallAll(s, mods).0) && DistinctIds(InstallAll(s, mods).0.installed)
    decreases |mods|
  {
    if mods != [] && Install(s, mods[0]).1 >= 0 {
      InstallAllKeepsDistinct(Install(s, mods[0]).0, mods[1..]);
    }
  }

  /**
   modules_init at boot: when it reports success, the first module to succeed has been
   initialised twice exactly when some installed module needs it.
   */
  lemma ModulesInitRepeatsIff(s: Sys, mods: seq<Mod>, env: nat -> int)
    requires InitialSys(s) && s.installed == [] && Acyclic(InstallAll(s, mods).0.installed)
    ensures var (t, r) := InitEverything(s, mods, env);
            var l := Successes(t.trace);
            r >= 0 && t.installed != [] ==> l != [] && (Count(l, l[0]) == 2 <==> IsNeeded(t.installed, l[0]))
  {
    InstallAllKeepsDistinct(s, mods);
    var (u, q) := InstallAll(s, mods);
    if q >= 0 {
      forall d | d in ModIds(u.installed) ensures Nested(u.installed, [], d) { Outermost(u.installed, d); }
      if InitDeps(u, ModIds(u.installed), env, []).1 >= 0 && u.installed != [] { LoopRepeatsIff(u, env); }
    }
  }
}

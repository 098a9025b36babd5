/** The value-level meaning of newland/src/module.c: depth-first initialisation of kernel modules. */
module ModSpec {
  import opened Machine

  const ENOENT := 14
  const EEXIST := 3

  type Id = string

  /** What of `modinfo_t` matters here; NULL dependencies are an empty list. */
  datatype Mod = Mod(id: Id, deps: seq<Id>)

  /** A call of a module's init function and what it returned. */
  datatype Event = Event(id: Id, result: int)

  /**
   `installed` is the installed list from its head on. `first` and `next` are the
   loaded list: its head, and the modules whose `mod_loaded.sle_next` is not NULL.
   `trace` is the init calls made so far.
   */
  datatype Sys = Sys(installed: seq<Mod>, first: Option<Id>, next: map<Id, Id>, trace: seq<Event>)

  /** module_fromid */
  function FindMod(mods: seq<Mod>, id: Id): (r: Option<Mod>)
    ensures r.Some? ==> r.value in mods && r.value.id == id
    ensures r.None? ==> forall i | 0 <= i < |mods| :: mods[i].id != id
  {
    if mods == [] then None
    else if mods[0].id == id then Some(mods[0])
    else FindMod(mods[1..], id)
  }

  ghost function Ids(mods: seq<Mod>): set<Id> {
    set m | m in mods :: m.id
  }

  /** `d` is a dependency of the installed module `id`. */
  ghost predicate Needs(mods: seq<Mod>, id: Id, d: Id) {
    FindMod(mods, id).Some? && d in FindMod(mods, id).value.deps
  }

  /** Each entry but the first is a dependency of the one before. */
  ghost predicate Path(mods: seq<Mod>, p: seq<Id>) {
    forall k | 0 <= k < |p| - 1 :: Needs(mods, p[k], p[k + 1])
  }

  ghost predicate Acyclic(mods: seq<Mod>) {
    forall p | Path(mods, p) && |p| > 1 :: p[0] != p[|p| - 1]
  }

  /** The modules being initialised, outermost first, and the one asked for next. */
  ghost predicate Nested(mods: seq<Mod>, stack: seq<Id>, id: Id) {
    Path(mods, stack + [id])
  }

  ghost function Elements(stack: seq<Id>): set<Id> {
    set x | x in stack
  }

  /** The real measure of the recursion: the installed modules not yet on the stack. */
  ghost function Unvisited(mods: seq<Mod>, stack: seq<Id>): set<Id> {
    Ids(mods) - Elements(stack)
  }

  /** In an acyclic table a module is never asked for while it is being initialised. */
  lemma NotOnStack(mods: seq<Mod>, stack: seq<Id>, id: Id)
    requires Acyclic(mods) && Nested(mods, stack, id)
    ensures id !in stack
  {
    forall k | 0 <= k < |stack| ensures stack[k] != id {
      var p := (stack + [id])[k..];
      forall j | 0 <= j < |p| - 1 ensures Needs(mods, p[j], p[j + 1]) {
        assert p[j] == (stack + [id])[k + j] && p[j + 1] == (stack + [id])[k + j + 1];
      }
      assert Path(mods, p);
    }
  }

  lemma Descend(mods: seq<Mod>, stack: seq<Id>, id: Id)
    requires Acyclic(mods) && Nested(mods, stack, id) && FindMod(mods, id).Some?
    ensures |Unvisited(mods, stack + [id])| < |Unvisited(mods, stack)|
    ensures forall d | d in FindMod(mods, id).value.deps :: Nested(mods, stack + [id], d)
  {
    NotOnStack(mods, stack, id);
    assert id in Ids(mods) by { assert FindMod(mods, id).value in mods; }
    assert Unvisited(mods, stack + [id]) == Unvisited(mods, stack) - {id};
    forall d | d in FindMod(mods, id).value.deps ensures Nested(mods, stack + [id], d) {
      var p := stack + [id] + [d];
      forall k | 0 <= k < |p| - 1 ensures Needs(mods, p[k], p[k + 1]) {
        if k < |stack| { assert p[k] == (stack + [id])[k] && p[k + 1] == (stack + [id])[k + 1]; }
      }
    }
  }

  /** "Loaded" is tested as a link that is not NULL. */
  predicate Loaded(s: Sys, id: Id) {
    id in s.next
  }

  /** SLIST_INSERT_HEAD on the loaded list: the first module ever loaded gets a NULL link. */
  function Load(s: Sys, id: Id): Sys {
    match s.first
    case None => s.(first := Some(id), next := s.next - {id})
    case Some(f) => s.(first := Some(id), next := s.next[id := f])
  }

  /** The module's own init call, with its result; a success puts it on the loaded list. */
  function Run(s: Sys, id: Id, result: int): Sys {
    var t := s.(trace := s.trace + [Event(id, result)]);
    if result < 0 then t else Load(t, id)
  }

  /** module_init; `env` gives the result of the n-th init call, whatever module makes it. */
  ghost function Init(s: Sys, id: Id, env: nat -> int, stack: seq<Id>): (r: (Sys, int))
    requires Acyclic(s.installed) && Nested(s.installed, stack, id)
    ensures r.0.installed == s.installed
    decreases |Unvisited(s.installed, stack)|, 0, 0
  {
    match FindMod(s.installed, id)
    case None => (s, -ENOENT)
    case Some(m) =>
      if Loaded(s, id) then (s, 0) else
        Descend(s.installed, stack, id);
        var (t, r) := InitDeps(s, m.deps, env, stack + [id]);
        if r < 0 then (t, r) else
          var result := env(|t.trace|);
          (Run(t, id, result), result)
  }

  /** The loop of module_init over the dependencies, which stops at the first error. */
  ghost function InitDeps(s: Sys, deps: seq<Id>, env: nat -> int, stack: seq<Id>): (r: (Sys, int))
    requires Acyclic(s.installed) && forall d | d in deps :: Nested(s.installed, stack, d)
    ensures r.0.installed == s.installed
    decreases |Unvisited(s.installed, stack)|, 1, |deps|
  {
    if deps == [] then (s, 0) else
      var (t, r) := Init(s, deps[0], env, stack);
      if r < 0 then (t, r) else InitDeps(t, deps[1..], env, stack)
  }
}

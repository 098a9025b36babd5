/** newland/src/module.c as it runs: module records linked into an installed and a loaded list. */
module Modules {
  import opened Machine
  import opened ModSpec
  import ModOrder

  class ModInfo {
    const id: Id
    const deps: seq<Id>
    var installedNext: ModInfo?
    var loadedNext: ModInfo?

    constructor (id: Id, deps: seq<Id>)
      ensures this.id == id && this.deps == deps
    {
      this.id, this.deps := id, deps;
      installedNext, loadedNext := null, null;
    }
  }

  ghost function Value(m: ModInfo): Mod {
    Mod(m.id, m.deps)
  }

  ghost function Values(list: seq<ModInfo>): seq<Mod> {
    seq(|list|, i requires 0 <= i < |list| => Value(list[i]))
  }

  ghost function Nth(list: seq<ModInfo>, i: nat): ModInfo? {
    if i < |list| then list[i] else null
  }

  lemma SliceFrom<T>(s: seq<T>, i: nat)
    requires i < |s|
    ensures s[i..] != [] && s[i..][0] == s[i] && s[i..][1..] == s[i + 1..]
  {
  }

  ghost predicate DistinctIds(list: seq<ModInfo>) {
    forall i, j | 0 <= i < j < |list| :: list[i].id != list[j].id
  }

  /** From `first` on, each module links to the next installed one. */
  ghost predicate Chained(first: ModInfo?, list: seq<ModInfo>)
    reads list`installedNext
  {
    && first == Nth(list, 0)
    && forall i | 0 <= i < |list| :: list[i].installedNext == Nth(list, i + 1)
  }

  /** A module's loaded link is not NULL exactly when `links` has it, and leads to that module. */
  ghost predicate LinkValid(m: ModInfo, links: map<Id, Id>)
    reads m`loadedNext
  {
    && (m.loadedNext != null <==> m.id in links)
    && (m.loadedNext != null ==> m.loadedNext.id == links[m.id])
  }

  ghost predicate LinksValid(list: seq<ModInfo>, links: map<Id, Id>)
    reads list`loadedNext
  {
    forall i | 0 <= i < |list| :: LinkValid(list[i], links)
  }

  /** A new module that links to the first one makes a longer list. */
  lemma ConsList(m: ModInfo, list: seq<ModInfo>, links: map<Id, Id>)
    requires DistinctIds(list) && Chained(m.installedNext, list) && LinksValid(list, links)
    requires m.loadedNext == null && forall i | 0 <= i < |list| :: list[i].id != m.id
    ensures DistinctIds([m] + list) && Chained(m, [m] + list) && LinksValid([m] + list, links - {m.id})
    ensures Values([m] + list) == [Value(m)] + Values(list)
  {
    var more := [m] + list;
    assert forall i | 0 < i < |more| :: more[i] == list[i - 1];
    assert forall i | 0 <= i < |more| :: Nth(more, i + 1) == Nth(list, i);
    forall i | 0 < i < |more| ensures LinkValid(more[i], links - {m.id}) {
      assert LinkValid(list[i - 1], links);
    }
  }

  ghost function Members(list: seq<ModInfo>): set<ModInfo> {
    set m | m in list
  }

  class ModuleTable {
    var installed: ModInfo?
    var loaded: ModInfo?
    var trace: seq<Event>       // the init calls made, for the environment to answer
    const env: nat -> int       // what the n-th init call returns

    ghost var list: seq<ModInfo>  // the installed modules in list order
    ghost var links: map<Id, Id>  // the loaded links that are not NULL

    constructor (env: nat -> int)
      ensures Valid() && View() == Sys([], None, map[], []) && list == [] && this.env == env
    {
      installed, loaded, trace, this.env := null, null, [], env;
      list, links := [], map[];
    }

    ghost function View(): Sys
      reads this
    {
      Sys(Values(list), if loaded == null then None else Some(loaded.id), links, trace)
    }

    ghost predicate Valid()
      reads this, list
    {
      && DistinctIds(list) && Chained(installed, list) && LinksValid(list, links)
      && (loaded == null || loaded in list)
    }

    method ModuleFromId(id: Id) returns (m: ModInfo?)
      requires Valid()
      ensures m == null <==> FindMod(Values(list), id).None?
      ensures m != null ==> m in list && FindMod(Values(list), id) == Some(Value(m))
    {
      m := installed;
      ghost var i := 0;
      assert Values(list)[0..] == Values(list);
      while m != null
        invariant 0 <= i <= |list| && m == Nth(list, i)
        invariant FindMod(Values(list), id) == FindMod(Values(list)[i..], id)
        decreases |list| - i
      {
        assert Values(list)[i..][1..] == Values(list)[i + 1..] && Values(list)[i..][0] == Value(m);
        if m.id == id { return; }
        m := m.installedNext;
        i := i + 1;
      }
    }

    /** SLIST_INSERT_HEAD on the installed list. */
    method InsertInstalled(m: ModInfo)
      requires Valid() && m !in list && m.loadedNext == null
      requires FindMod(Values(list), m.id).None?
      modifies `installed, `list, `links, m`installedNext
      ensures Valid() && list == [m] + old(list) && links == old(links) - {m.id}
      ensures Values(list) == [Value(m)] + old(Values(list))
    {
      forall i | 0 <= i < |list| ensures list[i].id != m.id {
        assert Values(list)[i].id == list[i].id;
      }
      m.installedNext := installed;
      installed := m;
      ConsList(m, list, links);
      list, links := [m] + list, links - {m.id};
    }

    /** A record whose id is not installed is not on the list. */
    lemma NotListed(m: ModInfo)
      requires FindMod(Values(list), m.id).None?
      ensures m !in list
    {
      forall i | 0 <= i < |list| ensures list[i].id != m.id {
        assert Values(list)[i].id == list[i].id;
      }
    }

    method ModuleInstall(m: ModInfo) returns (r: int)
      requires Valid()
      modifies `installed, `list, `links, m
      ensures Valid() && View() == ModOrder.Install(old(View()), Value(m)).0
      ensures r == ModOrder.Install(old(View()), Value(m)).1
      ensures list == if r < 0 then old(list) else [m] + old(list)
    {
      var found := ModuleFromId(m.id);
      if found != null { return -EEXIST; }
      NotListed(m);
      m.installedNext, m.loadedNext := null, null;
      InsertInstalled(m);
      r := 0;
    }

    /** SLIST_INSERT_HEAD on the loaded list: the first module ever loaded gets a NULL link. */
    method InsertLoaded(m: ModInfo)
      requires Valid() && m in list
      modifies `loaded, `links, m`loadedNext
      ensures Valid() && View() == Load(old(View()), m.id)
    {
      SetLoadedLink(m);
      loaded := m;
    }

    method SetLoadedLink(m: ModInfo)
      requires Valid() && m in list
      modifies `links, m`loadedNext
      ensures Valid()
      ensures links == if loaded == null then old(links) - {m.id} else old(links)[m.id := loaded.id]
    {
      m.loadedNext := loaded;
      links := if loaded == null then links - {m.id} else links[m.id := loaded.id];
      forall i | 0 <= i < |list| ensures LinkValid(list[i], links) {
        assert old(LinkValid(list[i], links));
        OthersKeepLinks(list, m, i);
      }
    }

    static lemma OthersKeepLinks(list: seq<ModInfo>, m: ModInfo, i: nat)
      requires DistinctIds(list) && m in list && i < |list|
      ensures list[i] == m <==> list[i].id == m.id
    {
      var j :| 0 <= j < |list| && list[j] == m;
    }

    /** The module's own init function is called; its success puts it on the loaded list. */
    method RunInit(m: ModInfo) returns (r: int)
      requires Valid() && m in list
      modifies `loaded, `links, `trace, Members(list)`loadedNext
      ensures Valid() && r == env(|old(trace)|) && View() == Run(old(View()), m.id, r)
    {
      r := env(|trace|);
      trace := trace + [Event(m.id, r)];
      if r < 0 { return; }
      InsertLoaded(m);
    }

    lemma LinkTells(m: ModInfo)
      requires Valid() && m in list
      ensures m.loadedNext != null <==> Loaded(View(), m.id)
    {
    }

    method ModuleInit(id: Id, ghost stack: seq<Id>) returns (r: int)
      requires Valid() && Acyclic(Values(list)) && Nested(Values(list), stack, id)
      modifies `loaded, `links, `trace, Members(list)`loadedNext
      ensures Valid()
      ensures View() == Init(old(View()), id, env, stack).0
      ensures r == Init(old(View()), id, env, stack).1
      decreases |Unvisited(Values(list), stack)|, 0
    {
      var m := ModuleFromId(id);
      if m == null { return -ENOENT; }
      LinkTells(m);
      if m.loadedNext != null { return 0; }
      ghost var s := View();
      Descend(Values(list), stack, id);
      r := InitDependencies(m.deps, stack + [id]);
      if r < 0 { return; }
      r := RunInit(m);
    }

    /** The loop of module_init over the dependencies. */
    method InitDependencies(deps: seq<Id>, ghost stack: seq<Id>) returns (r: int)
      requires Valid() && Acyclic(Values(list)) && forall d | d in deps :: Nested(Values(list), stack, d)
      modifies `loaded, `links, `trace, Members(list)`loadedNext
      ensures Valid()
      ensures View() == InitDeps(old(View()), deps, env, stack).0
      ensures r == InitDeps(old(View()), deps, env, stack).1
      decreases |Unvisited(Values(list), stack)|, 1
    {
      ghost var s := View();
      r := 0;
      var i := 0;
      assert deps[0..] == deps;
      while i < |deps|
        invariant 0 <= i <= |deps| && Valid() && (i == 0 ==> r == 0) && r >= 0
        invariant InitDeps(s, deps, env, stack) == InitDeps(View(), deps[i..], env, stack)
      {
        SliceFrom(deps, i);
        r := ModuleInit(deps[i], stack);
        if r < 0 { return; }
        i := i + 1;
      }
      r := 0;
    }

    method InitOne(m: ModInfo, ghost i: nat) returns (r: int, next: ModInfo?)
      requires Valid() && Acyclic(Values(list)) && Nested(Values(list), [], m.id) && i < |list| && list[i] == m
      modifies `loaded, `links, `trace, Members(list)`loadedNext
      ensures Valid() && next == Nth(list, i + 1)
      ensures View() == Init(old(View()), m.id, env, []).0
      ensures r == Init(old(View()), m.id, env, []).1
    {
      r := ModuleInit(m.id, []);
      next := m.installedNext;
    }

    /** The second loop of modules_init, over the installed list. */
    method InitInstalled() returns (r: int)
      requires Valid() && Acyclic(Values(list))
      modifies `loaded, `links, `trace, Members(list)`loadedNext
      ensures Valid() && forall d | d in ModOrder.ModIds(Values(list)) :: Nested(Values(list), [], d)
      ensures View() == InitDeps(old(View()), ModOrder.ModIds(Values(list)), env, []).0
      ensures r == InitDeps(old(View()), ModOrder.ModIds(Values(list)), env, []).1
    {
      ghost var s, ids := View(), ModOrder.ModIds(Values(list));
      forall d | d in ids ensures Nested(Values(list), [], d) { ModOrder.Outermost(Values(list), d); }
      var m := installed;
      ghost var i := 0;
      assert ids[0..] == ids;
      while m != null
        invariant 0 <= i <= |list| && m == Nth(list, i) && Valid()
        invariant InitDeps(s, ids, env, []) == InitDeps(View(), ids[i..], env, [])
        decreases |list| - i
      {
        assert Values(list)[i] == Value(m) && ids[i] == m.id;
        SliceFrom(ids, i);
        r, m := InitOne(m, i);
        if r < 0 { return; }
        i := i + 1;
      }
      r := 0;
    }

    /** The first loop of modules_init, over the module records built into the kernel. */
    method InstallBuiltin(mods: seq<ModInfo>) returns (r: int)
      requires Valid()
      modifies `installed, `list, `links, Members(mods)
      ensures Valid()
      ensures Members(list) <= old(Members(list)) + Members(mods)
      ensures View() == ModOrder.InstallAll(old(View()), Values(mods)).0
      ensures r == ModOrder.InstallAll(old(View()), Values(mods)).1
    {
      ghost var s, vals := View(), Values(mods);
      assert vals[0..] == vals;
      var i := 0;
      while i < |mods|
        invariant 0 <= i <= |mods| && Valid()
        invariant Members(list) <= old(Members(list)) + Members(mods)
        invariant ModOrder.InstallAll(s, vals) == ModOrder.InstallAll(View(), vals[i..])
      {
        assert vals[i..][0] == Value(mods[i]) && vals[i..][1..] == vals[i + 1..];
        r := ModuleInstall(mods[i]);
        if r < 0 { return; }
        i := i + 1;
      }
      r := 0;
    }

    method ModulesInit(mods: seq<ModInfo>) returns (r: int)
      requires Valid()
      requires Acyclic(ModOrder.InstallAll(View(), Values(mods)).0.installed)
      modifies this, Members(mods), Members(list)
      ensures Valid()
      ensures View() == ModOrder.InitEverything(old(View()), Values(mods), env).0
      ensures r == ModOrder.InitEverything(old(View()), Values(mods), env).1
    {
      r := InstallBuiltin(mods);
      if r < 0 { return; }
      r := InitInstalled();
    }
  }
}

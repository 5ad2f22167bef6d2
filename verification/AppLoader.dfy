/** `AppManager.load_apps`: loading applications and, transitively, the services they depend on. */
module AppLoaders {
  import opened AppLoops

  /** A dependency is settled: loaded, provided by a context's module, or without an application class. */
  ghost predicate Settled(cat: Catalogue, apps: map<Name, AppCls>, contexts: map<Name, ContextCls>, s: Name) {
    s in apps || InContextModule(contexts, s) || s !in cat
  }

  /** Loaded classes are those of the catalogue, and each dependency of each of them is settled or still
      in the list. */
  ghost predicate SoundFor(cat: Catalogue, apps: map<Name, AppCls>, contexts: map<Name, ContextCls>, todo: seq<Name>) {
    && (forall a :: a in apps ==> a in cat && apps[a] == cat[a])
    && (forall a, s :: a in apps && s in AllServices(apps[a]) ==> Settled(cat, apps, contexts, s) || s in todo)
  }

  /** The requested names are settled or still in the list. */
  ghost predicate Asked(cat: Catalogue, apps: map<Name, AppCls>, contexts: map<Name, ContextCls>, todo: seq<Name>,
                        names: seq<Name>) {
    forall n :: n in names ==> Settled(cat, apps, contexts, n) || n in todo
  }

  lemma SettledStays(cat: Catalogue, cls: AppCls, apps: map<Name, AppCls>, apps2: map<Name, AppCls>,
                     contexts: map<Name, ContextCls>, contexts2: map<Name, ContextCls>, s: Name)
    requires apps.Keys <= apps2.Keys && ContextsMerged(cls.contexts, contexts, contexts2)
    requires Settled(cat, apps, contexts, s)
    ensures Settled(cat, apps2, contexts2, s)
  {
  }

  /** A round that loads `name` keeps the list sound. */
  lemma LoadingKeeps(cat: Catalogue, apps: map<Name, AppCls>, contexts: map<Name, ContextCls>,
                     contexts2: map<Name, ContextCls>, todo: seq<Name>, added: seq<Name>, names: seq<Name>)
    requires todo != [] && todo[0] in cat && SoundFor(cat, apps, contexts, todo)
             && Asked(cat, apps, contexts, todo, names)
    requires ContextsMerged(cat[todo[0]].contexts, contexts, contexts2)
             && AddedBy(cat[todo[0]], contexts2, todo[1..], added)
    ensures SoundFor(cat, apps[todo[0] := cat[todo[0]]], contexts2, todo[1..] + added)
    ensures Asked(cat, apps[todo[0] := cat[todo[0]]], contexts2, todo[1..] + added, names)
  {
    var name, cls := todo[0], cat[todo[0]];
    var apps2 := apps[name := cls];
    var todo2 := todo[1..] + added;
    forall s | s in AllServices(cls)
      ensures Settled(cat, apps2, contexts2, s) || s in todo2
    {
    }
    forall s | Settled(cat, apps, contexts, s) || s in todo
      ensures Settled(cat, apps2, contexts2, s) || s in todo2
    {
      if Settled(cat, apps, contexts, s) {
        SettledStays(cat, cls, apps, apps2, contexts, contexts2, s);
      } else {
        assert s == name || s in todo[1..];
      }
    }
    hide Settled, ContextsMerged, AddedBy, AllServices;
  }

  lemma NoneLeft(cat: Catalogue, apps: map<Name, AppCls>, contexts: map<Name, ContextCls>, todo: seq<Name>)
    requires SoundFor(cat, apps, contexts, [])
    ensures SoundFor(cat, apps, contexts, todo) && Asked(cat, apps, contexts, todo, todo)
  {
  }

  /** A round that skips a name keeps it too. */
  lemma SkippingKeeps(cat: Catalogue, apps: map<Name, AppCls>, contexts: map<Name, ContextCls>, todo: seq<Name>,
                      names: seq<Name>)
    requires todo != [] && SoundFor(cat, apps, contexts, todo) && Asked(cat, apps, contexts, todo, names)
    requires !Loads(cat, contexts, todo[0])
    ensures SoundFor(cat, apps, contexts, todo[1..]) && Asked(cat, apps, contexts, todo[1..], names)
  {
  }

  /** Only names that the requested ones lead to are in the list or newly loaded. */
  ghost predicate Contained(cat: Catalogue, names: seq<Name>, todo: seq<Name>, apps0: set<Name>, apps: set<Name>) {
    forall reach {:trigger Closed(cat, reach)} :: Closed(cat, reach) && (forall n :: n in names ==> n in reach) ==>
      apps <= apps0 + reach && forall n :: n in todo ==> n in reach
  }

  lemma ContainedStart(cat: Catalogue, names: seq<Name>, apps: set<Name>)
    ensures Contained(cat, names, names, apps, apps)
  {
  }

  lemma ContainedNext(cat: Catalogue, names: seq<Name>, s: LoopState, t: LoopState, apps0: set<Name>, apps: set<Name>)
    requires Contained(cat, names, s.todo, apps0, apps) && Round(cat, s, t)
    ensures Contained(cat, names, t.todo, apps0,
                      if Loads(cat, s.contexts, s.todo[0]) then apps + {s.todo[0]} else apps)
  {
  }

  lemma ContainedHead(cat: Catalogue, names: seq<Name>, todo: seq<Name>, apps0: set<Name>, apps: set<Name>)
    requires Contained(cat, names, todo, apps0, apps) && todo != []
    ensures Contained(cat, names, todo, apps0, apps + {todo[0]})
  {
  }

  lemma ContainedMeans(cat: Catalogue, names: seq<Name>, todo: seq<Name>, apps0: set<Name>, apps: set<Name>)
    requires Contained(cat, names, todo, apps0, apps)
    ensures forall reach {:trigger Closed(cat, reach)} ::
              Closed(cat, reach) && (forall n :: n in names ==> n in reach) ==> apps <= apps0 + reach
  {
  }

  /** A run extended by a round is a run, and without a trap ahead its end is not trapped. */
  lemma RunGrows(cat: Catalogue, start: LoopState, run: seq<LoopState>, s: LoopState, t: LoopState)
    requires RunFrom(cat, start, run) && run[|run| - 1] == s && Round(cat, s, t) && !TrapAhead(cat, start)
    ensures RunFrom(cat, start, run + [t]) && !Trapped(cat, t)
  {
    var longer := run + [t];
    forall i | 0 < i < |longer|
      ensures RoundTo(cat, longer, i)
    {
      assert i < |run| ==> RoundTo(cat, run, i);
    }
    assert RunFrom(cat, start, longer) && longer[|longer| - 1] == t;
  }

  lemma FirstRun(cat: Catalogue, s: LoopState)
    ensures RunFrom(cat, s, [s]) && (!TrapAhead(cat, s) ==> !Trapped(cat, s))
  {
  }

  /** The round that passes over the head of the list. */
  lemma SkippingRound(cat: Catalogue, s: LoopState)
    requires s.todo != [] && !Loads(cat, s.contexts, s.todo[0])
    ensures Round(cat, s, LoopState(s.todo[1..], s.contexts))
  {
  }

  /** The bindings after the applications `loaded` were loaded: the earlier ones stand, each context of
      each of them is bound to the very class it names, and nothing else is bound. */
  ghost predicate BoundBy(cat: Catalogue, loaded: set<Name>, before: map<Name, ContextCls>,
                          after: map<Name, ContextCls>) {
    && (forall k :: k in before ==> Bound(after, k, before[k]))
    && (forall a, p :: a in loaded && a in cat && p in cat[a].contexts ==> Bound(after, p.0, p.1))
    && NothingElse(cat, loaded, before, after)
  }

  ghost predicate NothingElse(cat: Catalogue, loaded: set<Name>, before: map<Name, ContextCls>,
                              after: map<Name, ContextCls>) {
    forall k :: k in after && k !in before ==> exists a :: a in loaded && a in cat && (k, after[k]) in cat[a].contexts
  }

  lemma NothingBoundYet(cat: Catalogue, contexts: map<Name, ContextCls>)
    ensures BoundBy(cat, {}, contexts, contexts)
  {
  }

  lemma BoundNext(cat: Catalogue, loaded: set<Name>, before: map<Name, ContextCls>, m: map<Name, ContextCls>,
                  a: Name, after: map<Name, ContextCls>)
    requires BoundBy(cat, loaded, before, m) && a in cat && ContextsMerged(cat[a].contexts, m, after)
    ensures BoundBy(cat, loaded + {a}, before, after)
  {
    forall k | k in after && k !in before
      ensures exists b :: b in loaded + {a} && b in cat && (k, after[k]) in cat[b].contexts
    {
      if k in m {
        assert Bound(after, k, m[k]);
        var b :| b in loaded && b in cat && (k, m[k]) in cat[b].contexts;
        assert b in loaded + {a};
      } else {
        assert a in loaded + {a} && (k, after[k]) in cat[a].contexts;
      }
    }
    forall k | k in before
      ensures Bound(after, k, before[k])
    {
      assert Bound(m, k, before[k]);
    }
    forall b, p | b in loaded && b in cat && p in cat[b].contexts
      ensures Bound(after, p.0, p.1)
    {
      assert Bound(m, p.0, p.1);
    }
  }

  /** Where a clash stops it, some contexts of the last application may have been entered. */
  lemma PartlyBound(cat: Catalogue, loaded: set<Name>, before: map<Name, ContextCls>, m: map<Name, ContextCls>,
                    a: Name, after: map<Name, ContextCls>)
    requires BoundBy(cat, loaded, before, m) && a in cat && PartlyMerged(cat[a].contexts, m, after)
    ensures forall k :: k in before ==> Bound(after, k, before[k])
    ensures NothingElse(cat, loaded + {a}, before, after)
  {
    forall k | k in before
      ensures Bound(after, k, before[k])
    {
      assert Bound(m, k, before[k]);
    }
    forall k | k in after && k !in before
      ensures exists b :: b in loaded + {a} && b in cat && (k, after[k]) in cat[b].contexts
    {
      if k in m {
        assert Bound(after, k, m[k]);
        var b :| b in loaded && b in cat && (k, m[k]) in cat[b].contexts;
        assert b in loaded + {a};
      } else {
        assert a in loaded + {a} && (k, after[k]) in cat[a].contexts;
      }
    }
  }

  lemma BindingsAfter(cat: Catalogue, loaded: set<Name>, before: map<Name, ContextCls>, after: map<Name, ContextCls>)
    requires BoundBy(cat, loaded, before, after) && loaded <= cat.Keys
    ensures forall k :: k in before ==> k in after && after[k] == before[k]
    ensures forall a, p :: a in loaded && p in cat[a].contexts ==> p.0 in after && after[p.0] == p.1
    ensures forall k :: k in after && k !in before ==> exists a :: a in loaded && (k, after[k]) in cat[a].contexts
  {
    forall k | k in before
      ensures k in after && after[k] == before[k]
    {
      assert Bound(after, k, before[k]);
    }
    forall a, p | a in loaded && p in cat[a].contexts
      ensures p.0 in after && after[p.0] == p.1
    {
      assert Bound(after, p.0, p.1);
    }
  }

  lemma NewBindings(cat: Catalogue, loaded: set<Name>, before: map<Name, ContextCls>, after: map<Name, ContextCls>)
    requires NothingElse(cat, loaded, before, after) && loaded <= cat.Keys
    ensures forall k :: k in after && k !in before ==> exists a :: a in loaded && (k, after[k]) in cat[a].contexts
  {
  }

  lemma RequestedLoaded(cat: Catalogue, apps: map<Name, AppCls>, contexts: map<Name, ContextCls>, names: seq<Name>)
    requires SoundFor(cat, apps, contexts, []) && Asked(cat, apps, contexts, [], names)
    ensures forall n :: n in names && Loads(cat, contexts, n) ==> n in apps && apps[n] == cat[n]
  {
  }

  /** Old bindings stay, and new ones are of `cs`. */
  ghost predicate PartlyMerged(cs: seq<(Name, ContextCls)>, before: map<Name, ContextCls>,
                               after: map<Name, ContextCls>) {
    && (forall k :: k in before ==> Bound(after, k, before[k]))
    && (forall k :: k in after ==> k in before || (k, after[k]) in cs)
  }

  lemma MergedInPart(cs: seq<(Name, ContextCls)>, i: nat, before: map<Name, ContextCls>, after: map<Name, ContextCls>)
    requires i <= |cs| && ContextsMerged(cs[..i], before, after)
    ensures PartlyMerged(cs, before, after)
  {
    assert forall p :: p in cs[..i] ==> p in cs;
  }

  /** The round that loads the head of the list. */
  lemma LoadingRound(cat: Catalogue, s: LoopState, contexts: map<Name, ContextCls>, added: seq<Name>)
    requires s.todo != [] && Loads(cat, s.contexts, s.todo[0])
    requires ContextsMerged(cat[s.todo[0]].contexts, s.contexts, contexts)
    requires AddedBy(cat[s.todo[0]], contexts, s.todo[1..], added)
    ensures Round(cat, s, LoopState(s.todo[1..] + added, contexts))
  {
  }

  // ----- what holds before every round -----

  /** What a call of `load_apps` starts from. */
  datatype Call = Call(names: seq<Name>, apps: map<Name, AppCls>, contexts: map<Name, ContextCls>)

  /** Before every round of the loop, after the rounds of `run`. */
  ghost predicate Progress(cat: Catalogue, c: Call, apps: map<Name, AppCls>, s: LoopState, loaded: set<Name>,
                           run: seq<LoopState>) {
    && SoundFor(cat, apps, s.contexts, s.todo) && Asked(cat, apps, s.contexts, s.todo, c.names)
    && apps.Keys == c.apps.Keys + loaded && loaded <= cat.Keys
    && BoundBy(cat, loaded, c.contexts, s.contexts)
    && Contained(cat, c.names, s.todo, c.apps.Keys, apps.Keys)
    && run != [] && RunFrom(cat, LoopState(c.names, c.contexts), run) && run[|run| - 1] == s
    && !TrapAhead(cat, LoopState(c.names, c.contexts))
  }

  lemma ProgressStarts(cat: Catalogue, c: Call)
    requires SoundFor(cat, c.apps, c.contexts, []) && !TrapAhead(cat, LoopState(c.names, c.contexts))
    ensures var s := LoopState(c.names, c.contexts);
            Progress(cat, c, c.apps, s, {}, [s]) && !Trapped(cat, s)
  {
    FirstRun(cat, LoopState(c.names, c.contexts));
    NoneLeft(cat, c.apps, c.contexts, c.names);
    ContainedStart(cat, c.names, c.apps.Keys);
    NothingBoundYet(cat, c.contexts);
    hide SoundFor, Asked, BoundBy, Contained, RunFrom, TrapAhead, Trapped;
  }

  lemma ProgressSkips(cat: Catalogue, c: Call, apps: map<Name, AppCls>, s: LoopState, loaded: set<Name>,
                      run: seq<LoopState>)
    requires Progress(cat, c, apps, s, loaded, run) && s.todo != [] && !Loads(cat, s.contexts, s.todo[0])
    ensures var t := LoopState(s.todo[1..], s.contexts);
            Progress(cat, c, apps, t, loaded, run + [t]) && !Trapped(cat, t) && Round(cat, s, t)
  {
    var t := LoopState(s.todo[1..], s.contexts);
    hide SoundFor, Asked, BoundBy, Contained, Closed, RunFrom, TrapAhead, Trapped, Round;
    SkippingRound(cat, s);
    SkippingKeeps(cat, apps, s.contexts, s.todo, c.names);
    RunGrows(cat, LoopState(c.names, c.contexts), run, s, t);
    ContainedNext(cat, c.names, s, t, c.apps.Keys, apps.Keys);
  }

  lemma ProgressLoads(cat: Catalogue, c: Call, apps: map<Name, AppCls>, s: LoopState, loaded: set<Name>,
                      run: seq<LoopState>, contexts: map<Name, ContextCls>, added: seq<Name>)
    requires Progress(cat, c, apps, s, loaded, run) && s.todo != [] && Loads(cat, s.contexts, s.todo[0])
    requires ContextsMerged(cat[s.todo[0]].contexts, s.contexts, contexts)
    requires AddedBy(cat[s.todo[0]], contexts, s.todo[1..], added)
    ensures var name, t := s.todo[0], LoopState(s.todo[1..] + added, contexts);
            && Progress(cat, c, apps[name := cat[name]], t, loaded + {name}, run + [t])
            && !Trapped(cat, t) && Round(cat, s, t)
  {
    var name, t := s.todo[0], LoopState(s.todo[1..] + added, contexts);
    hide SoundFor, Asked, BoundBy, Contained, Closed, RunFrom, TrapAhead, Trapped, Round, ContextsMerged, AddedBy;
    LoadingRound(cat, s, contexts, added);
    LoadingKeeps(cat, apps, s.contexts, contexts, s.todo, added, c.names);
    BoundNext(cat, loaded, c.contexts, s.contexts, name, contexts);
    RunGrows(cat, LoopState(c.names, c.contexts), run, s, t);
    ContainedNext(cat, c.names, s, t, c.apps.Keys, apps.Keys);
    assert apps[name := cat[name]].Keys == apps.Keys + {name};
  }

  /** What has been loaded and bound after `s`, whether or not the list is empty. */
  lemma ProgressMeans(cat: Catalogue, c: Call, apps: map<Name, AppCls>, s: LoopState, loaded: set<Name>,
                      run: seq<LoopState>)
    requires Progress(cat, c, apps, s, loaded, run)
    ensures apps.Keys == c.apps.Keys + loaded && loaded <= cat.Keys && SoundFor(cat, apps, s.contexts, s.todo)
    ensures forall a :: a in apps ==> a in cat && apps[a] == cat[a]
    ensures forall reach {:trigger Closed(cat, reach)} ::
              Closed(cat, reach) && (forall n :: n in c.names ==> n in reach) ==> apps.Keys <= c.apps.Keys + reach
    ensures forall k :: k in c.contexts ==> k in s.contexts && s.contexts[k] == c.contexts[k]
    ensures forall a, p :: a in loaded && p in cat[a].contexts ==> p.0 in s.contexts && s.contexts[p.0] == p.1
    ensures forall k :: k in s.contexts && k !in c.contexts ==>
              exists a :: a in loaded && (k, s.contexts[k]) in cat[a].contexts
    ensures Asked(cat, apps, s.contexts, s.todo, c.names)
    ensures s.todo == [] ==> forall n :: n in c.names && Loads(cat, s.contexts, n) ==> n in apps && apps[n] == cat[n]
  {
    BindingsAfter(cat, loaded, c.contexts, s.contexts);
    ContainedMeans(cat, c.names, s.todo, c.apps.Keys, apps.Keys);
    if s.todo == [] {
      RequestedLoaded(cat, apps, s.contexts, c.names);
    }
    hide Asked, BoundBy, Contained, Closed, RunFrom, TrapAhead, Loads, AllServices, Settled;
  }

  /** The same where a clash ends the round that loads the head of the list. */
  lemma ProgressFails(cat: Catalogue, c: Call, apps: map<Name, AppCls>, s: LoopState, loaded: set<Name>,
                      run: seq<LoopState>, contexts: map<Name, ContextCls>)
    requires Progress(cat, c, apps, s, loaded, run) && s.todo != [] && s.todo[0] in cat
    requires PartlyMerged(cat[s.todo[0]].contexts, s.contexts, contexts)
    ensures var name := s.todo[0]; var apps', loaded' := apps[name := cat[name]], loaded + {name};
            && apps'.Keys == c.apps.Keys + loaded' && loaded' <= cat.Keys
            && (forall a :: a in apps' ==> a in cat && apps'[a] == cat[a])
            && (forall reach {:trigger Closed(cat, reach)} ::
                  Closed(cat, reach) && (forall n :: n in c.names ==> n in reach) ==> apps'.Keys <= c.apps.Keys + reach)
            && (forall k :: k in c.contexts ==> k in contexts && contexts[k] == c.contexts[k])
            && (forall k :: k in contexts && k !in c.contexts ==>
                  exists a :: a in loaded' && (k, contexts[k]) in cat[a].contexts)
  {
    var name := s.todo[0];
    PartlyBound(cat, loaded, c.contexts, s.contexts, name, contexts);
    NewBindings(cat, loaded + {name}, c.contexts, contexts);
    ContainedHead(cat, c.names, s.todo, c.apps.Keys, apps.Keys);
    ContainedMeans(cat, c.names, s.todo, c.apps.Keys, apps.Keys + {name});
    hide Asked, BoundBy, NothingElse, Contained, Closed, RunFrom, TrapAhead, PartlyMerged, AllServices, Settled;
    assert apps[name := cat[name]].Keys == apps.Keys + {name};
    assert forall k :: k in c.contexts ==> Bound(contexts, k, c.contexts[k]);
  }

  class AppManager {
    const catalogue: Catalogue
    var apps: map<Name, AppCls>
    var contexts: map<Name, ContextCls>

    /** Loaded classes are those of the catalogue, and each dependency of each of them is settled or
        still in the list. */
    ghost predicate Sound(todo: seq<Name>)
      reads this
    {
      SoundFor(catalogue, apps, contexts, todo)
    }

    constructor (catalogue: Catalogue)
      ensures this.catalogue == catalogue && apps == map[] && contexts == map[]
    {
      this.catalogue, apps, contexts := catalogue, map[], map[];
    }

    /** The contexts of `cls`: entered unless a key is bound to another class, where the assertion fails.
        `services` are those of the contexts that are applications. */
    method EnterContexts(cls: AppCls) returns (services: seq<Name>, consistent: bool)
      modifies this`contexts
      ensures consistent ==>
                ContextsMerged(cls.contexts, old(contexts), contexts) && services == ContextServices(cls.contexts)
      ensures !consistent ==> Clashes(cls, contexts) && PartlyMerged(cls.contexts, old(contexts), contexts)
    {
      hide ContextsMerged, Clashes, ContextServices, PartlyMerged;
      var cs := cls.contexts;
      services := [];
      MergeNone(contexts);
      assert cs[0..] == cs && [] + ContextServices(cs) == ContextServices(cs);
      for i := 0 to |cs|
        invariant services + ContextServices(cs[i..]) == ContextServices(cs)
        invariant ContextsMerged(cs[..i], old(contexts), contexts)
      {
        var (key, contextCls) := cs[i];
        ghost var before := contexts;
        if key !in contexts {
          contexts := contexts[key := contextCls];
        }
        if contexts[key] != contextCls {
          ClashAt(cls, i, contexts);
          assert contexts == before;
          MergedInPart(cs, i, old(contexts), contexts);
          return services, false;
        }
        MergeOne(cs[..i], key, contextCls, old(contexts), before, contexts);
        assert cs[..i + 1] == cs[..i] + [cs[i]];
        ContextServicesFrom(cs, i, services);
        if contextCls.isApp {
          services := services + contextCls.services;
        }
        assert services + [] == services;
      }
      assert cs[..|cs|] == cs && cs[|cs|..] == [];
      assert ContextServices([]) == [] by { NoContextServices(); }
      assert services + [] == services;
      consistent := true;
    }

    /** The rest of the round: what of the services of `cls` joins the list `rest`. */
    method ToAdd(cls: AppCls, contextServices: seq<Name>, rest: seq<Name>) returns (added: seq<Name>)
      requires contextServices == ContextServices(cls.contexts)
      ensures AddedBy(cls, contexts, rest, added)
    {
      var services := contextServices;
      for i := 0 to |cls.services|
        invariant forall s :: s in services <==>
          s in contextServices || (s in cls.services[..i] && !InContextModule(contexts, s))
      {
        var s := cls.services[i];
        if s !in (set k | k in contexts :: contexts[k].modul) {
          services := services + [s];
        }
      }
      var left := set s | s in services;
      added := [];
      while left != {}
        invariant NoRepeats(added)
        invariant forall s :: s in added ==> s !in left && s in services && s !in rest
        invariant forall s :: s in services && s !in rest ==> s in added || s in left
        invariant forall s :: s in left ==> s in services
        decreases |left|
      {
        var s :| s in left;
        left := left - {s};
        if s !in rest {
          added := added + [s];
        }
      }
    }

    /** `load_apps`. It ends whenever no order of the dependencies leads into a trap. On success every
        dependency of every loaded application is settled, and so is every requested name, and the contexts
        of each application `loaded` by this call are bound to the classes it names. Nothing that the
        requested names do not lead to is loaded, and no earlier binding changes. It fails only where two
        applications bind one context key to different classes. */
    method LoadApps(appLists: seq<Name>) returns (ok: bool, ghost loaded: set<Name>)
      requires Sound([]) && !TrapAhead(catalogue, LoopState(appLists, contexts))
      modifies this
      ensures ok ==> Sound([]) && Asked(catalogue, apps, contexts, [], appLists)
      ensures apps.Keys == old(apps).Keys + loaded && loaded <= catalogue.Keys
      ensures forall a :: a in apps ==> a in catalogue && apps[a] == catalogue[a]
      ensures forall reach {:trigger Closed(catalogue, reach)} ::
                Closed(catalogue, reach) && (forall n :: n in appLists ==> n in reach) ==>
                  apps.Keys <= old(apps).Keys + reach
      ensures forall k :: k in old(contexts) ==> k in contexts && contexts[k] == old(contexts)[k]
      ensures ok ==>
                forall a, p :: a in loaded && p in catalogue[a].contexts ==> p.0 in contexts && contexts[p.0] == p.1
      ensures forall k :: k in contexts && k !in old(contexts) ==>
                exists a :: a in loaded && (k, contexts[k]) in catalogue[a].contexts
      ensures ok ==> forall n :: n in appLists && Loads(catalogue, contexts, n) ==> n in apps && apps[n] == catalogue[n]
      ensures !ok ==> exists a :: a in apps && Clashes(apps[a], contexts)
    {
      hide Settled, ContextsMerged, AddedBy, Clashes, PartlyMerged, SoundFor, Asked, Closed, Round, TrapAhead, Trapped;
      hide Fueled, Progress;
      var todo := appLists;
      loaded := {};
      ghost var c, run := Call(appLists, apps, contexts), [LoopState(todo, contexts)];
      ProgressStarts(catalogue, c);
      ghost var fuel := Refuel(catalogue, LoopState(todo, contexts));
      while todo != []
        invariant Progress(catalogue, c, apps, LoopState(todo, contexts), loaded, run)
        invariant Fueled(catalogue, LoopState(todo, contexts), fuel)
        decreases fuel.keys, fuel.Approaching?, if fuel.Approaching? then fuel.far else fuel.left, fuel.left
      {
        var name, rest := todo[0], todo[1..];
        ghost var before, appsBefore := LoopState(todo, contexts), apps;
        if name in (set k | k in contexts :: contexts[k].modul) || name !in catalogue {
          ProgressSkips(catalogue, c, apps, before, loaded, run);
          todo := rest;
        } else {
          var cls := catalogue[name];
          apps := apps[name := cls];
          var services, consistent := EnterContexts(cls);
          if !consistent {
            ProgressFails(catalogue, c, appsBefore, before, loaded, run, contexts);
            loaded := loaded + {name};
            assert apps[name] == cls;
            ok := false;
            return;
          }
          var added := ToAdd(cls, services, rest);
          ProgressLoads(catalogue, c, appsBefore, before, loaded, run, contexts, added);
          loaded := loaded + {name};
          todo := rest + added;
        }
        ghost var after := LoopState(todo, contexts);
        run := run + [after];
        fuel := Burn(catalogue, before, after, fuel);
      }
      ProgressMeans(catalogue, c, apps, LoopState(todo, contexts), loaded, run);
      ok := true;
    }
  }
}

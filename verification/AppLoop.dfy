/** The loop of `AppManager.load_apps` over the list of applications to load: when it ends. */
module AppLoops {
  type Name = string

  /** A context class: the module that defines it, and the services it depends on if it is itself an
      application. */
  datatype ContextCls = ContextCls(modul: Name, isApp: bool, services: seq<Name>)

  /** An application class: its `_CONTEXTS` and what `get_dependent_services` returns for it. */
  datatype AppCls = AppCls(contexts: seq<(Name, ContextCls)>, services: seq<Name>)

  /** What the modules on disk define; a name that is absent has no application class. */
  type Catalogue = map<Name, AppCls>

  /** The services of a class and of those of its contexts that are applications. */
  function AllServices(c: AppCls): seq<Name> {
    ContextServices(c.contexts) + c.services
  }

  function ContextServices(cs: seq<(Name, ContextCls)>): seq<Name> {
    if cs == [] then []
    else (if cs[0].1.isApp then cs[0].1.services else []) + ContextServices(cs[1..])
  }

  /** A dependency of an application: one of its own, or of a context of it that is itself an application. */
  lemma {:induction false} ContextServicesMean(cs: seq<(Name, ContextCls)>, s: Name)
    ensures s in ContextServices(cs) <==> exists p :: p in cs && p.1.isApp && s in p.1.services
  {
    if cs != [] {
      ContextServicesMean(cs[1..], s);
      assert forall p :: p in cs <==> p == cs[0] || p in cs[1..];
    }
  }

  lemma AllServicesMean(c: AppCls, s: Name)
    ensures s in AllServices(c) <==>
            s in c.services || exists p :: p in c.contexts && p.1.isApp && s in p.1.services
  {
    ContextServicesMean(c.contexts, s);
  }

  lemma NoContextServices()
    ensures ContextServices([]) == []
  {
  }

  lemma ContextServicesFrom(cs: seq<(Name, ContextCls)>, i: nat, before: seq<Name>)
    requires i < |cs|
    ensures before + ContextServices(cs[i..])
            == (before + if cs[i].1.isApp then cs[i].1.services else []) + ContextServices(cs[i + 1..])
  {
  }

  // ----- the termination measure -----

  /** The dependency relation is acyclic: `rank` falls along every dependency. */
  ghost predicate Acyclic(cat: Catalogue, rank: map<Name, nat>) {
    forall a, s :: a in cat && s in AllServices(cat[a]) && s in cat ==> a in rank && s in rank && rank[s] < rank[a]
  }

  function RankOf(rank: map<Name, nat>, n: Name): nat {
    if n in rank then rank[n] else 0
  }

  /** The size of the dependency tree below `n`. */
  ghost function Weight(cat: Catalogue, rank: map<Name, nat>, n: Name): nat
    requires Acyclic(cat, rank)
    decreases RankOf(rank, n), 1, 0
  {
    if n in cat then 1 + SumBelow(cat, rank, n, AllServices(cat[n])) else 1
  }

  ghost function SumBelow(cat: Catalogue, rank: map<Name, nat>, n: Name, ss: seq<Name>): nat
    requires Acyclic(cat, rank) && n in cat && forall s :: s in ss ==> s in AllServices(cat[n])
    decreases RankOf(rank, n), 0, |ss|
  {
    if ss == [] then 0
    else (if ss[0] in cat then Weight(cat, rank, ss[0]) else 1) + SumBelow(cat, rank, n, ss[1..])
  }

  ghost function Sum(cat: Catalogue, rank: map<Name, nat>, ss: seq<Name>): nat
    requires Acyclic(cat, rank)
  {
    if ss == [] then 0 else Weight(cat, rank, ss[0]) + Sum(cat, rank, ss[1..])
  }

  lemma {:induction false} SumBelowIsSum(cat: Catalogue, rank: map<Name, nat>, n: Name, ss: seq<Name>)
    requires Acyclic(cat, rank) && n in cat && forall s :: s in ss ==> s in AllServices(cat[n])
    ensures SumBelow(cat, rank, n, ss) == Sum(cat, rank, ss)
  {
    if ss != [] {
      SumBelowIsSum(cat, rank, n, ss[1..]);
    }
  }

  lemma {:induction false} SumAppend(cat: Catalogue, rank: map<Name, nat>, xs: seq<Name>, ys: seq<Name>)
    requires Acyclic(cat, rank)
    ensures Sum(cat, rank, xs + ys) == Sum(cat, rank, xs) + Sum(cat, rank, ys)
  {
    if xs == [] {
      assert xs + ys == ys;
    } else {
      assert (xs + ys)[1..] == xs[1..] + ys;
      SumAppend(cat, rank, xs[1..], ys);
    }
  }

  ghost predicate NoRepeats(xs: seq<Name>) {
    forall i, j :: 0 <= i < j < |xs| ==> xs[i] != xs[j]
  }

  /** A list without repetitions weighs no more than any list that contains it. */
  lemma {:induction false} SumOfSublist(cat: Catalogue, rank: map<Name, nat>, xs: seq<Name>, ys: seq<Name>)
    requires Acyclic(cat, rank) && NoRepeats(xs) && forall x :: x in xs ==> x in ys
    ensures Sum(cat, rank, xs) <= Sum(cat, rank, ys)
    decreases |xs|
  {
    if xs != [] {
      assert xs[0] in ys;
      var i :| 0 <= i < |ys| && ys[i] == xs[0];
      var rest := ys[..i] + ys[i + 1..];
      assert ys == ys[..i] + ([ys[i]] + ys[i + 1..]);
      SumAppend(cat, rank, ys[..i], [ys[i]] + ys[i + 1..]);
      SumAppend(cat, rank, [ys[i]], ys[i + 1..]);
      SumAppend(cat, rank, ys[..i], ys[i + 1..]);
      forall x | x in xs[1..]
        ensures x in rest
      {
        assert x in xs && x in ys;
        var j :| 0 <= j < |ys| && ys[j] == x;
        assert j != i;
        assert j < i ==> rest[j] == x;
        assert j > i ==> rest[j - 1] == x;
      }
      SumOfSublist(cat, rank, xs[1..], rest);
    }
  }

  /** Unfolding one loaded application: its tree is one more than the trees of what it may add. */
  lemma WeightUnfolds(cat: Catalogue, rank: map<Name, nat>, n: Name, added: seq<Name>)
    requires Acyclic(cat, rank) && n in cat && NoRepeats(added)
    requires forall s :: s in added ==> s in AllServices(cat[n])
    ensures Sum(cat, rank, added) < Weight(cat, rank, n)
  {
    SumBelowIsSum(cat, rank, n, AllServices(cat[n]));
    SumOfSublist(cat, rank, added, AllServices(cat[n]));
  }

  /** Taking the head off a list takes its tree off the measure. */
  lemma SumOfTail(cat: Catalogue, rank: map<Name, nat>, todo: seq<Name>)
    requires Acyclic(cat, rank) && todo != []
    ensures Sum(cat, rank, todo) == Weight(cat, rank, todo[0]) + Sum(cat, rank, todo[1..])
    ensures Weight(cat, rank, todo[0]) > 0
  {
  }

  /** The part of the catalogue on these names. */
  ghost function Within(cat: Catalogue, names: set<Name>): Catalogue {
    map a | a in cat && a in names :: cat[a]
  }

  // ----- the loop -----

  /** `contexts_cls` holds the modules of these contexts. */
  ghost predicate InContextModule(contexts: map<Name, ContextCls>, n: Name) {
    exists k :: k in contexts && contexts[k].modul == n
  }

  /** The loop loads `n`; it passes over other names. */
  ghost predicate Loads(cat: Catalogue, contexts: map<Name, ContextCls>, n: Name) {
    n in cat && !InContextModule(contexts, n)
  }

  predicate Bound(m: map<Name, ContextCls>, key: Name, c: ContextCls) {
    key in m && m[key] == c
  }

  /** The contexts after those in `cs` are entered by `setdefault` without a clash: old bindings stay,
      each pair of `cs` is bound, and nothing else is. */
  ghost predicate ContextsMerged(cs: seq<(Name, ContextCls)>, before: map<Name, ContextCls>,
                                 after: map<Name, ContextCls>) {
    && (forall k :: k in before ==> Bound(after, k, before[k]))
    && (forall p :: p in cs ==> Bound(after, p.0, p.1))
    && (forall k :: k in after ==> k in before || (k, after[k]) in cs)
  }

  /** Some context of `c` has a key that is bound to another class. */
  ghost predicate Clashes(c: AppCls, contexts: map<Name, ContextCls>) {
    exists p :: p in c.contexts && p.0 in contexts && contexts[p.0] != p.1
  }

  /** What loading `c` appends to the list `rest`, each name once and in any order. */
  ghost predicate AddedBy(c: AppCls, contexts: map<Name, ContextCls>, rest: seq<Name>, added: seq<Name>) {
    && NoRepeats(added)
    && forall s :: s in added <==>
        && s !in rest
        && (s in ContextServices(c.contexts) || (s in c.services && !InContextModule(contexts, s)))
  }

  datatype LoopState = LoopState(todo: seq<Name>, contexts: map<Name, ContextCls>)

  /** One round of the loop that does not raise. */
  ghost predicate Round(cat: Catalogue, s: LoopState, t: LoopState) {
    && s.todo != []
    && if !Loads(cat, s.contexts, s.todo[0]) then t == LoopState(s.todo[1..], s.contexts)
       else
         && ContextsMerged(cat[s.todo[0]].contexts, s.contexts, t.contexts)
         && exists added ::
             AddedBy(cat[s.todo[0]], t.contexts, s.todo[1..], added) && t.todo == s.todo[1..] + added
  }

  /** Successive states of the loop, as far as no round has raised. */
  ghost predicate IsRun(cat: Catalogue, run: seq<LoopState>) {
    run != [] && forall i :: 0 < i < |run| ==> RoundTo(cat, run, i)
  }

  ghost predicate RoundTo(cat: Catalogue, run: seq<LoopState>, i: nat)
    requires 0 < i < |run|
  {
    Round(cat, run[i - 1], run[i])
  }

  ghost predicate RunFrom(cat: Catalogue, s: LoopState, run: seq<LoopState>) {
    IsRun(cat, run) && run[0] == s
  }

  /** The loop goes on for ever. */
  ghost predicate NeverEnds(cat: Catalogue, s: LoopState, run: nat -> LoopState) {
    run(0) == s && forall i: nat :: RoundFrom(cat, run, i)
  }

  ghost predicate RoundFrom(cat: Catalogue, run: nat -> LoopState, i: nat) {
    Round(cat, run(i), run(i + 1))
  }

  // ----- traps -----

  /** Entering the contexts of these applications, in any order, raises nothing. */
  ghost predicate NoClash(cat: Catalogue, contexts: map<Name, ContextCls>, reach: set<Name>) {
    forall a, p :: a in reach && Loads(cat, contexts, a) && p in cat[a].contexts ==>
      && (p.0 in contexts ==> contexts[p.0] == p.1)
      && forall b, q :: b in reach && Loads(cat, contexts, b) && q in cat[b].contexts && q.0 == p.0 ==> q.1 == p.1
  }

  /** `reach` holds the names in the list that will be loaded, and with each the dependencies of it that will. */
  ghost predicate Reaches(cat: Catalogue, s: LoopState, reach: set<Name>) {
    && (forall n :: n in s.todo && Loads(cat, s.contexts, n) ==> n in reach)
    && (forall a, n ::
          a in reach && Loads(cat, s.contexts, a) && n in AllServices(cat[a]) && Loads(cat, s.contexts, n) ==>
            n in reach)
  }

  /** `n` is an application that needs one of `names`. */
  ghost predicate NeedsOneOf(cat: Catalogue, names: set<Name>, n: Name) {
    n in cat && exists s :: s in names && s in AllServices(cat[n])
  }

  /** Every name in `ring` needs another name of it. */
  ghost predicate Ring(cat: Catalogue, ring: set<Name>) {
    forall n {:trigger NeedsOneOf(cat, ring, n)} :: n in ring ==> NeedsOneOf(cat, ring, n)
  }

  /** `n` is loaded whenever it comes up, and needs another of the same kind. */
  ghost predicate Caught(cat: Catalogue, contexts: map<Name, ContextCls>, reach: set<Name>, ring: set<Name>, n: Name) {
    && n in reach && Loads(cat, contexts, n) && NeedsOneOf(cat, ring, n)
    && forall a, p :: a in reach && Loads(cat, contexts, a) && p in cat[a].contexts ==> p.1.modul != n
  }

  ghost predicate TrappedIn(cat: Catalogue, s: LoopState, reach: set<Name>, ring: set<Name>) {
    && Reaches(cat, s, reach) && NoClash(cat, s.contexts, reach)
    && (forall n {:trigger Caught(cat, s.contexts, reach, ring, n)} ::
          n in ring ==> Caught(cat, s.contexts, reach, ring, n))
    && exists n :: n in s.todo && n in ring
  }

  /** The list holds one of a set of applications that each need another of that set, none of them in a
      module that provides a context now or later, and nothing that will be loaded raises. */
  ghost predicate Trapped(cat: Catalogue, s: LoopState) {
    exists reach, ring :: TrappedIn(cat, s, reach, ring)
  }

  /** Some order of the dependencies leads into a trap. */
  ghost predicate TrapAhead(cat: Catalogue, s: LoopState) {
    exists run :: RunFrom(cat, s, run) && Trapped(cat, run[|run| - 1])
  }

  // ----- in a trap the loop never ends -----

  lemma MergeOne(cs: seq<(Name, ContextCls)>, key: Name, c: ContextCls, old_: map<Name, ContextCls>,
                 before: map<Name, ContextCls>, after: map<Name, ContextCls>)
    requires ContextsMerged(cs, old_, before)
    requires after == if key in before then before else before[key := c]
    requires Bound(after, key, c)
    ensures ContextsMerged(cs + [(key, c)], old_, after)
  {
  }

  lemma MergeNone(m: map<Name, ContextCls>)
    ensures ContextsMerged([], m, m)
  {
  }

  lemma ClashAt(c: AppCls, i: nat, contexts: map<Name, ContextCls>)
    requires i < |c.contexts| && c.contexts[i].0 in contexts && contexts[c.contexts[i].0] != c.contexts[i].1
    ensures Clashes(c, contexts)
  {
  }

  lemma {:induction false} MergeExists(cs: seq<(Name, ContextCls)>, before: map<Name, ContextCls>)
    returns (after: map<Name, ContextCls>)
    requires forall p :: p in cs && p.0 in before ==> before[p.0] == p.1
    requires forall p, q :: p in cs && q in cs && p.0 == q.0 ==> p.1 == q.1
    ensures ContextsMerged(cs, before, after)
    decreases |cs|
  {
    if cs == [] {
      after := before;
    } else {
      var n := |cs| - 1;
      assert cs == cs[..n] + [cs[n]];
      after := MergeExists(cs[..n], before);
      var (key, c) := cs[n];
      assert key in after ==> key in before || (key, after[key]) in cs[..n];
      MergeOne(cs[..n], key, c, before, after, if key in after then after else after[key := c]);
      after := if key in after then after else after[key := c];
    }
  }

  lemma {:induction false} ListOf(names: set<Name>) returns (list: seq<Name>)
    ensures NoRepeats(list) && forall n :: n in list <==> n in names
    decreases names
  {
    if names == {} {
      list := [];
    } else {
      var n :| n in names;
      var rest := ListOf(names - {n});
      list := [n] + rest;
    }
  }

  lemma AddedExists(c: AppCls, contexts: map<Name, ContextCls>, rest: seq<Name>) returns (added: seq<Name>)
    ensures AddedBy(c, contexts, rest, added)
  {
    added := ListOf((set s | s in ContextServices(c.contexts) && s !in rest)
                    + set s | s in c.services && s !in rest && !InContextModule(contexts, s));
  }

  /** A trapped state has a next one. */
  lemma RoundExists(cat: Catalogue, s: LoopState, reach: set<Name>, ring: set<Name>) returns (t: LoopState)
    requires TrappedIn(cat, s, reach, ring)
    ensures Round(cat, s, t)
  {
    var name, rest := s.todo[0], s.todo[1..];
    if !Loads(cat, s.contexts, name) {
      t := LoopState(rest, s.contexts);
    } else {
      var contexts := MergeExists(cat[name].contexts, s.contexts);
      var added := AddedExists(cat[name], contexts, rest);
      t := LoopState(rest + added, contexts);
    }
  }

  lemma ContextsKept(cat: Catalogue, s: LoopState, t: LoopState)
    requires Round(cat, s, t)
    ensures forall k :: k in s.contexts ==> Bound(t.contexts, k, s.contexts[k])
  {
  }

  /** A dependency of the loaded application that will be loaded is in the list. */
  lemma DependencyListed(cat: Catalogue, s: LoopState, t: LoopState, n: Name)
    requires Round(cat, s, t) && Loads(cat, s.contexts, s.todo[0])
    requires n in AllServices(cat[s.todo[0]]) && Loads(cat, t.contexts, n)
    ensures n in t.todo
  {
  }

  lemma ListedBefore(cat: Catalogue, s: LoopState, t: LoopState, n: Name)
    requires Round(cat, s, t) && n in t.todo
    ensures n in s.todo[1..] || (Loads(cat, s.contexts, s.todo[0]) && n in AllServices(cat[s.todo[0]]))
  {
  }

  lemma StillReaches(cat: Catalogue, s: LoopState, t: LoopState, reach: set<Name>)
    requires Round(cat, s, t) && Reaches(cat, s, reach)
    ensures Reaches(cat, t, reach)
  {
  }

  lemma StillNoClash(cat: Catalogue, s: LoopState, t: LoopState, reach: set<Name>)
    requires Round(cat, s, t) && Reaches(cat, s, reach) && NoClash(cat, s.contexts, reach)
    ensures NoClash(cat, t.contexts, reach)
  {
  }

  lemma StillCaught(cat: Catalogue, s: LoopState, t: LoopState, reach: set<Name>, ring: set<Name>, n: Name)
    requires Round(cat, s, t) && Reaches(cat, s, reach) && Caught(cat, s.contexts, reach, ring, n)
    ensures Caught(cat, t.contexts, reach, ring, n)
  {
  }

  /** No round leads out of a trap. Being loaded already does not stop a name from being loaded again. */
  lemma TrapStep(cat: Catalogue, s: LoopState, t: LoopState, reach: set<Name>, ring: set<Name>)
    requires TrappedIn(cat, s, reach, ring) && Round(cat, s, t)
    ensures TrappedIn(cat, t, reach, ring)
  {
    hide Round, Reaches, NoClash, Caught, Loads, AllServices;
    StillReaches(cat, s, t, reach);
    StillNoClash(cat, s, t, reach);
    forall n | n in ring
      ensures Caught(cat, t.contexts, reach, ring, n)
    {
      assert Caught(cat, s.contexts, reach, ring, n);
      StillCaught(cat, s, t, reach, ring, n);
    }
    RingStaysListed(cat, s, t, reach, ring);
  }

  lemma RingStaysListed(cat: Catalogue, s: LoopState, t: LoopState, reach: set<Name>, ring: set<Name>)
    requires TrappedIn(cat, s, reach, ring) && Round(cat, s, t)
    requires forall n {:trigger Caught(cat, t.contexts, reach, ring, n)} ::
               n in ring ==> Caught(cat, t.contexts, reach, ring, n)
    ensures exists n :: n in t.todo && n in ring
  {
    var n :| n in s.todo && n in ring;
    var name := s.todo[0];
    if name in ring {
      assert Caught(cat, s.contexts, reach, ring, name);
      var d :| d in ring && d in AllServices(cat[name]);
      assert Caught(cat, t.contexts, reach, ring, d);
      DependencyListed(cat, s, t, d);
    } else {
      assert n in s.todo[1..];
      TailStays(cat, s, t, n);
    }
  }

  lemma TailStays(cat: Catalogue, s: LoopState, t: LoopState, n: Name)
    requires Round(cat, s, t) && n in s.todo[1..]
    ensures n in t.todo
  {
  }

  ghost function AfterTrapped(cat: Catalogue, s: LoopState, rounds: nat): (t: LoopState)
    requires Trapped(cat, s)
    ensures Trapped(cat, t)
  {
    if rounds == 0 then s
    else NextTrapped(cat, AfterTrapped(cat, s, rounds - 1))
  }

  ghost function NextTrapped(cat: Catalogue, s: LoopState): (t: LoopState)
    requires Trapped(cat, s)
    ensures Round(cat, s, t) && Trapped(cat, t)
  {
    TrappedGoesOn(cat, s);
    var t :| Round(cat, s, t) && Trapped(cat, t);
    t
  }

  lemma TrappedGoesOn(cat: Catalogue, s: LoopState)
    requires Trapped(cat, s)
    ensures exists t :: Round(cat, s, t) && Trapped(cat, t)
  {
    var reach, ring :| TrappedIn(cat, s, reach, ring);
    var t := RoundExists(cat, s, reach, ring);
    TrapStep(cat, s, t, reach, ring);
  }

  ghost function Continued(cat: Catalogue, lead: seq<LoopState>, i: nat): LoopState
    requires IsRun(cat, lead) && Trapped(cat, lead[|lead| - 1])
  {
    if i < |lead| then lead[i] else AfterTrapped(cat, lead[|lead| - 1], i - |lead| + 1)
  }

  lemma ContinuedRound(cat: Catalogue, lead: seq<LoopState>, i: nat)
    requires IsRun(cat, lead) && Trapped(cat, lead[|lead| - 1])
    ensures Round(cat, Continued(cat, lead, i), Continued(cat, lead, i + 1))
  {
    hide Round, Trapped;
    var last := lead[|lead| - 1];
    if i + 1 < |lead| {
      assert RoundTo(cat, lead, i + 1);
    } else {
      var n := i + 1 - |lead|;
      assert AfterTrapped(cat, last, 0) == last;
      assert AfterTrapped(cat, last, n + 1) == NextTrapped(cat, AfterTrapped(cat, last, n));
    }
  }

  lemma ContinuedNeverEnds(cat: Catalogue, lead: seq<LoopState>, run: nat -> LoopState)
    requires IsRun(cat, lead) && Trapped(cat, lead[|lead| - 1])
    requires forall i: nat {:trigger run(i)} :: run(i) == Continued(cat, lead, i)
    ensures NeverEnds(cat, lead[0], run)
  {
    hide Round, Trapped, IsRun;
    forall i: nat
      ensures RoundFrom(cat, run, i)
    {
      ContinuedRound(cat, lead, i);
    }
    ContinuedStart(cat, lead);
    assert run(0) == Continued(cat, lead, 0);
  }

  lemma ContinuedStart(cat: Catalogue, lead: seq<LoopState>)
    requires IsRun(cat, lead) && Trapped(cat, lead[|lead| - 1])
    ensures lead != [] && Continued(cat, lead, 0) == lead[0]
  {
  }

  /** Out of a trap the loop never gets. */
  lemma TrapNeverEnds(cat: Catalogue, s: LoopState)
    requires TrapAhead(cat, s)
    ensures exists run :: NeverEnds(cat, s, run)
  {
    var lead :| RunFrom(cat, s, lead) && Trapped(cat, lead[|lead| - 1]);
    hide Round, Trapped, Continued, NeverEnds;
    var run := (i: nat) => Continued(cat, lead, i);
    ContinuedNeverEnds(cat, lead, run);
  }

  // ----- without a trap ahead it ends -----

  /** The application `n` will be loaded and has a context that is not bound yet, or needs one that does
      `far` steps down. */
  ghost predicate Near(cat: Catalogue, contexts: map<Name, ContextCls>, far: nat, n: Name) {
    && Loads(cat, contexts, n)
    && if far == 0 then exists p :: p in cat[n].contexts && !Bound(contexts, p.0, p.1)
       else exists s :: s in AllServices(cat[n]) && Near(cat, contexts, far - 1, s)
  }

  /** The context keys of the catalogue that are not bound yet. */
  ghost function Unentered(cat: Catalogue, contexts: map<Name, ContextCls>): set<Name> {
    set a, p | a in cat && p in cat[a].contexts && p.0 !in contexts :: p.0
  }

  /** What the loop uses up: context keys to be bound; and while it binds none, either the distance to an
      application with an unbound context, and the place in the list from where it is counted, or the
      summed size of the dependency trees. */
  datatype Fuel = Approaching(keys: nat, far: nat, left: nat) | Spending(keys: nat, left: nat)

  ghost predicate Less(f: Fuel, g: Fuel) {
    || f.keys < g.keys
    || (f.keys == g.keys && f.Approaching? && g.Approaching? && (f.far < g.far || (f.far == g.far && f.left < g.left)))
    || (f.keys == g.keys && f.Spending? && g.Spending? && f.left < g.left)
  }

  /** Dependency is acyclic on `part`, which holds the names in the list that will be loaded and what
      these need. */
  ghost predicate Spends(cat: Catalogue, s: LoopState, part: set<Name>, rank: map<Name, nat>, left: nat) {
    && Reaches(cat, s, part) && Acyclic(Within(cat, part), rank)
    && left == Sum(Within(cat, part), rank, s.todo)
  }

  ghost predicate Fueled(cat: Catalogue, s: LoopState, f: Fuel) {
    && f.keys == |Unentered(cat, s.contexts)|
    && match f
       case Approaching(_, far, left) => left < |s.todo| && Near(cat, s.contexts, far, s.todo[left])
       case Spending(_, left) => exists part, rank :: Spends(cat, s, part, rank, left)
  }

  lemma UnenteredShrinks(cat: Catalogue, s: LoopState, t: LoopState)
    requires Round(cat, s, t)
    ensures Unentered(cat, t.contexts) <= Unentered(cat, s.contexts)
    ensures t.contexts == s.contexts || |Unentered(cat, t.contexts)| < |Unentered(cat, s.contexts)|
  {
    ContextsKept(cat, s, t);
    var before, after := Unentered(cat, s.contexts), Unentered(cat, t.contexts);
    if k :| k in t.contexts && k !in s.contexts {
      var p := (k, t.contexts[k]);
      assert p in cat[s.todo[0]].contexts;
      assert k in before && k !in after;
      Smaller(after, before, k);
    } else {
      assert t.contexts.Keys == s.contexts.Keys;
    }
  }

  lemma Smaller(xs: set<Name>, ys: set<Name>, y: Name)
    requires xs <= ys && y in ys && y !in xs
    ensures |xs| < |ys|
  {
    assert xs <= ys - {y};
    SubsetSize(xs, ys - {y});
  }

  lemma SubsetSize(xs: set<Name>, ys: set<Name>)
    requires xs <= ys
    ensures |xs| <= |ys|
  {
    assert ys == xs + (ys - xs);
  }

  /** Towards an application with an unbound context the loop gets nearer. */
  lemma Approach(cat: Catalogue, s: LoopState, t: LoopState, f: Fuel) returns (g: Fuel)
    requires Fueled(cat, s, f) && f.Approaching? && Round(cat, s, t) && t.contexts == s.contexts
    ensures Fueled(cat, t, g) && Less(g, f)
  {
    var n := s.todo[f.left];
    if f.left > 0 {
      g := Approaching(f.keys, f.far, f.left - 1);
      assert t.todo[f.left - 1] == n;
    } else if f.far > 0 {
      var d :| d in AllServices(cat[n]) && Near(cat, s.contexts, f.far - 1, d);
      DependencyListed(cat, s, t, d);
      var i :| 0 <= i < |t.todo| && t.todo[i] == d;
      g := Approaching(f.keys, f.far - 1, i);
    } else {
      assert false;
    }
  }

  /** Otherwise the dependency trees get used up. */
  lemma Spend(cat: Catalogue, s: LoopState, t: LoopState, f: Fuel) returns (g: Fuel)
    requires Fueled(cat, s, f) && f.Spending? && Round(cat, s, t) && t.contexts == s.contexts
    ensures Fueled(cat, t, g) && Less(g, f)
  {
    var part, rank :| Spends(cat, s, part, rank, f.left);
    g := Spending(f.keys, Sum(Within(cat, part), rank, t.todo));
    StillReaches(cat, s, t, part);
    assert Spends(cat, t, part, rank, g.left);
    SumFalls(cat, s, t, part, rank);
  }

  lemma SumFalls(cat: Catalogue, s: LoopState, t: LoopState, part: set<Name>, rank: map<Name, nat>)
    requires Round(cat, s, t) && Acyclic(Within(cat, part), rank) && Reaches(cat, s, part)
    ensures Sum(Within(cat, part), rank, t.todo) < Sum(Within(cat, part), rank, s.todo)
  {
    var some, name, rest := Within(cat, part), s.todo[0], s.todo[1..];
    SumOfTail(some, rank, s.todo);
    if Loads(cat, s.contexts, name) {
      var added :| AddedBy(cat[name], t.contexts, rest, added) && t.todo == rest + added;
      assert name in some;
      WeightUnfolds(some, rank, name, added);
      SumAppend(some, rank, rest, added);
    }
  }

  /** Take off what needs nothing of the rest, one name after the other, in the order of `rank`; what stays
      is a ring. */
  lemma {:induction false} Peel(cat: Catalogue, names: set<Name>, part0: set<Name>, rank0: map<Name, nat>)
    returns (part: set<Name>, rank: map<Name, nat>)
    requires names <= cat.Keys && part0 <= names
    requires Acyclic(Within(cat, part0), rank0) && forall n :: n in rank0 ==> rank0[n] < |part0|
    requires forall n :: n in part0 ==> n in rank0 && !NeedsOneOf(cat, names - part0, n)
    ensures part <= names && Acyclic(Within(cat, part), rank) && Ring(cat, names - part)
    ensures forall n :: n in part ==> !NeedsOneOf(cat, names - part, n)
    decreases names - part0
  {
    if n :| n in names - part0 && !NeedsOneOf(cat, names - part0, n) {
      var part1, rank1 := part0 + {n}, rank0[n := |part0|];
      assert names - part1 < names - part0;
      PeelOne(cat, names, part0, rank0, n);
      part, rank := Peel(cat, names, part1, rank1);
    } else {
      part, rank := part0, rank0;
    }
  }

  lemma NotNeeded(cat: Catalogue, names: set<Name>, n: Name, s: Name)
    requires n in cat && !NeedsOneOf(cat, names, n) && s in AllServices(cat[n])
    ensures s !in names
  {
  }

  lemma PeelOne(cat: Catalogue, names: set<Name>, part: set<Name>, rank: map<Name, nat>, n: Name)
    requires names <= cat.Keys && part <= names && n in names - part && !NeedsOneOf(cat, names - part, n)
    requires Acyclic(Within(cat, part), rank) && forall m :: m in rank ==> rank[m] < |part|
    requires forall m :: m in part ==> m in rank && !NeedsOneOf(cat, names - part, m)
    ensures Acyclic(Within(cat, part + {n}), rank[n := |part|])
    ensures forall m :: m in part + {n} ==> !NeedsOneOf(cat, names - (part + {n}), m)
  {
    var rank1 := rank[n := |part|];
    forall a, s | a in part + {n} && s in AllServices(cat[a]) && s in part + {n}
      ensures s in rank1 && a in rank1 && rank1[s] < rank1[a]
    {
      NotNeeded(cat, names - part, a, s);
      if a != n {
        assert a in Within(cat, part) && s in Within(cat, part);
      }
    }
  }

  /** Every state that is not trapped has fuel. */
  lemma Refuel(cat: Catalogue, s: LoopState) returns (f: Fuel)
    requires !Trapped(cat, s)
    ensures Fueled(cat, s, f)
  {
    var keys := |Unentered(cat, s.contexts)|;
    if i, far: nat :| 0 <= i < |s.todo| && Near(cat, s.contexts, far, s.todo[i]) {
      f := Approaching(keys, far, i);
    } else {
      var calm := set n | n in cat && IsCalm(cat, s.contexts, n);
      CalmCloses(cat, s, calm);
      var part, rank := Peel(cat, calm, {}, map[]);
      if exists n :: n in s.todo && n in calm - part {
        BoundRingTraps(cat, s, calm, calm - part);
        assert false;
      }
      assert Reaches(cat, s, part);
      f := Spending(keys, Sum(Within(cat, part), rank, s.todo));
      assert Spends(cat, s, part, rank, f.left);
    }
  }

  /** `n` will be loaded, and below it all contexts are bound. */
  ghost predicate IsCalm(cat: Catalogue, contexts: map<Name, ContextCls>, n: Name) {
    Loads(cat, contexts, n) && forall far: nat :: !Near(cat, contexts, far, n)
  }

  lemma CalmCloses(cat: Catalogue, s: LoopState, calm: set<Name>)
    requires calm == set n | n in cat && IsCalm(cat, s.contexts, n)
    requires forall i, far: nat :: 0 <= i < |s.todo| ==> !Near(cat, s.contexts, far, s.todo[i])
    ensures Reaches(cat, s, calm)
    ensures forall n, p :: n in calm && p in cat[n].contexts ==> Bound(s.contexts, p.0, p.1)
  {
    forall n, p | n in calm && p in cat[n].contexts
      ensures Bound(s.contexts, p.0, p.1)
    {
      assert !Near(cat, s.contexts, 0, n);
    }
    forall a, n | a in calm && n in AllServices(cat[a]) && Loads(cat, s.contexts, n)
      ensures n in calm
    {
      forall far: nat
        ensures !Near(cat, s.contexts, far, n)
      {
        assert !Near(cat, s.contexts, far + 1, a);
      }
    }
  }

  /** A ring among applications whose contexts are all bound is a trap. */
  lemma BoundRingTraps(cat: Catalogue, s: LoopState, names: set<Name>, ring: set<Name>)
    requires names <= cat.Keys && Reaches(cat, s, names)
    requires forall n, p :: n in names && p in cat[n].contexts ==> Bound(s.contexts, p.0, p.1)
    requires Ring(cat, ring) && forall n :: n in ring ==> n in names && Loads(cat, s.contexts, n)
    requires exists n :: n in s.todo && n in ring
    ensures Trapped(cat, s)
  {
    hide Caught, Reaches, NoClash, Loads, NeedsOneOf, Bound, AllServices;
    BoundNeverClash(cat, s.contexts, names);
    forall n | n in ring
      ensures Caught(cat, s.contexts, names, ring, n)
    {
      CalmIsCaught(cat, s.contexts, names, ring, n);
    }
    assert TrappedIn(cat, s, names, ring);
  }

  lemma BoundNeverClash(cat: Catalogue, contexts: map<Name, ContextCls>, names: set<Name>)
    requires names <= cat.Keys && forall n, p :: n in names && p in cat[n].contexts ==> Bound(contexts, p.0, p.1)
    ensures NoClash(cat, contexts, names)
  {
  }

  lemma CalmIsCaught(cat: Catalogue, contexts: map<Name, ContextCls>, calm: set<Name>, ring: set<Name>, n: Name)
    requires calm <= cat.Keys && forall a, p :: a in calm && p in cat[a].contexts ==> Bound(contexts, p.0, p.1)
    requires n in ring && ring <= calm && Loads(cat, contexts, n) && NeedsOneOf(cat, ring, n)
    ensures Caught(cat, contexts, calm, ring, n)
  {
  }

  /** Every round that does not lead into a trap uses fuel. */
  lemma Burn(cat: Catalogue, s: LoopState, t: LoopState, f: Fuel) returns (g: Fuel)
    requires Fueled(cat, s, f) && Round(cat, s, t) && !Trapped(cat, t)
    ensures Fueled(cat, t, g) && Less(g, f)
  {
    UnenteredShrinks(cat, s, t);
    if t.contexts != s.contexts {
      g := Refuel(cat, t);
    } else if f.Approaching? {
      g := Approach(cat, s, t, f);
    } else {
      g := Spend(cat, s, t, f);
    }
  }

  // ----- so it ends exactly then -----

  /** Without traps fuel runs out. */
  lemma {:induction false} RunsOut(cat: Catalogue, run: nat -> LoopState, i: nat, f: Fuel)
    requires forall j: nat :: RoundFrom(cat, run, j)
    requires forall j: nat {:trigger run(j)} :: !Trapped(cat, run(j))
    requires Fueled(cat, run(i), f)
    ensures false
    decreases f.keys, f.Approaching?, if f.Approaching? then f.far else f.left, f.left
  {
    hide Fueled, Trapped, Round;
    assert RoundFrom(cat, run, i);
    var g := Burn(cat, run(i), run(i + 1), f);
    RunsOut(cat, run, i + 1, g);
  }

  lemma FirstRounds(cat: Catalogue, s: LoopState, run: nat -> LoopState, i: nat)
    requires NeverEnds(cat, s, run)
    ensures Trapped(cat, run(i)) ==> TrapAhead(cat, s)
  {
    hide Round, Trapped;
    var lead := seq(i + 1, j requires 0 <= j => run(j));
    forall j | 0 < j < |lead|
      ensures RoundTo(cat, lead, j)
    {
      assert RoundFrom(cat, run, j - 1);
    }
    assert RunFrom(cat, s, lead) && lead[|lead| - 1] == run(i);
  }

  lemma EndlessMeetsTrap(cat: Catalogue, s: LoopState, run: nat -> LoopState)
    requires NeverEnds(cat, s, run)
    ensures TrapAhead(cat, s)
  {
    hide TrapAhead, Fueled, Trapped, Round;
    if !TrapAhead(cat, s) {
      forall i: nat
        ensures !Trapped(cat, run(i))
      {
        FirstRounds(cat, s, run, i);
      }
      var f := Refuel(cat, run(0));
      RunsOut(cat, run, 0, f);
    }
  }

  /** `load_apps` can go on for ever if and only if some order of the dependencies leads into a trap. */
  lemma NeverEndsIffTrapAhead(cat: Catalogue, s: LoopState)
    ensures (exists run :: NeverEnds(cat, s, run)) <==> TrapAhead(cat, s)
  {
    hide TrapAhead, NeverEnds;
    if TrapAhead(cat, s) {
      TrapNeverEnds(cat, s);
    }
    forall run | NeverEnds(cat, s, run)
      ensures TrapAhead(cat, s)
    {
      EndlessMeetsTrap(cat, s, run);
    }
  }

  // ----- what the catalogue alone tells -----

  /** `reach` holds what its members need. */
  ghost predicate Closed(cat: Catalogue, reach: set<Name>) {
    forall a, s :: a in reach && a in cat && s in AllServices(cat[a]) ==> s in reach
  }

  /** Dependency is acyclic on `reach`, which holds the names and all that is needed for them. */
  ghost predicate AcyclicOn(cat: Catalogue, names: seq<Name>, rank: map<Name, nat>, reach: set<Name>) {
    && Closed(cat, reach) && Acyclic(Within(cat, reach), rank)
    && forall n :: n in names ==> n in reach
  }

  ghost predicate RingOver(cat: Catalogue, names: seq<Name>, ring: set<Name>) {
    Ring(cat, ring) && exists n :: n in names && n in ring
  }

  lemma {:induction false} RankBreaksRing(cat: Catalogue, rank: map<Name, nat>, reach: set<Name>, ring: set<Name>,
                                          n: Name)
    requires Closed(cat, reach) && Acyclic(Within(cat, reach), rank)
    requires Ring(cat, ring) && n in ring && n in reach
    ensures false
    decreases RankOf(rank, n)
  {
    assert NeedsOneOf(cat, ring, n);
    var s :| s in ring && s in AllServices(cat[n]);
    assert NeedsOneOf(cat, ring, s);
    assert n in Within(cat, reach) && s in Within(cat, reach);
    RankBreaksRing(cat, rank, reach, ring, s);
  }

  /** What is needed for names of `part`, and the names and dependencies that have no application. */
  ghost function Completed(cat: Catalogue, names: seq<Name>, part: set<Name>): set<Name>
    requires part <= cat.Keys
  {
    part + (set n | n in names && n !in cat) + set a, n | a in part && n in AllServices(cat[a]) && n !in cat :: n
  }

  lemma CompletedIsClosed(cat: Catalogue, names: seq<Name>, part: set<Name>)
    requires part <= cat.Keys && forall n :: n in part ==> !NeedsOneOf(cat, cat.Keys - part, n)
    ensures Closed(cat, Completed(cat, names, part)) && Within(cat, Completed(cat, names, part)) == Within(cat, part)
  {
    var reach := Completed(cat, names, part);
    forall a, s | a in reach && a in cat && s in AllServices(cat[a])
      ensures s in reach
    {
      if s in cat {
        NotNeeded(cat, cat.Keys - part, a, s);
      }
    }
  }

  lemma NoRingIsAcyclic(cat: Catalogue, names: seq<Name>)
    requires !exists ring :: RingOver(cat, names, ring)
    ensures exists rank, reach :: AcyclicOn(cat, names, rank, reach)
  {
    var part, rank := Peel(cat, cat.Keys, {}, map[]);
    assert !RingOver(cat, names, cat.Keys - part);
    CompletedIsClosed(cat, names, part);
    hide Acyclic, Closed, Ring, Within, AllServices, NeedsOneOf;
    assert AcyclicOn(cat, names, rank, Completed(cat, names, part));
  }

  /** Dependency is acyclic on what the names need if and only if no ring holds one of them. */
  lemma AcyclicIffNoRing(cat: Catalogue, names: seq<Name>)
    ensures (exists rank, reach :: AcyclicOn(cat, names, rank, reach)) <==> !(exists ring :: RingOver(cat, names, ring))
  {
    if rank, reach, ring :| AcyclicOn(cat, names, rank, reach) && RingOver(cat, names, ring) {
      var n :| n in names && n in ring;
      RankBreaksRing(cat, rank, reach, ring, n);
    }
    if !exists ring :: RingOver(cat, names, ring) {
      NoRingIsAcyclic(cat, names);
    }
  }

  lemma TrapIsRing(cat: Catalogue, s: LoopState)
    requires Trapped(cat, s)
    ensures exists ring :: RingOver(cat, s.todo, ring)
  {
    var reach, ring :| TrappedIn(cat, s, reach, ring);
    forall n | n in ring
      ensures NeedsOneOf(cat, ring, n)
    {
      assert Caught(cat, s.contexts, reach, ring, n);
    }
    assert RingOver(cat, s.todo, ring);
  }

  lemma {:induction false} RunStaysIn(cat: Catalogue, run: seq<LoopState>, reach: set<Name>, i: nat)
    requires IsRun(cat, run) && i < |run| && Closed(cat, reach) && forall n :: n in run[0].todo ==> n in reach
    ensures forall n :: n in run[i].todo ==> n in reach
  {
    if i > 0 {
      RunStaysIn(cat, run, reach, i - 1);
      assert RoundTo(cat, run, i);
      forall n | n in run[i].todo
        ensures n in reach
      {
        ListedBefore(cat, run[i - 1], run[i], n);
      }
    }
  }

  /** Acyclic dependency keeps clear of traps in every catalogue. */
  lemma AcyclicMeetsNoTrap(cat: Catalogue, s: LoopState, rank: map<Name, nat>, reach: set<Name>)
    requires AcyclicOn(cat, s.todo, rank, reach)
    ensures !TrapAhead(cat, s)
  {
    if run: seq<LoopState> :| RunFrom(cat, s, run) && Trapped(cat, run[|run| - 1]) {
      var last := run[|run| - 1];
      RunStaysIn(cat, run, reach, |run| - 1);
      TrapIsRing(cat, last);
      var ring :| RingOver(cat, last.todo, ring);
      var n :| n in last.todo && n in ring;
      RankBreaksRing(cat, rank, reach, ring, n);
    }
  }

  /** Modules of context classes define no application, and no two applications disagree on a context. */
  ghost predicate Plain(cat: Catalogue, contexts: map<Name, ContextCls>) {
    && (forall k :: k in contexts ==> contexts[k].modul !in cat)
    && (forall a, p :: a in cat && p in cat[a].contexts ==> p.1.modul !in cat)
    && NoClash(cat, contexts, cat.Keys)
  }

  /** In plain catalogues the loop can go on for ever if and only if dependency is not acyclic. */
  lemma PlainEndsIffAcyclic(cat: Catalogue, s: LoopState)
    requires Plain(cat, s.contexts)
    ensures TrapAhead(cat, s) <==> !(exists rank, reach :: AcyclicOn(cat, s.todo, rank, reach))
  {
    AcyclicIffNoRing(cat, s.todo);
    if rank, reach :| AcyclicOn(cat, s.todo, rank, reach) {
      AcyclicMeetsNoTrap(cat, s, rank, reach);
    }
    if ring :| RingOver(cat, s.todo, ring) {
      PlainRingTraps(cat, s, ring);
      assert RunFrom(cat, s, [s]);
    }
  }

  lemma PlainRingTraps(cat: Catalogue, s: LoopState, ring: set<Name>)
    requires Plain(cat, s.contexts) && RingOver(cat, s.todo, ring)
    ensures Trapped(cat, s)
  {
    hide NoClash, Caught, Reaches, NeedsOneOf, Loads;
    AllReached(cat, s);
    forall n | n in ring
      ensures Caught(cat, s.contexts, cat.Keys, ring, n)
    {
      PlainIsCaught(cat, s.contexts, ring, n);
    }
    assert TrappedIn(cat, s, cat.Keys, ring);
  }

  lemma AllReached(cat: Catalogue, s: LoopState)
    ensures Reaches(cat, s, cat.Keys)
  {
  }

  lemma PlainIsCaught(cat: Catalogue, contexts: map<Name, ContextCls>, ring: set<Name>, n: Name)
    requires Plain(cat, contexts) && NeedsOneOf(cat, ring, n)
    ensures Caught(cat, contexts, cat.Keys, ring, n)
  {
  }

  /** Two applications that need each other: loading one loads the other for ever. */
  lemma MutualNeedNeverEnds(a: Name, b: Name)
    ensures TrapAhead(map[a := AppCls([], [b]), b := AppCls([], [a])], LoopState([a], map[]))
  {
    var cat := map[a := AppCls([], [b]), b := AppCls([], [a])];
    var s := LoopState([a], map[]);
    forall n | n in {a, b}
      ensures NeedsOneOf(cat, {a, b}, n)
    {
      var d := cat[n].services[0];
      assert d in {a, b} && d in AllServices(cat[n]);
    }
    assert a in s.todo && a in {a, b} && RingOver(cat, s.todo, {a, b});
    PlainRingTraps(cat, s, {a, b});
    assert RunFrom(cat, s, [s]);
  }

  /** But a cycle through a context module need not: where a context class of the first application lives in
      the module of the second, that one is never loaded. */
  lemma CycleThroughContextEnds(a: Name, b: Name, key: Name)
    requires a != b
    ensures var cat := map[a := AppCls([(key, ContextCls(b, false, []))], [b]), b := AppCls([], [a])];
            RingOver(cat, [a], {a, b}) && !TrapAhead(cat, LoopState([a], map[]))
  {
    var cat := map[a := AppCls([(key, ContextCls(b, false, []))], [b]), b := AppCls([], [a])];
    ServicesOf(a, b, key);
    assert a in [a] && a in {a, b};
    assert b in {a, b} && NeedsOneOf(cat, {a, b}, a) && NeedsOneOf(cat, {a, b}, b);
    forall run | RunFrom(cat, LoopState([a], map[]), run)
      ensures !Trapped(cat, run[|run| - 1])
    {
      if |run| == 1 {
        StartNotTrapped(a, b, key);
      } else {
        assert RoundTo(cat, run, 1);
        FirstLoadsOnly(a, b, key, run[1]);
        EmptyListEnds(cat, run);
      }
    }
  }

  lemma StartNotTrapped(a: Name, b: Name, key: Name)
    requires a != b
    ensures var cat := map[a := AppCls([(key, ContextCls(b, false, []))], [b]), b := AppCls([], [a])];
            !Trapped(cat, LoopState([a], map[]))
  {
    var c := ContextCls(b, false, []);
    var cat := map[a := AppCls([(key, c)], [b]), b := AppCls([], [a])];
    ServicesOf(a, b, key);
    forall reach, ring
      ensures !TrappedIn(cat, LoopState([a], map[]), reach, ring)
    {
      assert (key, c) in cat[a].contexts;
      assert Caught(cat, map[], reach, ring, a) ==> !Caught(cat, map[], reach, ring, b);
      assert NeedsOneOf(cat, ring, a) ==> b in ring;
    }
  }

  lemma EmptyListEnds(cat: Catalogue, run: seq<LoopState>)
    requires IsRun(cat, run) && |run| > 1 && run[1].todo == []
    ensures |run| == 2 && !Trapped(cat, run[1])
  {
    if |run| > 2 {
      ListBeforeRound(cat, run, 1);
    }
  }

  lemma ListBeforeRound(cat: Catalogue, run: seq<LoopState>, i: nat)
    requires IsRun(cat, run) && i + 1 < |run|
    ensures run[i].todo != []
  {
    assert RoundTo(cat, run, i + 1);
  }

  lemma ServicesOf(a: Name, b: Name, key: Name)
    ensures AllServices(AppCls([(key, ContextCls(b, false, []))], [b])) == [b]
    ensures AllServices(AppCls([], [a])) == [a]
  {
    NoContextServices();
    assert [(key, ContextCls(b, false, []))][1..] == [];
    assert ContextServices([(key, ContextCls(b, false, []))]) == [] + ContextServices([]);
  }

  lemma HasOne(xs: seq<Name>)
    requires xs != []
    ensures exists x :: x in xs
  {
    assert xs[0] in xs;
  }

  lemma FirstLoadsOnly(a: Name, b: Name, key: Name, t: LoopState)
    requires a != b
    requires var cat := map[a := AppCls([(key, ContextCls(b, false, []))], [b]), b := AppCls([], [a])];
             Round(cat, LoopState([a], map[]), t)
    ensures t.todo == []
  {
    var c := AppCls([(key, ContextCls(b, false, []))], [b]);
    assert (key, ContextCls(b, false, [])) in c.contexts;
    assert Bound(t.contexts, key, ContextCls(b, false, []));
    var added :| AddedBy(c, t.contexts, [], added) && t.todo == [] + added;
    NoContextServices();
    assert c.contexts[1..] == [];
    assert ContextServices(c.contexts) == [] + ContextServices([]);
    assert InContextModule(t.contexts, b);
    if added != [] {
      HasOne(added);
    }
  }
}

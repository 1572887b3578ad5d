/** The plugin scheduler: name resolution, the phase-by-phase topological sort, and the lifecycle calls in its order. */
module PluginManager {

  import opened Common

  const PHASES: nat := 3
  const MAX_DEPENDENCIES: nat := 8

  datatype Plugin = Plugin(name: string, phase: nat, dependencies: seq<string>)

  datatype Hook = OnInit | OnLoad | OnShutdown | ResetContext

  /** One call into a plugin or its context. */
  datatype Event = Event(hook: Hook, plugin: nat)

  /** FindPluginIndex from index k on: the first plugin of that name, or -1. */
  function FindFrom(ps: seq<Plugin>, name: string, k: nat): (i: int)
    requires k <= |ps|
    ensures -1 <= i < |ps|
    ensures i >= 0 ==> k <= i && ps[i].name == name && forall j :: k <= j < i ==> ps[j].name != name
    ensures i < 0 ==> forall j :: k <= j < |ps| ==> ps[j].name != name
    decreases |ps| - k
  {
    if k == |ps| then -1 else if ps[k].name == name then k else FindFrom(ps, name, k + 1)
  }

  function Find(ps: seq<Plugin>, name: string): (i: int)
    ensures -1 <= i < |ps|
  {
    FindFrom(ps, name, 0)
  }

  /** The plugins that plugin i names as dependencies (-1 for a name nobody has). */
  function Needs(ps: seq<Plugin>, i: int): set<int> {
    if 0 <= i < |ps| then set d | d in ps[i].dependencies :: Find(ps, d) else {}
  }

  // ---- when a set of plugins can be ordered ----

  ghost predicate AllKnown(ps: seq<Plugin>) {
    forall i :: 0 <= i < |ps| ==> -1 !in Needs(ps, i)
  }

  ghost predicate PhasesInRange(ps: seq<Plugin>) {
    forall i :: 0 <= i < |ps| ==> ps[i].phase < 3
  }

  ghost predicate NoLaterDependency(ps: seq<Plugin>) {
    forall i, j :: 0 <= i < |ps| && 0 <= j < |ps| && j in Needs(ps, i) ==> ps[j].phase <= ps[i].phase
  }

  /** Consecutive plugins each depend on the next. */
  ghost predicate Walk(ps: seq<Plugin>, c: seq<int>) {
    && (forall k :: 0 <= k < |c| ==> 0 <= c[k] < |ps|)
    && (forall k :: 0 < k < |c| ==> c[k] in Needs(ps, c[k - 1]))
  }

  /** A walk inside one phase whose last plugin depends on its first. */
  ghost predicate PhaseCycle(ps: seq<Plugin>, c: seq<int>) {
    && |c| > 0 && Walk(ps, c) && c[0] in Needs(ps, c[|c| - 1])
    && forall k :: 0 <= k < |c| ==> ps[c[k]].phase == ps[c[0]].phase
  }

  ghost predicate Acyclic(ps: seq<Plugin>) {
    forall c: seq<int> :: !PhaseCycle(ps, c)
  }

  ghost predicate Resolvable(ps: seq<Plugin>) {
    AllKnown(ps) && PhasesInRange(ps) && NoLaterDependency(ps) && Acyclic(ps)
  }

  /** The elements of s. */
  function Elements(s: seq<int>): set<int> {
    set x | x in s
  }

  /** An initial part of a schedule: no repeats, phases in order, every dependency earlier. */
  ghost predicate Partial(ps: seq<Plugin>, s: seq<int>) {
    && Distinct(s)
    && (forall k :: 0 <= k < |s| ==> 0 <= s[k] < |ps| && ps[s[k]].phase < PHASES)
    && (forall j, k :: 0 <= j < k < |s| ==> ps[s[j]].phase <= ps[s[k]].phase)
    && (forall k :: 0 <= k < |s| ==> Needs(ps, s[k]) <= Elements(s[..k]))
  }

  /** Every plugin once, phase by phase, every dependency before its dependants. */
  ghost predicate Schedule(ps: seq<Plugin>, s: seq<int>) {
    Partial(ps, s) && |s| == |ps| && forall i :: 0 <= i < |ps| ==> i in s
  }

  lemma {:induction false} DistinctCount(s: seq<int>)
    requires Distinct(s)
    ensures |Elements(s)| == |s|
  {
    if s == [] {
      assert Elements(s) == {};
    } else {
      var n := |s| - 1;
      DistinctCount(s[..n]);
      assert Elements(s) == Elements(s[..n]) + {s[n]};
    }
  }

  function Range(n: nat): (r: set<int>)
    ensures |r| == n && forall x :: x in r <==> 0 <= x < n
  {
    if n == 0 then {} else Range(n - 1) + {n - 1}
  }

  lemma SubsetCount(a: set<int>, b: set<int>)
    requires a <= b
    ensures |a| <= |b|
    ensures |a| == |b| ==> a == b
  {
    assert b == a + (b - a);
    if |a| == |b| {
      assert |b - a| == 0;
    }
  }

  /** A schedule's dependencies are never in a later phase. */
  lemma ScheduleNoLater(ps: seq<Plugin>, s: seq<int>)
    requires Schedule(ps, s)
    ensures NoLaterDependency(ps) && AllKnown(ps) && PhasesInRange(ps)
  {
    forall i | 0 <= i < |ps|
      ensures -1 !in Needs(ps, i) && ps[i].phase < PHASES
      ensures forall j :: 0 <= j < |ps| && j in Needs(ps, i) ==> ps[j].phase <= ps[i].phase
    {
      assert i in s;
      var k :| 0 <= k < |s| && s[k] == i;
      assert Needs(ps, s[k]) <= Elements(s[..k]);
    }
  }

  /** Going along dependencies moves to the front of a schedule. */
  lemma {:induction false} WalkGoesBack(ps: seq<Plugin>, s: seq<int>, c: seq<int>, m: nat, top: nat) returns (k: nat)
    requires Partial(ps, s) && Walk(ps, c) && m < |c| && top < |s| && s[top] == c[0]
    ensures k + m <= top && k < |s| && s[k] == c[m]
  {
    if m == 0 {
      k := top;
    } else {
      var j := WalkGoesBack(ps, s, c, m - 1, top);
      assert c[m] in Elements(s[..j]);
      k :| 0 <= k < j && s[k] == c[m];
    }
  }

  lemma ScheduleAcyclic(ps: seq<Plugin>, s: seq<int>, c: seq<int>)
    requires Schedule(ps, s)
    ensures !PhaseCycle(ps, c)
  {
    if PhaseCycle(ps, c) {
      assert c[0] in s;
      var top: nat :| top < |s| && s[top] == c[0];
      var last := WalkGoesBack(ps, s, c, |c| - 1, top);
      assert false;
    }
  }

  /** Only resolvable plugins have a schedule. */
  lemma ScheduledIsResolvable(ps: seq<Plugin>, s: seq<int>)
    requires Schedule(ps, s)
    ensures Resolvable(ps)
  {
    ScheduleNoLater(ps, s);
    forall c: seq<int> ensures !PhaseCycle(ps, c) { ScheduleAcyclic(ps, s, c); }
  }

  // ---- what a stalled round shows ----

  ghost predicate Waits(ps: seq<Plugin>, waiting: set<int>, i: int) {
    exists j :: j in waiting && j in Needs(ps, i)
  }

  /** Each plugin of the set still waits for another of the set. */
  ghost predicate Stuck(ps: seq<Plugin>, waiting: set<int>, p: nat) {
    && (forall i :: i in waiting ==> 0 <= i < |ps| && ps[i].phase == p)
    && (forall i {:trigger Waits(ps, waiting, i)} :: i in waiting ==> Waits(ps, waiting, i))
  }

  lemma NextWaiting(ps: seq<Plugin>, waiting: set<int>, p: nat, i: int) returns (j: int)
    requires Stuck(ps, waiting, p) && i in waiting
    ensures j in waiting && j in Needs(ps, i) && 0 <= j < |ps|
  {
    assert Waits(ps, waiting, i);
    j :| j in waiting && j in Needs(ps, i);
  }

  lemma WalkExtends(ps: seq<Plugin>, w: seq<int>, j: int)
    requires Walk(ps, w) && 0 <= j < |ps| && (w == [] || j in Needs(ps, w[|w| - 1]))
    ensures Walk(ps, w + [j])
  {}

  /** From any waiting plugin the dependencies can be followed for as long as one likes. */
  lemma {:induction false} LongWalk(ps: seq<Plugin>, waiting: set<int>, p: nat, start: int, n: nat)
    returns (w: seq<int>)
    requires Stuck(ps, waiting, p) && start in waiting
    ensures |w| == n + 1 && Walk(ps, w) && forall k :: 0 <= k < |w| ==> w[k] in waiting
  {
    if n == 0 {
      w := [start];
    } else {
      var w0 := LongWalk(ps, waiting, p, start, n - 1);
      var j := NextWaiting(ps, waiting, p, w0[n - 1]);
      WalkExtends(ps, w0, j);
      w := w0 + [j];
    }
  }

  lemma WalkPart(ps: seq<Plugin>, w: seq<int>, j: nat, k: nat)
    requires Walk(ps, w) && j < k < |w| && w[j] == w[k]
    ensures Walk(ps, w[j..k]) && w[j..k][0] in Needs(ps, w[j..k][k - j - 1])
  {
    var c := w[j..k];
    forall m | 0 < m < |c| ensures c[m] in Needs(ps, c[m - 1]) {
      assert c[m] == w[j + m] && c[m - 1] == w[j + m - 1];
    }
    assert w[k] in Needs(ps, w[k - 1]);
  }

  lemma LongWalkRepeats(w: seq<int>, waiting: set<int>)
    requires (forall k :: 0 <= k < |w| ==> w[k] in waiting) && |w| > |waiting|
    ensures !Distinct(w)
  {
    if Distinct(w) {
      DistinctCount(w);
      SubsetCount(Elements(w), waiting);
    }
  }

  lemma Member(s: set<int>) returns (x: int)
    requires s != {}
    ensures x in s
  {
    if forall y :: y !in s { assert false; }
    x :| x in s;
  }

  /** A stuck set contains a dependency cycle. */
  lemma StuckHasCycle(ps: seq<Plugin>, waiting: set<int>, p: nat) returns (c: seq<int>)
    requires Stuck(ps, waiting, p) && waiting != {}
    ensures PhaseCycle(ps, c)
  {
    var start := Member(waiting);
    var w := LongWalk(ps, waiting, p, start, |waiting|);
    LongWalkRepeats(w, waiting);
    var j: nat, k: nat :| j < k < |w| && w[j] == w[k];
    WalkPart(ps, w, j, k);
    c := w[j..k];
    assert forall m :: 0 <= m < |c| ==> c[m] == w[j + m] && ps[c[m]].phase == p;
  }

  /** Plugins of phases before p. */
  function Before(ps: seq<Plugin>, p: nat): set<int> {
    set i | 0 <= i < |ps| && ps[i].phase < p
  }

  function InPhase(ps: seq<Plugin>, p: nat): set<int> {
    set i | 0 <= i < |ps| && ps[i].phase == p
  }

  /** A round without progress: something depends on a later phase, or the phase has a cycle. */
  lemma StallRefutes(ps: seq<Plugin>, loaded: set<int>, waiting: set<int>, p: nat)
    requires AllKnown(ps) && waiting != {} && waiting <= InPhase(ps, p)
    requires loaded == Before(ps, p) + (InPhase(ps, p) - waiting)
    requires forall i :: i in waiting ==> !(Needs(ps, i) <= loaded)
    ensures !Resolvable(ps)
  {
    if NoLaterDependency(ps) {
      forall i | i in waiting ensures Waits(ps, waiting, i) {
        var j :| j in Needs(ps, i) && j !in loaded;
        NeedsInRange(ps, i, j);
      }
      var c := StuckHasCycle(ps, waiting, p);
    }
  }

  lemma NeedsInRange(ps: seq<Plugin>, i: int, j: int)
    requires AllKnown(ps) && 0 <= i < |ps| && j in Needs(ps, i)
    ensures 0 <= j < |ps|
  {
    assert -1 !in Needs(ps, i);
  }

  // ---- growing a schedule ----

  /** One more plugin at the end. */
  lemma PartialExtends(ps: seq<Plugin>, s: seq<int>, i: int)
    requires Partial(ps, s) && 0 <= i < |ps| && ps[i].phase < PHASES && i !in s
    requires forall k :: 0 <= k < |s| ==> ps[s[k]].phase <= ps[i].phase
    requires Needs(ps, i) <= Elements(s)
    ensures Partial(ps, s + [i]) && Elements(s + [i]) == Elements(s) + {i}
  {
    var s1 := s + [i];
    forall k | 0 <= k < |s1| ensures Needs(ps, s1[k]) <= Elements(s1[..k]) {
      assert s1[..k] == if k < |s| then s[..k] else s;
    }
  }

  /** Not longer than the plugins there are. */
  lemma PartialFits(ps: seq<Plugin>, s: seq<int>)
    requires Partial(ps, s)
    ensures |s| <= |ps|
    ensures |s| == |ps| <==> Elements(s) == Range(|ps|)
  {
    DistinctCount(s);
    SubsetCount(Elements(s), Range(|ps|));
  }

  lemma PartialIsSchedule(ps: seq<Plugin>, s: seq<int>)
    requires Partial(ps, s) && |s| == |ps|
    ensures Schedule(ps, s)
  {
    PartialFits(ps, s);
    forall i | 0 <= i < |ps| ensures i in s { assert i in Elements(s); }
  }

  /** The waiting plugins below n whose dependencies are all loaded. */
  function Satisfied(ps: seq<Plugin>, waiting: set<int>, loaded: set<int>, n: nat): set<int> {
    set i | i in waiting && i < n && Needs(ps, i) <= loaded
  }

  lemma SatisfiedStep(ps: seq<Plugin>, waiting: set<int>, loaded: set<int>, n: nat)
    ensures Satisfied(ps, waiting, loaded, n + 1) == Satisfied(ps, waiting, loaded, n) +
      if n in waiting && Needs(ps, n) * loaded == Needs(ps, n) then {n} else {}
    ensures n in waiting && Needs(ps, n) * loaded == Needs(ps, n) ==> Needs(ps, n) <= loaded
  {}

  /** The next satisfied plugin of a round extends the schedule. */
  lemma PlaceNext(ps: seq<Plugin>, s: seq<int>, loaded: set<int>, waiting: set<int>, i: nat, p: nat)
    requires Partial(ps, s) && Elements(s) == loaded + Satisfied(ps, waiting, loaded, i) && p < PHASES
    requires waiting <= InPhase(ps, p) && loaded == Before(ps, p) + (InPhase(ps, p) - waiting)
    requires i in waiting && Needs(ps, i) <= loaded
    ensures Partial(ps, s + [i]) && Elements(s + [i]) == Elements(s) + {i}
  {
    forall k | 0 <= k < |s| ensures ps[s[k]].phase <= p {
      assert s[k] in Elements(s);
    }
    assert i !in Elements(s);
    PartialExtends(ps, s, i);
  }

  // ---- lifecycle passes ----

  /** One call per plugin in schedule order. */
  function Calls(h: Hook, s: seq<nat>): (t: seq<Event>)
    ensures |t| == |s| && forall k :: 0 <= k < |s| ==> t[k] == Event(h, s[k])
  {
    seq(|s|, k requires 0 <= k < |s| => Event(h, s[k]))
  }

  /** Shutdown and reset, last plugin first. */
  function Teardown(s: seq<nat>): (t: seq<Event>)
    ensures |t| == 2 * |s|
  {
    if s == [] then []
    else [Event(OnShutdown, s[|s| - 1]), Event(ResetContext, s[|s| - 1])] + Teardown(s[..|s| - 1])
  }

  /** Where each plugin's teardown calls stand. */
  lemma {:induction false} TeardownAt(s: seq<nat>, k: nat)
    requires k < |s|
    ensures Teardown(s)[2 * (|s| - 1 - k)] == Event(OnShutdown, s[k])
    ensures Teardown(s)[2 * (|s| - 1 - k) + 1] == Event(ResetContext, s[k])
  {
    if k < |s| - 1 { TeardownAt(s[..|s| - 1], k); }
  }

  /** Where plugin i stands in a schedule. */
  ghost function Position(ps: seq<Plugin>, s: seq<nat>, i: nat): (k: nat)
    requires Schedule(ps, s) && i < |ps|
    ensures k < |s| && s[k] == i
  {
    assert i in s;
    var k: nat :| k < |s| && s[k] == i;
    k
  }

  /** A dependency is initialised and loaded before its dependant, and shut down and reset only after it. */
  lemma DependencyOrder(ps: seq<Plugin>, s: seq<nat>, i: nat, j: nat, h: Hook)
    requires Schedule(ps, s) && i < |ps| && j in Needs(ps, i)
    ensures j < |ps|
    ensures var a, b := Position(ps, s, i), Position(ps, s, j);
      && b < a
      && Calls(h, s)[b] == Event(h, j) && Calls(h, s)[a] == Event(h, i)
      && Teardown(s)[2 * (|s| - 1 - a) + 1] == Event(ResetContext, i)
      && Teardown(s)[2 * (|s| - 1 - b)] == Event(OnShutdown, j)
      && 2 * (|s| - 1 - a) + 1 < 2 * (|s| - 1 - b)
  {
    ScheduledIsResolvable(ps, s);
    NeedsInRange(ps, i, j);
    var a, b := Position(ps, s, i), Position(ps, s, j);
    assert Needs(ps, s[a]) <= Elements(s[..a]);
    assert j in s[..a];
    TeardownAt(s, a);
    TeardownAt(s, b);
  }

  // ---- the manager ----

  /** At most the first eight dependency names are kept. */
  function Kept(dependencies: seq<string>): (kept: seq<string>)
    ensures kept <= dependencies && |kept| == if |dependencies| < 8 then |dependencies| else 8
  {
    if |dependencies| < MAX_DEPENDENCIES then dependencies else dependencies[..MAX_DEPENDENCIES]
  }

  class Manager {
    const capacity: nat
    const order: array<nat>
    var plugins: seq<Plugin>
    var masks: seq<set<int>>
    var resolved: bool
    var trace: seq<Event>

    ghost predicate Shape()
      reads this
    {
      order.Length == capacity <= 64 && |plugins| <= capacity
    }

    ghost predicate Valid()
      reads this, order
    {
      Shape() && (resolved ==> Schedule(plugins, order[..|plugins|]))
    }

    constructor (maxPlugins: nat)
      requires maxPlugins <= 64
      ensures Valid() && fresh(order) && capacity == maxPlugins && plugins == [] && trace == [] && !resolved
    {
      capacity := maxPlugins;
      order := new nat[maxPlugins];
      plugins, masks, resolved, trace := [], [], false, [];
    }

    method RegisterPlugin(name: string, phase: nat, dependencies: seq<string>) returns (ok: bool)
      requires Valid()
      modifies this`plugins, this`resolved
      ensures Valid() && ok == (|old(plugins)| < capacity)
      ensures ok ==> !resolved && plugins == old(plugins) + [Plugin(name, phase, Kept(dependencies))]
      ensures !ok ==> plugins == old(plugins) && resolved == old(resolved)
    {
      if |plugins| >= capacity { return false; }
      plugins := plugins + [Plugin(name, phase, Kept(dependencies))];
      resolved := false;
      return true;
    }

    ghost predicate Resolved()
      reads this
    {
      |masks| == |plugins| && forall i :: 0 <= i < |masks| ==> masks[i] == Needs(plugins, i)
    }

    /** Names to masks. */
    method ResolveNames() returns (ok: bool)
      requires Shape()
      modifies this`masks
      ensures ok == AllKnown(plugins)
      ensures ok ==> Resolved()
    {
      masks := [];
      for i := 0 to |plugins|
        invariant |masks| == i && forall q :: 0 <= q < i ==> masks[q] == Needs(plugins, q) && -1 !in Needs(plugins, q)
      {
        var mask: set<int> := {};
        var names := plugins[i].dependencies;
        for d := 0 to |names|
          invariant |masks| == i && forall q :: 0 <= q < i ==> masks[q] == Needs(plugins, q) && -1 !in Needs(plugins, q)
          invariant mask == (set e | e in names[..d] :: Find(plugins, e)) && -1 !in mask
        {
          var index := Find(plugins, names[d]);
          assert index in Needs(plugins, i);
          if index < 0 { return false; }
          mask := mask + {index};
        }
        assert names[..|names|] == names;
        masks := masks + [mask];
      }
      return true;
    }

    /** The plugins of one phase. */
    method CollectPhase(p: nat) returns (mask: set<int>)
      ensures mask == InPhase(plugins, p)
    {
      mask := {};
      for i := 0 to |plugins|
        invariant mask == set q | 0 <= q < i && plugins[q].phase == p
      {
        if plugins[i].phase == p { mask := mask + {i}; }
      }
    }

    /** What is sorted so far: all earlier phases and this phase's plugins that no longer wait. */
    ghost predicate Progressed(sorted: nat, loaded: set<int>, waiting: set<int>, p: nat)
      reads this, order
    {
      && Shape() && Resolved() && p < PHASES && sorted <= |plugins|
      && Partial(plugins, order[..sorted]) && Elements(order[..sorted]) == loaded
      && waiting <= InPhase(plugins, p) && loaded == Before(plugins, p) + (InPhase(plugins, p) - waiting)
    }

    /** Place one plugin after the s sorted so far. */
    method Place(sorted: nat, i: nat, ghost s: seq<int>)
      requires Shape() && sorted <= |plugins| && i < |plugins| && s == order[..sorted]
      requires Partial(plugins, s + [i])
      modifies order
      ensures sorted < |plugins| && order[..sorted + 1] == s + [i]
    {
      PartialFits(plugins, s + [i]);
      order[sorted] := i;
    }

    /** One round over a phase: place every waiting plugin whose dependencies were loaded before the round. */
    method Round(before: nat, loaded: set<int>, waiting: set<int>, ghost p: nat)
      returns (sorted: nat, progress: set<int>)
      requires Progressed(before, loaded, waiting, p)
      modifies order
      ensures progress == Satisfied(plugins, waiting, loaded, |plugins|)
      ensures Progressed(sorted, loaded + progress, waiting - progress, p)
    {
      sorted, progress := before, {};
      ghost var s: seq<int> := order[..sorted];
      for i := 0 to |plugins|
        invariant sorted <= |plugins| && s == order[..sorted] && Partial(plugins, s)
        invariant progress == Satisfied(plugins, waiting, loaded, i)
        invariant Elements(s) == loaded + progress
      {
        SatisfiedStep(plugins, waiting, loaded, i);
        if i in waiting && masks[i] * loaded == masks[i] {
          PlaceNext(plugins, s, loaded, waiting, i, p);
          Place(sorted, i, s);
          s := s + [i];
          sorted := sorted + 1;
          progress := progress + {i};
        }
      }
      assert loaded + progress == Before(plugins, p) + (InPhase(plugins, p) - (waiting - progress));
    }

    /** All rounds of one phase. */
    method SortPhase(p: nat, before: nat, loadedBefore: set<int>) returns (ok: bool, sorted: nat, loaded: set<int>)
      requires Progressed(before, loadedBefore, InPhase(plugins, p), p) && AllKnown(plugins)
      modifies order
      ensures if ok then Progressed(sorted, loaded, {}, p) else !Resolvable(plugins)
    {
      sorted, loaded := before, loadedBefore;
      var waiting := CollectPhase(p);
      while waiting != {}
        invariant Progressed(sorted, loaded, waiting, p)
        decreases |waiting|
      {
        var count, progress := Round(sorted, loaded, waiting, p);
        if progress == {} {
          forall i | i in waiting ensures !(Needs(plugins, i) <= loaded) {
            assert i !in progress;
          }
          StallRefutes(plugins, loaded, waiting, p);
          return false, sorted, loaded;
        }
        SmallerSet(waiting, progress);
        sorted, loaded, waiting := count, loaded + progress, waiting - progress;
      }
      return true, sorted, loaded;
    }

    /** Resolve names, then sort phase by phase; it succeeds exactly when an order exists. */
    method ResolveAndSort() returns (ok: bool)
      requires Valid()
      modifies this`masks, this`resolved, order
      ensures Valid() && ok == resolved == Resolvable(plugins)
    {
      if resolved { ScheduledIsResolvable(plugins, order[..|plugins|]); }
      var known := ResolveNames();
      if !known { return false; }
      var sorted: nat, loaded: set<int> := 0, {};
      for p := 0 to PHASES
        invariant Shape() && Resolved() && (resolved ==> Resolvable(plugins))
        invariant sorted <= |plugins| && Partial(plugins, order[..sorted])
        invariant Elements(order[..sorted]) == loaded == Before(plugins, p)
      {
        var done, count, through := SortPhase(p, sorted, loaded);
        if !done { return false; }
        sorted, loaded := count, through;
      }
      PhasesCovered(plugins, order[..sorted]);
      resolved := sorted == |plugins|;
      return resolved;
    }

    /** The order, once resolved. */
    ghost function Order(): seq<nat>
      requires Valid()
      reads this, order
    {
      order[..|plugins|]
    }

    /** Every plugin's OnInit, dependencies first; nothing when there is no order. */
    method InitializePlugins()
      requires Valid()
      modifies this`masks, this`resolved, this`trace, order
      ensures Valid() && resolved == Resolvable(plugins)
      ensures trace == old(trace) + if resolved then Calls(OnInit, Order()) else []
    {
      CallAll(OnInit);
    }

    method LoadPlugins()
      requires Valid()
      modifies this`masks, this`resolved, this`trace, order
      ensures Valid() && resolved == Resolvable(plugins)
      ensures trace == old(trace) + if resolved then Calls(OnLoad, Order()) else []
    {
      CallAll(OnLoad);
    }

    /** The common body of initialising and loading. */
    method CallAll(h: Hook)
      requires Valid()
      modifies this`masks, this`resolved, this`trace, order
      ensures Valid() && resolved == Resolvable(plugins)
      ensures trace == old(trace) + if resolved then Calls(h, Order()) else []
    {
      if resolved { ScheduledIsResolvable(plugins, order[..|plugins|]); }
      if !resolved {
        var ok := ResolveAndSort();
        if !ok { return; }
      }
      CallInOrder(h, Order());
    }

    method CallInOrder(h: Hook, ghost s: seq<nat>)
      requires Shape() && s == order[..|plugins|]
      modifies this`trace
      ensures trace == old(trace) + Calls(h, s)
    {
      ghost var calls := Calls(h, s);
      for i := 0 to |plugins|
        invariant trace == old(trace) + calls[..i]
      {
        assert calls[..i + 1] == calls[..i] + [calls[i]];
        trace := trace + [Event(h, order[i])];
      }
      assert calls[..|plugins|] == calls;
    }

    /** Shutdown and reset in reverse order; nothing before a successful sort. */
    method ShutdownPlugins()
      requires Valid()
      modifies this`trace
      ensures Valid()
      ensures trace == old(trace) + if resolved then Teardown(Order()) else []
    {
      if resolved { TearDown(Order()); }
    }

    method TearDown(ghost s: seq<nat>)
      requires Shape() && s == order[..|plugins|]
      modifies this`trace
      ensures trace == old(trace) + Teardown(s)
    {
      var i := |plugins|;
      assert s[..i] == s;
      while i > 0
        invariant 0 <= i <= |plugins|
        invariant trace + Teardown(s[..i]) == old(trace) + Teardown(s)
      {
        TeardownStep(trace, s, i, old(trace) + Teardown(s));
        trace := trace + [Event(OnShutdown, order[i - 1]), Event(ResetContext, order[i - 1])];
        i := i - 1;
      }
    }
  }

  lemma TeardownStep(t: seq<Event>, s: seq<nat>, i: nat, whole: seq<Event>)
    requires 0 < i <= |s| && t + Teardown(s[..i]) == whole
    ensures t + [Event(OnShutdown, s[i - 1]), Event(ResetContext, s[i - 1])] + Teardown(s[..i - 1]) == whole
  {
    assert s[..i][..i - 1] == s[..i - 1];
  }

  /** With all phases done, everything is sorted exactly when every phase number is valid. */
  lemma PhasesCovered(ps: seq<Plugin>, s: seq<int>)
    requires Partial(ps, s) && Elements(s) == Before(ps, PHASES)
    ensures if |s| == |ps| then Schedule(ps, s) && Resolvable(ps) else !Resolvable(ps)
  {
    PartialFits(ps, s);
    if |s| == |ps| {
      PartialIsSchedule(ps, s);
      ScheduledIsResolvable(ps, s);
    } else if PhasesInRange(ps) {
      assert false;
    }
  }

  lemma SmallerSet(waiting: set<int>, progress: set<int>)
    requires progress <= waiting && progress != {}
    ensures |waiting - progress| < |waiting|
  {
    assert waiting == progress + (waiting - progress);
  }
}

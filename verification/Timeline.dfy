/**
 * Whole runs of a TLD: phases are added, ended, reopened and deleted while the clock moves on. What
 * keeps two GA phases from being active together is an invariant that no single check states.
 */
module Timeline {
  import opened Outcomes
  import opened Calendar
  import opened Phases

  /** Ends before it starts and has ended: no operation can give such a phase an active moment again. */
  predicate Dead(p: Phase, now: Instant) {
    Historic(p, now) && p.ends.value < p.starts
  }

  /** If p starts before q then p has ended by the time q starts, or q never runs. */
  predicate Before(p: Phase, q: Phase, now: Instant) {
    p.starts < q.starts ==> p.ends.Some? && (p.ends.value <= q.starts || Dead(q, now))
  }

  predicate DistinctNames(phases: seq<Phase>) {
    forall i, j :: 0 <= i < j < |phases| ==> phases[i].name != phases[j].name
  }

  /** The invariant of the timeline. */
  ghost predicate Ordered(phases: seq<Phase>, now: Instant) {
    && DistinctNames(phases)
    && forall i, j :: IsGA(phases, i) && IsGA(phases, j) && i != j ==>
                        phases[i].starts != phases[j].starts && Before(phases[i], phases[j], now)
  }

  /** At the given instant at most one GA phase is active. */
  ghost predicate AtMostOneActive(phases: seq<Phase>, t: Instant) {
    forall i, j :: IsGA(phases, i) && IsGA(phases, j) && Active(phases[i], t) && Active(phases[j], t) ==> i == j
  }

  /** The invariant rules out two active GA phases at every instant, past, present and future. */
  lemma OrderedIsSafe(phases: seq<Phase>, now: Instant, t: Instant)
    requires Ordered(phases, now)
    ensures AtMostOneActive(phases, t)
  {
    forall i, j | IsGA(phases, i) && IsGA(phases, j) && i != j
      ensures !(Active(phases[i], t) && Active(phases[j], t))
    {
      assert Before(phases[i], phases[j], now) && Before(phases[j], phases[i], now);
    }
  }

  lemma OrderedLater(phases: seq<Phase>, now: Instant, later: Instant)
    requires Ordered(phases, now) && now <= later
    ensures Ordered(phases, later)
  {
    forall i, j | IsGA(phases, i) && IsGA(phases, j) && i != j
      ensures phases[i].starts != phases[j].starts && Before(phases[i], phases[j], later)
    {
      assert Before(phases[i], phases[j], now);
    }
  }

  // --- Each operation keeps it ----------------------------------------------------------------

  /** A GA phase whose start no other GA phase has. */
  ghost predicate NewStart(phases: seq<Phase>, p: Phase) {
    p.kind == GA ==> forall i :: IsGA(phases, i) ==> phases[i].starts != p.starts
  }

  lemma AddKeepsOrder(phases: seq<Phase>, p: Phase, now: Instant)
    requires Ordered(phases, now) && NewStart(phases, p)
    ensures Ordered(PhaseAdded(phases, p).phases, now)
  {
    var after := PhaseAdded(phases, p).phases;
    forall i, j | IsGA(after, i) && IsGA(after, j) && i != j
      ensures after[i].starts != after[j].starts && Before(after[i], after[j], now)
    {
      if i < |phases| && j < |phases| {
        assert IsGA(phases, i) && IsGA(phases, j);
      } else {
        var k := if i < |phases| then i else j;
        assert IsGA(phases, k) && !OverlapsWith(p, phases[k]);
      }
    }
  }

  /** Changing the end of phase k keeps the order if the pairs that involve it stay in order. */
  lemma EditKeepsOrder(phases: seq<Phase>, k: nat, ends: Option<Instant>, now: Instant)
    requires Ordered(phases, now) && k < |phases|
    requires var p := phases[k].(ends := ends);
             forall i :: IsGA(phases, i) && i != k && p.kind == GA ==> Before(p, phases[i], now) && Before(phases[i], p, now)
    ensures Ordered(phases[k := phases[k].(ends := ends)], now)
  {
    var after := phases[k := phases[k].(ends := ends)];
    forall i, j | IsGA(after, i) && IsGA(after, j) && i != j
      ensures after[i].starts != after[j].starts && Before(after[i], after[j], now)
    {
      assert IsGA(phases, i) && IsGA(phases, j);
    }
  }

  lemma EndKeepsOrder(phases: seq<Phase>, name: string, end: Timestamp, now: Instant)
    requires Ordered(phases, now)
    ensures Ordered(PhaseEnded(phases, name, end, now).phases, now)
  {
    if PhaseEnded(phases, name, end, now).outcome.Done? {
      var k := IndexOfPhase(phases, name);
      var p := phases[k].(ends := Some(end.at));
      forall i | IsGA(phases, i) && i != k && p.kind == GA
        ensures Before(p, phases[i], now) && Before(phases[i], p, now)
      {
        assert IsGA(phases, k) && phases[i].name != name;
        assert Before(phases[k], phases[i], now) && Before(phases[i], phases[k], now);
        assert phases[k].ends.Some? ==> !Obstructs(phases, i, name, end.at, now);
      }
      EditKeepsOrder(phases, k, Some(end.at), now);
    }
  }

  lemma UnSetEndKeepsOrder(phases: seq<Phase>, name: string, now: Instant)
    requires Ordered(phases, now)
    ensures Ordered(PhaseEndUnset(phases, name, now).phases, now)
  {
    if PhaseEndUnset(phases, name, now).outcome.Done? {
      var k := IndexOfPhase(phases, name);
      var p := phases[k].(ends := None);
      forall i | IsGA(phases, i) && i != k && p.kind == GA
        ensures Before(p, phases[i], now) && Before(phases[i], p, now)
      {
        assert IsGA(phases, k) && phases[i].name != name;
        assert Before(phases[k], phases[i], now) && Before(phases[i], phases[k], now);
        assert phases[k].ends.Some? ==> !StartsLater(phases, i, phases[k]);
      }
      EditKeepsOrder(phases, k, None, now);
    }
  }

  lemma {:induction false} NothingDropped(phases: seq<Phase>, name: string)
    requires forall i :: 0 <= i < |phases| ==> phases[i].name != name
    ensures Dropped(phases, name) == phases
    decreases |phases|
  {
    if phases != [] {
      NothingDropped(phases[1..], name);
      assert [phases[0]] + phases[1..] == phases;
    }
  }

  lemma {:induction false} OneDropped(phases: seq<Phase>, k: nat)
    requires k < |phases| && forall i :: 0 <= i < |phases| && i != k ==> phases[i].name != phases[k].name
    ensures Dropped(phases, phases[k].name) == phases[..k] + phases[k + 1..]
    decreases k
  {
    if k > 0 {
      var rest := phases[1..];
      OneDropped(rest, k - 1);
      assert [phases[0]] + rest[..k - 1] == phases[..k];
      assert rest[k..] == phases[k + 1..];
    } else if |phases| > 1 {
      NothingDropped(phases[2..], phases[0].name);
      assert phases[1..] == [phases[1]] + phases[2..];
    }
  }

  /** With distinct names exactly the named phase is removed. */
  lemma DroppedIsRemoval(phases: seq<Phase>, name: string)
    requires DistinctNames(phases)
    ensures var k := IndexOfPhase(phases, name);
            Dropped(phases, name) == if k == |phases| then phases else phases[..k] + phases[k + 1..]
  {
    hide Dropped;
    var k := IndexOfPhase(phases, name);
    if k == |phases| {
      NothingDropped(phases, name);
    } else {
      OneDropped(phases, k);
    }
  }

  /** A phase is deleted exactly when it is there, and has neither begun nor been current. */
  lemma PhaseDeletedExact(phases: seq<Phase>, k: nat, name: string, now: Instant)
    requires DistinctNames(phases) && k <= |phases| && (forall i :: 0 <= i < k ==> phases[i].name != name)
    requires k < |phases| ==> phases[k].name == name
    ensures var r := PhaseDeleted(phases, name, now);
            && (r.outcome.Done? <==> k < |phases| && now <= phases[k].starts)
            && r.phases == (if r.outcome.Done? then phases[..k] + phases[k + 1..] else phases)
  {
    hide Dropped;
    assert IndexOfPhase(phases, name) == k;
    DroppedIsRemoval(phases, name);
  }

  lemma RemovalKeepsOrder(phases: seq<Phase>, k: nat, now: Instant)
    requires Ordered(phases, now) && k < |phases|
    ensures Ordered(phases[..k] + phases[k + 1..], now)
  {
    var after := phases[..k] + phases[k + 1..];
    forall i, j | IsGA(after, i) && IsGA(after, j) && i != j
      ensures after[i].starts != after[j].starts && Before(after[i], after[j], now)
    {
      var i', j' := if i < k then i else i + 1, if j < k then j else j + 1;
      assert IsGA(phases, i') && IsGA(phases, j');
    }
  }

  // --- Runs -----------------------------------------------------------------------------------

  datatype Event =
    | Tick(dt: nat)
    | Add(p: Phase)
    | End(name: string, end: Timestamp)
    | UnSetEnd(name: string)
    | Delete(name: string)

  datatype World = World(phases: seq<Phase>, now: Instant)

  function Next(w: World, e: Event): World {
    match e
    case Tick(dt) => w.(now := w.now + dt)
    case Add(p) => w.(phases := PhaseAdded(w.phases, p).phases)
    case End(name, end) => w.(phases := PhaseEnded(w.phases, name, end, w.now).phases)
    case UnSetEnd(name) => w.(phases := PhaseEndUnset(w.phases, name, w.now).phases)
    case Delete(name) => w.(phases := PhaseDeleted(w.phases, name, w.now).phases)
  }

  function Run(w: World, events: seq<Event>): World
    decreases |events|
  {
    if events == [] then w else Run(Next(w, events[0]), events[1..])
  }

  lemma StepKeepsOrder(w: World, e: Event)
    requires Ordered(w.phases, w.now) && (e.Add? ==> NewStart(w.phases, e.p))
    ensures Ordered(Next(w, e).phases, Next(w, e).now)
  {
    hide Ordered;
    match e
    case Tick(dt) => OrderedLater(w.phases, w.now, w.now + dt);
    case Add(p) => AddKeepsOrder(w.phases, p, w.now);
    case End(name, end) => EndKeepsOrder(w.phases, name, end, w.now);
    case UnSetEnd(name) => UnSetEndKeepsOrder(w.phases, name, w.now);
    case Delete(name) =>
      if PhaseDeleted(w.phases, name, w.now).outcome.Done? {
        OrderedNames(w.phases, w.now);
        DroppedIsRemoval(w.phases, name);
        RemovalKeepsOrder(w.phases, IndexOfPhase(w.phases, name), w.now);
      }
  }

  lemma OrderedNames(phases: seq<Phase>, now: Instant)
    requires Ordered(phases, now)
    ensures DistinctNames(phases)
  {
  }

  /** Every GA phase that the run adds starts at a moment at which no GA phase of the TLD starts. */
  ghost predicate NewStarts(w: World, events: seq<Event>)
    decreases |events|
  {
    events != [] ==> (events[0].Add? ==> NewStart(w.phases, events[0].p)) && NewStarts(Next(w, events[0]), events[1..])
  }

  lemma {:induction false} RunKeepsOrder(w: World, events: seq<Event>)
    requires Ordered(w.phases, w.now) && NewStarts(w, events)
    ensures Ordered(Run(w, events).phases, Run(w, events).now)
    decreases |events|
  {
    hide Ordered, Next;
    if events != [] {
      StepKeepsOrder(w, events[0]);
      RunKeepsOrder(Next(w, events[0]), events[1..]);
    }
  }

  /**
   * Over every run of a new TLD that adds GA phases with new starts only, no two GA phases are ever
   * active together, and the current one is found whatever the order of the list. Phases that end
   * before they start need not be kept out.
   */
  lemma EveryRunIsSafe(start: Instant, events: seq<Event>, t: Instant)
    requires NewStarts(World([], start), events)
    ensures var phases := Run(World([], start), events).phases;
            && AtMostOneActive(phases, t)
            && (forall i :: IsGA(phases, i) && Active(phases[i], t) ==> CurrentGAPhase(phases, t) == Some(phases[i]))
            && (forall shuffled :: multiset(shuffled) == multiset(phases) ==>
                  CurrentGAPhase(shuffled, t) == CurrentGAPhase(phases, t))
  {
    hide Ordered, Run, Active, AtMostOneActive;
    var w := World([], start);
    EmptyIsOrdered(start);
    RunKeepsOrder(w, events);
    var phases := Run(w, events).phases;
    OrderedIsSafe(phases, Run(w, events).now, t);
    CurrentIsTheActiveOne(phases, t);
    forall shuffled: seq<Phase> | multiset(shuffled) == multiset(phases)
      ensures CurrentGAPhase(shuffled, t) == CurrentGAPhase(phases, t)
    {
      OrderDoesNotMatter(phases, shuffled, t);
    }
  }

  lemma EmptyIsOrdered(now: Instant)
    ensures Ordered([], now)
  {
  }

  lemma CurrentIsTheActiveOne(phases: seq<Phase>, t: Instant)
    requires AtMostOneActive(phases, t)
    ensures forall i :: IsGA(phases, i) && Active(phases[i], t) ==> CurrentGAPhase(phases, t) == Some(phases[i])
  {
    hide Active;
  }

  lemma OrderDoesNotMatter(phases: seq<Phase>, shuffled: seq<Phase>, t: Instant)
    requires AtMostOneActive(phases, t) && multiset(shuffled) == multiset(phases)
    ensures CurrentGAPhase(shuffled, t) == CurrentGAPhase(phases, t)
  {
    hide Active, CurrentGAPhase;
    forall p
      ensures p in phases <==> p in shuffled
    {
      assert p in multiset(phases) <==> p in multiset(shuffled);
    }
    var a, b := CurrentGAPhase(phases, t), CurrentGAPhase(shuffled, t);
    CurrentIsTheActiveOne(phases, t);
    if a.Some? {
      assert a.value in shuffled;
      var i :| 0 <= i < |shuffled| && shuffled[i] == a.value;
      assert IsGA(shuffled, i);
    }
    if b.Some? {
      assert b.value in phases;
      var i :| 0 <= i < |phases| && phases[i] == b.value;
      assert IsGA(phases, i);
    }
  }

  // --- Without the condition on starts --------------------------------------------------------

  /** Bounded, and long enough to have an active moment (instants are whole nanoseconds). */
  predicate HasActiveMoment(p: Phase) {
    p.ends.Some? && p.ends.value >= p.starts + 2
  }

  /** A GA phase in the list with the same start, where both have an active moment. */
  predicate Clashes(phases: seq<Phase>, i: int, p: Phase) {
    IsGA(phases, i) && phases[i].starts == p.starts && HasActiveMoment(phases[i]) && HasActiveMoment(p)
  }

  /** Exactly when an accepted addition leaves two GA phases that are active together at some instant. */
  lemma AddIsSafeExactly(phases: seq<Phase>, p: Phase, now: Instant)
    requires Ordered(phases, now) && p.kind == GA && PhaseAdded(phases, p).outcome.Done?
    ensures (forall t :: AtMostOneActive(PhaseAdded(phases, p).phases, t)) <==> !exists i :: Clashes(phases, i, p)
  {
    var after := PhaseAdded(phases, p).phases;
    if i :| Clashes(phases, i, p) {
      var t := p.starts + 1;
      assert IsGA(after, i) && IsGA(after, |phases|) && Active(after[i], t) && Active(after[|phases|], t);
      assert !AtMostOneActive(after, t);
    } else {
      forall t
        ensures AtMostOneActive(after, t)
      {
        AddWithoutClash(phases, p, now, t);
      }
    }
  }

  lemma AddWithoutClash(phases: seq<Phase>, p: Phase, now: Instant, t: Instant)
    requires Ordered(phases, now) && p.kind == GA && PhaseAdded(phases, p).outcome.Done?
    requires forall i :: !Clashes(phases, i, p)
    ensures AtMostOneActive(PhaseAdded(phases, p).phases, t)
  {
    hide Ordered;
    var after := PhaseAdded(phases, p).phases;
    OrderedIsSafe(phases, now, t);
    forall i, j | IsGA(after, i) && IsGA(after, j) && i != j
      ensures !(Active(after[i], t) && Active(after[j], t))
    {
      if i < |phases| && j < |phases| {
        assert IsGA(phases, i) && IsGA(phases, j);
      } else {
        var k := if i < |phases| then i else j;
        assert IsGA(phases, k) && !OverlapsWith(p, phases[k]) && !Clashes(phases, k, p);
      }
    }
  }

  /** Two bounded GA phases with one start are both accepted, and are then active together. */
  lemma SameStartIsAccepted(now: Instant)
    ensures var short := Phase("short", GA, now, Some(now + 10), [], [], "USD");
            var long := Phase("long", GA, now, Some(now + 20), [], [], "USD");
            var w := Run(World([], now), [Add(short), Add(long)]);
            w.phases == [short, long] && !AtMostOneActive(w.phases, now + 5)
  {
    var short := Phase("short", GA, now, Some(now + 10), [], [], "USD");
    var long := Phase("long", GA, now, Some(now + 20), [], [], "USD");
    assert PhaseAdded([], short).phases == [short];
    assert PhaseAdded([short], long).phases == [short, long];
    assert [Add(short), Add(long)][1..] == [Add(long)];
    assert Run(World([short], now), [Add(long)]) == Run(World([short, long], now), []);
    assert IsGA([short, long], 0) && IsGA([short, long], 1);
  }
}

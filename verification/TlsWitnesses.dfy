/** Runs of the thread-slot protocol that go wrong without the discipline on slot exchanges. */
module TlsWitnesses {
  import opened Wrappers
  import opened TlsProtocol

  /** Two objects and one thread; the destructor of object 0 releases object 1. */
  function Two(x: Object, y: Object, slot: Option<ObjId>, todo: seq<Action>): World {
    World(map[0 := x, 1 := y], [Thread(slot, todo)], map[0 := [Release(1)], 1 := []])
  }

  /** One action of the only thread, with what it does to each object and what it pushes. */
  lemma Leads(x: Object, y: Object, x': Object, y': Object, slot: Option<ObjId>, a: Action,
              pushed: seq<Action>, rest: seq<Action>, n: nat)
    requires var w, th := Two(x, y, slot, [a] + rest), Thread(slot, [a] + rest);
      && Permitted(w, th, a) && !a.Init? && Pushed(w, th, a) == pushed
      && Objects(w, th, a)[0] == x' && Objects(w, th, a)[1] == y'
    ensures After(Two(x, y, slot, [a] + rest), 0, n + 1)
         == After(Two(x', y', if a.SetCurrent? then a.p else slot, pushed + rest), 0, n)
  {
    var w := Two(x, y, slot, [a] + rest);
    var w' := Two(x', y', if a.SetCurrent? then a.p else slot, pushed + rest);
    assert ([a] + rest)[1..] == rest;
    assert Next(w, Work(0)).objs == w'.objs;
    assert Next(w, Work(0)).threads == w'.threads;
    hide Pushed, Objects;
  }

  lemma OutgoingDies(x: Object, zero: Object, dead: Object, y: Object, rest: seq<Action>)
    requires x == Object(1, Initialized, 0, 0) && zero == Object(0, Initialized, 0, 0)
        && dead == Object(0, Destroying, 0, 1)
    ensures After(Two(x, y, Some(1), [DropOld(0)] + rest), 0, 7)
        == After(Two(dead, y, Some(1), [Release(1)] + rest), 0, 4)
  {
    hide After;
    Leads(x, y, zero, y, Some(1), DropOld(0), [CheckState(0)], rest, 6);
    Leads(zero, y, zero, y, Some(1), CheckState(0), [Destroy(0)], rest, 5);
    Leads(zero, y, dead, y, Some(1), Destroy(0), [Release(1)], rest, 4);
  }

  lemma IncomingDies(x: Object, y: Object, zero: Object, dying: Object, rest: seq<Action>)
    requires y == Object(1, Initialized, 1, 0) && zero == Object(0, Initialized, 0, 0)
        && dying == Object(0, Destroying, 0, 1)
    ensures After(Two(x, y, Some(1), [Release(1)] + rest), 0, 4) == After(Two(x, dying, Some(1), [] + rest), 0, 1)
  {
    hide After;
    Leads(x, y, x, zero, Some(1), Release(1), [CheckState(1)], rest, 3);
    Leads(x, zero, x, zero, Some(1), CheckState(1), [Destroy(1)], rest, 2);
    Leads(x, zero, x, dying, Some(1), Destroy(1), [], rest, 1);
  }

  lemma ExchangeStarts(x: Object, y: Object)
    ensures After(Two(x, y, Some(0), [SetCurrent(Some(1))]), 0, 8)
        == After(Two(x, y, Some(1), [DropOld(0)] + [TakeNew(1)]), 0, 7)
  {
    hide After;
    Leads(x, y, x, y, Some(0), SetCurrent(Some(1)), [DropOld(0)] + [TakeNew(1)], [], 7);
    assert [SetCurrent(Some(1))] + [] == [SetCurrent(Some(1))];
    assert [DropOld(0)] + [TakeNew(1)] + [] == [DropOld(0)] + [TakeNew(1)];
  }

  lemma IncomingTaken(x: Object, dying: Object)
    requires dying == Object(0, Destroying, 0, 1)
    ensures After(Two(x, dying, Some(1), [] + [TakeNew(1)]), 0, 1) == Some(Two(x, dying.(cTlsRefs := 1), Some(1), []))
  {
    var none: seq<Action> := [];
    Leads(x, dying, x, dying.(cTlsRefs := 1), Some(1), TakeNew(1), none, none, 0);
    assert none + [TakeNew(1)] == [TakeNew(1)] + none && none + none == none;
    assert After(Two(x, dying.(cTlsRefs := 1), Some(1), []), 0, 0) == Some(Two(x, dying.(cTlsRefs := 1), Some(1), []));
    hide After;
  }

  lemma TwoIsFine(x: Object, y: Object)
    requires x == Object(1, Initialized, 0, 0) && y == Object(1, Initialized, 1, 0)
    ensures Inv(Two(x, y, Some(0), [SetCurrent(Some(1))]))
  {
    var th := Thread(Some(0), [SetCurrent(Some(1))]);
    assert [th][1..] == [];
    forall o | o in {0, 1} ensures ObjectOk(Two(x, y, Some(0), [SetCurrent(Some(1))]), o) {
      assert Total([th], o, Net) == Net(th, o) && Total([th], o, Alarms) == Alarms(th, o);
    }
  }

  lemma TwoIsLive(x: Object, y: Object, dead: Object)
    requires x.state == y.state == Initialized && dead.state == Destroying
    ensures SlotsLive(Two(x, y, Some(0), [SetCurrent(Some(1))]))
        && !SlotsLive(Two(dead, dead.(cTlsRefs := 1), Some(1), []))
  {
    assert Two(dead, dead.(cTlsRefs := 1), Some(1), []).threads[0].slot == Some(1);
  }

  /**
   Slots do not stay live without the discipline: when the outgoing object's destructor gives up the last owner's
   reference to the incoming one, every single action is permitted and the slot ends up holding a destroyed object.
   */
  lemma OutgoingReleasesIncoming()
    ensures var x, y := Object(1, Initialized, 0, 0), Object(1, Initialized, 1, 0);
      var begin := Two(x, y, Some(0), [SetCurrent(Some(1))]);
      var end := Two(Object(0, Destroying, 0, 1), Object(1, Destroying, 0, 1), Some(1), []);
      Inv(begin) && SlotsLive(begin) && After(begin, 0, 8) == Some(end) && !SlotsLive(end)
  {
    var x, y := Object(1, Initialized, 0, 0), Object(1, Initialized, 1, 0);
    var zero, dead := Object(0, Initialized, 0, 0), Object(0, Destroying, 0, 1);
    TwoIsFine(x, y);
    TwoIsLive(x, y, dead);
    ExchangeStarts(x, y);
    OutgoingDies(x, zero, dead, y, [TakeNew(1)]);
    IncomingDies(dead, y, zero, dead, [TakeNew(1)]);
    IncomingTaken(dead, dead);
    hide *;
  }

  /** No assertion of a macro fails in that run: the counts stay right, and only the slot goes wrong. */
  lemma OutgoingAsserts()
    ensures var x, y := Object(1, Initialized, 0, 0), Object(1, Initialized, 1, 0);
      var dead := Object(0, Destroying, 0, 1);
      && AssertionHolds(Two(x, y, Some(1), [DropOld(0)] + [TakeNew(1)]), DropOld(0))
      && AssertionHolds(Two(dead, y, Some(1), [Release(1)] + [TakeNew(1)]), Release(1))
      && AssertionHolds(Two(dead, dead, Some(1), [] + [TakeNew(1)]), TakeNew(1))
      && Stranded(Two(dead, Object(0, Initialized, 0, 0), Some(1), [CheckState(1)] + [TakeNew(1)]), 1, 0)
  {
  }

  // ---- Two threads ----

  /** The world after the steps, if each is enabled. */
  function Follow(w: World, steps: seq<Step>): Option<World>
    decreases |steps|
  {
    if steps == [] then Some(w)
    else if Enabled(w, steps[0]) then Follow(Next(w, steps[0]), steps[1..])
    else None
  }

  lemma FollowOne(w: World, step: Step, rest: seq<Step>)
    requires Enabled(w, step)
    ensures Follow(w, [step] + rest) == Follow(Next(w, step), rest)
  {
  }

  /** One object with an idle destructor and two threads, of which only the first uses its slot. */
  function Pair(x: Object, slot: Option<ObjId>, todo: seq<Action>, todo': seq<Action>): World {
    World(map[0 := x], [Thread(slot, todo), Thread(None, todo')], map[0 := []])
  }

  lemma FirstActs(x: Object, x': Object, slot: Option<ObjId>, a: Action, pushed: seq<Action>, other: seq<Action>,
      rest: seq<Step>)
    requires var w, th := Pair(x, slot, [a], other), Thread(slot, [a]);
      Permitted(w, th, a) && !a.Init? && Pushed(w, th, a) == pushed && Objects(w, th, a)[0] == x'
    ensures Follow(Pair(x, slot, [a], other), [Work(0)] + rest)
         == Follow(Pair(x', if a.SetCurrent? then a.p else slot, pushed, other), rest)
  {
    var w := Pair(x, slot, [a], other);
    var w' := Pair(x', if a.SetCurrent? then a.p else slot, pushed, other);
    assert [a][1..] == [] && pushed + [] == pushed;
    assert Next(w, Work(0)).objs == w'.objs;
    assert Next(w, Work(0)).threads == w'.threads;
    hide Pushed, Objects, Follow;
    FollowOne(w, Work(0), rest);
  }

  lemma SecondActs(x: Object, x': Object, slot: Option<ObjId>, todo: seq<Action>, a: Action, pushed: seq<Action>,
      rest: seq<Step>)
    requires var w, th := Pair(x, slot, todo, [a]), Thread(None, [a]);
      Permitted(w, th, a) && !a.Init? && !a.SetCurrent? && Pushed(w, th, a) == pushed && Objects(w, th, a)[0] == x'
    ensures Follow(Pair(x, slot, todo, [a]), [Work(1)] + rest) == Follow(Pair(x', slot, todo, pushed), rest)
  {
    var w := Pair(x, slot, todo, [a]);
    var w' := Pair(x', slot, todo, pushed);
    assert [a][1..] == [] && pushed + [] == pushed;
    assert Next(w, Work(1)).objs == w'.objs;
    assert Next(w, Work(1)).threads == w'.threads;
    hide Pushed, Objects, Follow;
    FollowOne(w, Work(1), rest);
  }

  lemma FirstBegins(x: Object, slot: Option<ObjId>, call: Action, other: seq<Action>, rest: seq<Step>)
    requires IsMacro(call)
    ensures Follow(Pair(x, slot, [], other), [Begin(0, call)] + rest) == Follow(Pair(x, slot, [call], other), rest)
  {
    var w := Pair(x, slot, [], other);
    assert Next(w, Begin(0, call)).threads == Pair(x, slot, [call], other).threads;
    hide Follow;
    FollowOne(w, Begin(0, call), rest);
  }

  /** The second thread gives up the last reference before the first takes its own, which comes too late. */
  lemma TakenTooLate(x: Object, zero: Object, one: Object, rest: seq<Step>)
    requires x == Object(1, Initialized, 1, 0) && zero == Object(0, Initialized, 0, 0)
        && one == Object(1, Initialized, 0, 0)
    ensures Follow(Pair(x, None, [SetCurrent(Some(0))], [Release(0)]), [Work(0)] + ([Work(1)] + ([Work(0)] + rest)))
         == Follow(Pair(one, Some(0), [], [CheckState(0)]), rest)
    ensures !Covered(Pair(zero, Some(0), [TakeNew(0)], [CheckState(0)]))
    ensures !AssertionHolds(Pair(zero, Some(0), [TakeNew(0)], [CheckState(0)]), TakeNew(0))
  {
    LateIsUncovered(zero);
    hide Follow, Covered;
    FirstActs(x, x, None, SetCurrent(Some(0)), [TakeNew(0)], [Release(0)], [Work(1)] + ([Work(0)] + rest));
    SecondActs(x, zero, Some(0), [TakeNew(0)], Release(0), [CheckState(0)], [Work(0)] + rest);
    FirstActs(zero, one, Some(0), TakeNew(0), [], [CheckState(0)], rest);
  }

  lemma LateIsUncovered(zero: Object)
    requires zero == Object(0, Initialized, 0, 0)
    ensures !Covered(Pair(zero, Some(0), [TakeNew(0)], [CheckState(0)]))
  {
    var w := Pair(zero, Some(0), [TakeNew(0)], [CheckState(0)]);
    assert TakeNew(0) in w.threads[0].todo;
    assert Incoming(w, 0);
    assert w.threads[1..] == [w.threads[1]] && [w.threads[1]][1..] == [];
    assert Owed(w.threads[0], 0) <= 0 && Owed(w.threads[1], 0) <= 0;
    assert Total(w.threads, 0, Owed) == Owed(w.threads[0], 0) + Total([w.threads[1]], 0, Owed);
    assert Total([w.threads[1]], 0, Owed) == Owed(w.threads[1], 0) + Total([], 0, Owed);
  }

  /** The first thread empties its slot; both threads have seen a zero count and neither has seen the state change. */
  lemma BothSeeZero(one: Object, zero: Object, rest: seq<Step>)
    requires one == Object(1, Initialized, 0, 0) && zero == Object(0, Initialized, 0, 0)
    ensures Follow(Pair(one, Some(0), [], [CheckState(0)]),
                   [Begin(0, SetCurrent(None))] + ([Work(0)] + ([Work(0)] + ([Work(0)] + ([Work(1)] + rest)))))
         == Follow(Pair(zero, None, [Destroy(0)], [Destroy(0)]), rest)
  {
    hide Follow;
    FirstBegins(one, Some(0), SetCurrent(None), [CheckState(0)],
                [Work(0)] + ([Work(0)] + ([Work(0)] + ([Work(1)] + rest))));
    FirstActs(one, one, Some(0), SetCurrent(None), [DropOld(0)], [CheckState(0)],
              [Work(0)] + ([Work(0)] + ([Work(1)] + rest)));
    FirstActs(one, zero, None, DropOld(0), [CheckState(0)], [CheckState(0)], [Work(0)] + ([Work(1)] + rest));
    FirstActs(zero, zero, None, CheckState(0), [Destroy(0)], [CheckState(0)], [Work(1)] + rest);
    SecondActs(zero, zero, None, [Destroy(0)], CheckState(0), [Destroy(0)], rest);
  }

  lemma BothDestroy(zero: Object, once: Object, twice: Object, none: seq<Step>)
    requires zero == Object(0, Initialized, 0, 0) && once == Object(0, Destroying, 0, 1)
        && twice == Object(0, Destroying, 0, 2)
    requires none == []
    ensures Follow(Pair(zero, None, [Destroy(0)], [Destroy(0)]), [Work(0)] + ([Work(1)] + none))
        == Some(Pair(twice, None, [], []))
  {
    assert Follow(Pair(twice, None, [], []), none) == Some(Pair(twice, None, [], []));
    hide Follow;
    FirstActs(zero, once, None, Destroy(0), [], [Destroy(0)], [Work(1)] + none);
    SecondActs(once, twice, None, [], Destroy(0), [], none);
  }

  /**
   The once-only theorem fails without the discipline: one thread stores the slot, another releases the last reference
   before it is taken, and the destructor runs twice although every action was permitted.
   */
  lemma ExchangeDestroysTwice()
    ensures var begin := Pair(Object(1, Initialized, 1, 0), None, [SetCurrent(Some(0))], [Release(0)]);
      var steps := [Work(0), Work(1), Work(0), Begin(0, SetCurrent(None)),
                    Work(0), Work(0), Work(0), Work(1), Work(0), Work(1)];
      Inv(begin) && Follow(begin, steps) == Some(Pair(Object(0, Destroying, 0, 2), None, [], []))
  {
    hide *;
    var x := Object(1, Initialized, 1, 0);
    PairIsFine(x);
    var zero, one := Object(0, Initialized, 0, 0), Object(1, Initialized, 0, 0);
    var last := [Work(0)] + ([Work(1)] + []);
    var middle := [Begin(0, SetCurrent(None))] + ([Work(0)] + ([Work(0)] + ([Work(0)] + ([Work(1)] + last))));
    TenSteps(Work(0), Work(1), Begin(0, SetCurrent(None)));
    TakenTooLate(x, zero, one, middle);
    BothSeeZero(one, zero, last);
    BothDestroy(zero, Object(0, Destroying, 0, 1), Object(0, Destroying, 0, 2), []);
  }

  lemma TenSteps(a: Step, b: Step, c: Step)
    ensures [a, b, a, c, a, a, a, b, a, b]
         == [a] + ([b] + ([a] + ([c] + ([a] + ([a] + ([a] + ([b] + ([a] + ([b] + [])))))))))
  {
  }

  lemma PairIsFine(x: Object)
    requires x == Object(1, Initialized, 1, 0)
    ensures Inv(Pair(x, None, [SetCurrent(Some(0))], [Release(0)]))
  {
  }
}

/** Whole runs of the thread-slot protocol, and the disciplines on slot exchanges that keep them right. */
module TlsRuns {
  import opened Wrappers
  import opened TlsProtocol

  predicate IsRun(ws: seq<World>, steps: seq<Step>) {
    && |ws| == |steps| + 1
    && forall i :: 0 <= i < |steps| ==> Enabled(ws[i], steps[i]) && ws[i + 1] == Next(ws[i], steps[i])
  }

  /** Nothing exists, every slot is empty. */
  predicate Initial(w: World) {
    && w.objs == map[]
    && (forall t :: 0 <= t < |w.threads| ==> w.threads[t] == Thread(None, []))
    && forall o, a :: o in w.dtor && a in w.dtor[o] ==> IsMacro(a)
  }

  /** In the first `n` steps every assertion that a macro makes holds. */
  predicate AllAsserted(ws: seq<World>, steps: seq<Step>, n: nat)
    requires IsRun(ws, steps) && n <= |steps|
  {
    forall i :: 0 <= i < n ==> Asserted(ws[i], steps[i])
  }

  lemma {:induction false} RunKeeps(ws: seq<World>, steps: seq<Step>, n: nat)
    requires IsRun(ws, steps) && Initial(ws[0]) && n < |ws| && AllAsserted(ws, steps, n)
    ensures Inv(ws[n])
  {
    if n > 0 {
      RunKeeps(ws, steps, n - 1);
      StepKeeps(ws[n - 1], steps[n - 1]);
    }
  }

  lemma {:induction false} InvAsserts(ws: seq<World>, steps: seq<Step>, n: nat)
    requires IsRun(ws, steps) && n < |ws| && (forall i :: 0 <= i < |ws| ==> Inv(ws[i]))
    ensures AllAsserted(ws, steps, n)
  {
    hide Inv, Next, Enabled, Asserted;
    if n > 0 {
      InvAsserts(ws, steps, n - 1);
      assert Enabled(ws[n - 1], steps[n - 1]) && ws[n] == Next(ws[n - 1], steps[n - 1]) && Inv(ws[n]);
      StepKeepsExactly(ws[n - 1], steps[n - 1]);
    }
  }

  /** A run keeps the invariant throughout if and only if no assertion of a macro fails in it. */
  lemma RunKeepsExactly(ws: seq<World>, steps: seq<Step>)
    requires IsRun(ws, steps) && Initial(ws[0])
    ensures (forall i :: 0 <= i < |ws| ==> Inv(ws[i])) <==> AllAsserted(ws, steps, |steps|)
  {
    hide Inv, Next, Enabled, Initial;
    if AllAsserted(ws, steps, |steps|) {
      forall i | 0 <= i < |ws| ensures Inv(ws[i]) {
        RunKeeps(ws, steps, i);
      }
    }
    if forall i :: 0 <= i < |ws| ==> Inv(ws[i]) {
      InvAsserts(ws, steps, |steps|);
    }
  }

  /** Step `n` of the run calls the destructor of `o`. */
  predicate CallsDestructor(ws: seq<World>, steps: seq<Step>, n: nat, o: ObjId)
    requires IsRun(ws, steps)
  {
    && n < |steps|
    && steps[n].Work?
    && ws[n].threads[steps[n].t].todo[0] == Destroy(o)
  }

  /** Destruction is for good. */
  lemma {:induction false} StaysDestroyed(ws: seq<World>, steps: seq<Step>, m: nat, n: nat, o: ObjId)
    requires IsRun(ws, steps) && m <= n < |ws| && o in ws[m].objs && ws[m].objs[o].state == Destroying
    ensures o in ws[n].objs && ws[n].objs[o].state == Destroying
    decreases n - m
  {
    if m < n {
      var w, step := ws[m], steps[m];
      assert Enabled(w, step) && ws[m + 1] == Next(w, step);
      StaysDestroyed(ws, steps, m + 1, n, o);
    }
  }

  /**
   In any run without a failed assertion the destructor of an object is called at most once, when the count is zero.
   */
  lemma DestructorRunsOnce(ws: seq<World>, steps: seq<Step>, m: nat, n: nat, o: ObjId)
    requires IsRun(ws, steps) && Initial(ws[0]) && AllAsserted(ws, steps, |steps|)
    requires CallsDestructor(ws, steps, m, o) && CallsDestructor(ws, steps, n, o)
    ensures m == n
    ensures ws[n].objs[o].cTlsRefs == 0 && ws[n].objs[o].dtorRuns == 0
  {
    RunKeeps(ws, steps, m);
    RunKeeps(ws, steps, n);
    assert Enabled(ws[n], steps[n]) && Enabled(ws[m], steps[m]);
    DestructorDue(ws[n], steps[n].t, o);
    DestructorDue(ws[m], steps[m].t, o);
    if m < n {
      StaysDestroyed(ws, steps, m + 1, n, o);
    } else if n < m {
      StaysDestroyed(ws, steps, n + 1, m, o);
    }
  }

  /** An object whose count is zero is never referenced again before its destructor is called. */
  lemma {:induction false} ZeroAwaitsDestructor(ws: seq<World>, steps: seq<Step>, m: nat, n: nat, o: ObjId)
    requires IsRun(ws, steps) && AllAsserted(ws, steps, |steps|) && m <= n < |ws|
    requires o in ws[m].objs && ws[m].objs[o].cTlsRefs == 0
    ensures o in ws[n].objs && (ws[n].objs[o].state == Destroying || ws[n].objs[o].cTlsRefs == 0)
    decreases n - m
  {
    if ws[m].objs[o].state == Destroying {
      StaysDestroyed(ws, steps, m, n, o);
    } else if m < n {
      var w, step := ws[m], steps[m];
      assert Enabled(w, step) && ws[m + 1] == Next(w, step) && Asserted(w, step);
      if ws[m + 1].objs[o].state == Destroying {
        StaysDestroyed(ws, steps, m + 1, n, o);
      } else {
        ZeroAwaitsDestructor(ws, steps, m + 1, n, o);
      }
    }
  }

  /** By the time no macro is in progress, an object whose count was ever zero has been destroyed, once. */
  lemma ZeroIsDestroyed(ws: seq<World>, steps: seq<Step>, m: nat, n: nat, o: ObjId)
    requires IsRun(ws, steps) && Initial(ws[0]) && AllAsserted(ws, steps, |steps|) && m <= n < |ws|
    requires o in ws[m].objs && ws[m].objs[o].cTlsRefs == 0 && Quiet(ws[n])
    ensures o in ws[n].objs && ws[n].objs[o].dtorRuns == 1
  {
    ZeroAwaitsDestructor(ws, steps, m, n, o);
    RunKeeps(ws, steps, n);
    QuietAccounting(ws[n], o);
  }

  // ---- The discipline ----

  predicate Disciplined(ws: seq<World>) {
    forall i :: 0 <= i < |ws| ==> Covered(ws[i])
  }

  lemma EmptyWorldFine(w: World)
    requires Initial(w)
    ensures Inv(w) && SlotsLive(w)
  {
  }

  /** Under the discipline no assertion fails, and objects are not destroyed while a slot holds them. */
  lemma {:induction false} DisciplineSuffices(ws: seq<World>, steps: seq<Step>, n: nat)
    requires IsRun(ws, steps) && Initial(ws[0]) && Disciplined(ws) && n < |ws|
    ensures Inv(ws[n]) && AllAsserted(ws, steps, n)
    ensures (forall i :: 0 <= i < n ==> PutsInLive(ws[i], steps[i])) ==> SlotsLive(ws[n])
  {
    hide Inv, Next, Enabled, AssertionHolds, SlotsLive, PutsInLive, Covered;
    if n > 0 {
      DisciplineSuffices(ws, steps, n - 1);
      var w, step := ws[n - 1], steps[n - 1];
      assert Enabled(w, step) && ws[n] == Next(w, step) && Covered(w);
      if step.Work? {
        AssertionsHold(w, step.t);
      }
      StepKeeps(w, step);
      if SlotsLive(w) && PutsInLive(w, step) {
        SlotsStayLive(w, step);
      }
    } else {
      EmptyWorldFine(ws[0]);
    }
  }

  /** The thread is in the middle of at most one exchange, the one that filled its slot. */
  ghost predicate Flat(th: Thread) {
    && (forall p :: SetCurrent(p) in th.todo ==> th.todo == [SetCurrent(p)])
    && forall o :: multiset(th.todo)[TakeNew(o)] <= if th.slot == Some(o) then 1 else 0
  }

  ghost predicate DestructorsKeepSlots(w: World) {
    forall o, p :: o in w.dtor ==> SetCurrent(p) !in w.dtor[o]
  }

  lemma FlatKeeps(w: World, step: Step)
    requires Inv(w) && Enabled(w, step) && DestructorsKeepSlots(w) && Flat(w.threads[step.t])
    ensures Flat(Next(w, step).threads[step.t])
  {
    hide Worked, ObjectOk, ThreadOk, Pushed, Objects;
    if step.Work? {
      var th := w.threads[step.t];
      forall o: ObjId
        ensures multiset(Worked(w, th).todo)[TakeNew(o)] <= if Worked(w, th).slot == Some(o) then 1 else 0
      {
        FlatTakes(w, th, th.todo[0], o);
      }
      forall p | SetCurrent(p) in Worked(w, th).todo ensures false {
        FlatSets(w, th, th.todo[0], p);
      }
    }
  }

  lemma FlatTakes(w: World, th: Thread, a: Action, o: ObjId)
    requires th.todo != [] && a == th.todo[0] && Permitted(w, th, a) && Flat(th)
    requires a.Destroy? ==> forall b :: b in w.dtor[a.o] ==> IsMacro(b)
    ensures multiset(Worked(w, th).todo)[TakeNew(o)] <= if Worked(w, th).slot == Some(o) then 1 else 0
  {
    WorkedCounts(w, th, a, TakeNew(o));
    PushedCounts(w, th, a, o, multiset(Pushed(w, th, a)));
    if a.SetCurrent? {
      assert th.todo == [a];
    }
    hide Pushed, Permitted;
  }

  lemma FlatSets(w: World, th: Thread, a: Action, p: Option<ObjId>)
    requires th.todo != [] && a == th.todo[0] && Permitted(w, th, a) && Flat(th) && DestructorsKeepSlots(w)
    ensures SetCurrent(p) !in Worked(w, th).todo
  {
  }

  predicate IncomingHeld(w: World) {
    forall o :: o in w.objs && Incoming(w, o) ==> w.objs[o].held > 0
  }

  /**
   If no destructor exchanges a slot, nothing is ever owed, and the discipline is that some owner holds the incoming
   object.
   */
  lemma FlatDiscipline(w: World)
    requires forall t :: 0 <= t < |w.threads| ==> Flat(w.threads[t])
    ensures Covered(w) <==> IncomingHeld(w)
  {
    forall o ensures Total(w.threads, o, Owed) == 0 {
      TotalZero(w.threads, o, Owed);
    }
  }

  ghost predicate AllFlat(w: World) {
    DestructorsKeepSlots(w) && forall t :: 0 <= t < |w.threads| ==> Flat(w.threads[t])
  }

  lemma AllFlatKeeps(w: World, step: Step)
    requires Inv(w) && AllFlat(w) && Enabled(w, step) && Asserted(w, step)
    ensures Inv(Next(w, step)) && AllFlat(Next(w, step))
  {
    StepKeeps(w, step);
    FlatKeeps(w, step);
    hide Flat, Inv, Worked, Permitted;
  }

  /**
   The discipline in the callers' terms, for destructors that leave the slots alone: some owner holds what comes in.
   */
  lemma {:induction false} HoldingIncomingSuffices(ws: seq<World>, steps: seq<Step>, n: nat)
    requires IsRun(ws, steps) && Initial(ws[0]) && DestructorsKeepSlots(ws[0]) && n < |ws|
    requires forall i :: 0 <= i < |ws| ==> IncomingHeld(ws[i])
    ensures Inv(ws[n]) && Covered(ws[n]) && AllFlat(ws[n]) && AllAsserted(ws, steps, n)
  {
    if n > 0 {
      HoldingIncomingSuffices(ws, steps, n - 1);
      assert Enabled(ws[n - 1], steps[n - 1]) && ws[n] == Next(ws[n - 1], steps[n - 1]);
      if steps[n - 1].Work? {
        AssertionsHold(ws[n - 1], steps[n - 1].t);
      }
      hide Inv, AllFlat, IsRun, Enabled, Next, AssertionHolds;
      AllFlatKeeps(ws[n - 1], steps[n - 1]);
    }
    hide Inv, IsRun;
    assert IncomingHeld(ws[n]);
    FlatDiscipline(ws[n]);
  }

  // ---- When slots stay live ----

  /** A thread whose slot holds an object without references is still to take one. */
  lemma StrandedTakes(w: World, o: ObjId, t: nat)
    requires Inv(w) && AllFlat(w) && Stranded(w, o, t)
    ensures TakeNew(o) in w.threads[t].todo
  {
    if TakeNew(o) !in w.threads[t].todo {
      forall i | 0 <= i < |w.threads|
        ensures Net(w.threads[i], o) >= 0
      {
        assert Flat(w.threads[i]);
      }
      TotalMember(w.threads, t, o, Net);
    }
  }

  /** It stays so until the object is destroyed in the slot. */
  lemma StrandedPersists(w: World, step: Step, o: ObjId, t: nat)
    requires Inv(w) && AllFlat(w) && Enabled(w, step) && Asserted(w, step) && Stranded(w, o, t)
    requires SlotsLive(Next(w, step))
    ensures Stranded(Next(w, step), o, t)
  {
    StrandedTakes(w, o, t);
    hide Inv, Covered;
    assert Flat(w.threads[t]);
    if step.Work? {
      var a, w' := w.threads[step.t].todo[0], Next(w, step);
      WorkMoves(w, step.t, a, o);
      hide Pushed, Objects;
      assert w'.threads[t].slot == Some(o);
    }
  }

  lemma {:induction false} StrandedStays(ws: seq<World>, steps: seq<Step>, m: nat, n: nat, o: ObjId, t: nat)
    requires IsRun(ws, steps) && Initial(ws[0]) && DestructorsKeepSlots(ws[0]) && AllAsserted(ws, steps, |steps|)
    requires m <= n < |ws| && Stranded(ws[m], o, t) && forall i :: 0 <= i < |ws| ==> SlotsLive(ws[i])
    ensures Stranded(ws[n], o, t)
    decreases n - m
  {
    hide Inv, Next, Enabled, Asserted, SlotsLive, AllFlat, Initial, DestructorsKeepSlots, Stranded;
    if m < n {
      FlatRun(ws, steps, m);
      assert Enabled(ws[m], steps[m]) && ws[m + 1] == Next(ws[m], steps[m]) && Asserted(ws[m], steps[m]);
      assert SlotsLive(ws[m + 1]);
      StrandedPersists(ws[m], steps[m], o, t);
      StrandedStays(ws, steps, m + 1, n, o, t);
    }
  }

  lemma {:induction false} FlatRun(ws: seq<World>, steps: seq<Step>, n: nat)
    requires IsRun(ws, steps) && Initial(ws[0]) && DestructorsKeepSlots(ws[0]) && n < |ws| && AllAsserted(ws, steps, n)
    ensures Inv(ws[n]) && AllFlat(ws[n])
  {
    if n == 0 {
      EmptyWorldFine(ws[0]);
    } else {
      hide Inv, Next, Enabled, Asserted, AllFlat, Initial, DestructorsKeepSlots;
      FlatRun(ws, steps, n - 1);
      assert Enabled(ws[n - 1], steps[n - 1]) && ws[n] == Next(ws[n - 1], steps[n - 1])
          && Asserted(ws[n - 1], steps[n - 1]);
      AllFlatKeeps(ws[n - 1], steps[n - 1]);
    }
  }

  /** Slots stay live as long as none is stranded, whatever destructors do. */
  lemma {:induction false} NeverStrandedStaysLive(ws: seq<World>, steps: seq<Step>, n: nat)
    requires IsRun(ws, steps) && Initial(ws[0]) && n < |ws| && AllAsserted(ws, steps, n)
    requires forall i :: 0 <= i < n ==> PutsInLive(ws[i], steps[i])
    requires forall i, o, t :: 0 <= i < n ==> !Stranded(ws[i], o, t)
    ensures SlotsLive(ws[n])
  {
    hide Inv, Next, Enabled, Asserted, SlotsLive, PutsInLive, Stranded;
    if n == 0 {
      EmptyWorldFine(ws[0]);
    } else {
      hide Initial;
      NeverStrandedStaysLive(ws, steps, n - 1);
      RunKeeps(ws, steps, n - 1);
      assert Enabled(ws[n - 1], steps[n - 1]) && ws[n] == Next(ws[n - 1], steps[n - 1])
          && PutsInLive(ws[n - 1], steps[n - 1]);
      UnstrandedStaysLive(ws[n - 1], steps[n - 1]);
    }
  }

  /**
   In a run that ends between macros, without failed assertions, without destroyed objects put into slots and with
   destructors that leave slots alone, no slot ever holds a destroyed object if and only if no slot's object ever
   loses all its references.
   */
  lemma SlotsLiveExactly(ws: seq<World>, steps: seq<Step>)
    requires IsRun(ws, steps) && Initial(ws[0]) && DestructorsKeepSlots(ws[0]) && AllAsserted(ws, steps, |steps|)
    requires (forall i :: 0 <= i < |steps| ==> PutsInLive(ws[i], steps[i])) && Quiet(ws[|steps|])
    ensures (forall i :: 0 <= i < |ws| ==> SlotsLive(ws[i]))
            <==> (forall i, o, t :: 0 <= i < |ws| ==> !Stranded(ws[i], o, t))
  {
    hide Next, Enabled, Asserted, SlotsLive, PutsInLive, Initial, DestructorsKeepSlots, Inv;
    if forall i, o, t :: 0 <= i < |ws| ==> !Stranded(ws[i], o, t) {
      forall i | 0 <= i < |ws| ensures SlotsLive(ws[i]) {
        NeverStrandedStaysLive(ws, steps, i);
      }
    }
    if forall i :: 0 <= i < |ws| ==> SlotsLive(ws[i]) {
      forall i, o, t | 0 <= i < |ws| && Stranded(ws[i], o, t)
        ensures false
      {
        StrandedStays(ws, steps, i, |steps|, o, t);
        RunKeeps(ws, steps, |steps|);
        QuietAccounting(ws[|steps|], o);
      }
    }
  }
}

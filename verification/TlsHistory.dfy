/** What an object is at any point of a run, told from nothing but the actions threads have performed on it. */
module TlsHistory {
  import opened TlsProtocol
  import opened TlsRuns

  /** Step `i` of the run performs the action. */
  predicate Performs(ws: seq<World>, steps: seq<Step>, i: nat, a: Action)
    requires IsRun(ws, steps) && i < |steps|
  {
    assert Enabled(ws[i], steps[i]);
    steps[i].Work? && ws[i].threads[steps[i].t].todo[0] == a
  }

  /** How often threads have performed the action in the first `n` steps. */
  function Count(ws: seq<World>, steps: seq<Step>, a: Action, n: nat): nat
    requires IsRun(ws, steps) && n <= |steps|
  {
    if n == 0 then 0 else Count(ws, steps, a, n - 1) + if Performs(ws, steps, n - 1, a) then 1 else 0
  }

  /** An object exists once it has been initialized, which happens once and before anything else is done to it. */
  lemma {:induction false} ExistsOnceInitialized(ws: seq<World>, steps: seq<Step>, o: ObjId, n: nat)
    requires IsRun(ws, steps) && Initial(ws[0]) && n <= |steps|
    ensures Count(ws, steps, Init(o), n) == if o in ws[n].objs then 1 else 0
    ensures o !in ws[n].objs ==>
              && Count(ws, steps, AddRef(o), n) == Count(ws, steps, Release(o), n) == 0
              && Count(ws, steps, TakeNew(o), n) == Count(ws, steps, DropOld(o), n) == 0
              && Count(ws, steps, MarkDestroy(o), n) == Count(ws, steps, Destroy(o), n) == 0
  {
    if n > 0 {
      ExistsOnceInitialized(ws, steps, o, n - 1);
      assert Enabled(ws[n - 1], steps[n - 1]) && ws[n] == Next(ws[n - 1], steps[n - 1]);
    }
  }

  /**
   At every point of every run the references that owners hold are the first one and those added, less those released;
   the count has the slots' besides; the destructor has run as often as it was called; and the object is initialized
   until it is first marked or destroyed.
   */
  lemma {:induction false} ObjectIsItsHistory(ws: seq<World>, steps: seq<Step>, o: ObjId, n: nat)
    requires IsRun(ws, steps) && Initial(ws[0]) && n <= |steps| && o in ws[n].objs
    ensures var x := ws[n].objs[o];
      var owned := 1 + Count(ws, steps, AddRef(o), n) - Count(ws, steps, Release(o), n);
      && x.held == owned
      && x.cTlsRefs == owned + Count(ws, steps, TakeNew(o), n) - Count(ws, steps, DropOld(o), n)
      && x.dtorRuns == Count(ws, steps, Destroy(o), n)
      && x.state == if Count(ws, steps, Destroy(o), n) > 0 then Destroying
                    else if Count(ws, steps, MarkDestroy(o), n) > 0 then TobeDestroyed else Initialized
  {
    var w, step := ws[n - 1], steps[n - 1];
    assert Enabled(w, step) && ws[n] == Next(w, step);
    ExistsOnceInitialized(ws, steps, o, n - 1);
    if o in w.objs {
      ObjectIsItsHistory(ws, steps, o, n - 1);
      if step.Work? {
        WorkMoves(w, step.t, w.threads[step.t].todo[0], o);
        hide Next;
      }
    }
  }
}

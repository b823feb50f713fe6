/**
 The reference-counted thread-slot protocol: any number of objects and threads, interleaved between every two accesses
 to shared data. A macro is a list of atomic actions; a destructor is the list of macros it invokes.
 */
module TlsProtocol {
  import opened Wrappers

  type ObjId = nat

  datatype Life = Initialized | TobeDestroyed | Destroying

  /** `held` is the number of references owners hold, `dtorRuns` the number of destructor calls so far. */
  datatype Object = Object(cTlsRefs: int, state: Life, held: int, dtorRuns: nat)

  datatype Action =
    | Init(o: ObjId)
    | AddRef(o: ObjId)
    | Release(o: ObjId)
    | MarkDestroy(o: ObjId)
    | SetCurrent(p: Option<ObjId>)
    // the rest of a release that saw the count drop to zero
    | CheckState(o: ObjId)
    | Destroy(o: ObjId)
    // the rest of an exchange of the slot
    | DropOld(o: ObjId)
    | TakeNew(o: ObjId)

  /** A thread's slot and what it still has to do. */
  datatype Thread = Thread(slot: Option<ObjId>, todo: seq<Action>)

  /** `dtor` gives the macros that each object's destructor invokes. */
  datatype World = World(objs: map<ObjId, Object>, threads: seq<Thread>, dtor: map<ObjId, seq<Action>>)

  /** A thread that has nothing to do invokes a macro, or a thread performs its next action. */
  datatype Step = Begin(t: nat, call: Action) | Work(t: nat)

  predicate IsMacro(a: Action) {
    a.Init? || a.AddRef? || a.Release? || a.MarkDestroy? || a.SetCurrent?
  }

  /** What each macro asks of its caller; the inner actions ask for nothing but their object. */
  predicate Permitted(w: World, th: Thread, a: Action) {
    match a
    case Init(o) => o !in w.objs && o in w.dtor
    case AddRef(o) => o in w.objs && (w.objs[o].held > 0 || th.slot == Some(o) || w.objs[o].state == Destroying)
    case Release(o) => o in w.objs && w.objs[o].held > 0
    case MarkDestroy(o) => o in w.objs && w.objs[o].state != Destroying
    case SetCurrent(p) => p.Some? ==> p.value in w.objs
    case Destroy(o) => o in w.objs && o in w.dtor
    case CheckState(o) => o in w.objs
    case DropOld(o) => o in w.objs
    case TakeNew(o) => o in w.objs
  }

  predicate Enabled(w: World, step: Step) {
    && step.t < |w.threads|
    && var th := w.threads[step.t];
       if step.Begin? then th.todo == [] && IsMacro(step.call)
       else th.todo != [] && Permitted(w, th, th.todo[0])
  }

  function Counted(w: World, o: ObjId, refs: int, held: int): map<ObjId, Object>
    requires o in w.objs
  {
    var x := w.objs[o];
    w.objs[o := x.(cTlsRefs := x.cTlsRefs + refs, held := x.held + held)]
  }

  /** The objects after an action. */
  function Objects(w: World, th: Thread, a: Action): map<ObjId, Object>
    requires Permitted(w, th, a)
  {
    match a
    case Init(o) => w.objs[o := Object(1, Initialized, 1, 0)]
    case AddRef(o) => Counted(w, o, 1, 1)
    case Release(o) => Counted(w, o, -1, -1)
    case DropOld(o) => Counted(w, o, -1, 0)
    case TakeNew(o) => Counted(w, o, 1, 0)
    case MarkDestroy(o) => w.objs[o := w.objs[o].(state := TobeDestroyed)]
    case Destroy(o) => w.objs[o := w.objs[o].(state := Destroying, dtorRuns := w.objs[o].dtorRuns + 1)]
    case CheckState(_) => w.objs
    case SetCurrent(_) => w.objs
  }

  function Drops(p: Option<ObjId>): seq<Action> { if p.Some? then [DropOld(p.value)] else [] }
  function Takes(p: Option<ObjId>): seq<Action> { if p.Some? then [TakeNew(p.value)] else [] }

  /** What an action leaves to be done before the thread goes on with the rest. */
  function Pushed(w: World, th: Thread, a: Action): seq<Action>
    requires Permitted(w, th, a)
  {
    match a
    case Release(o) => if w.objs[o].cTlsRefs - 1 == 0 then [CheckState(o)] else []
    case DropOld(o) => if w.objs[o].cTlsRefs - 1 == 0 then [CheckState(o)] else []
    case CheckState(o) => if w.objs[o].state != Destroying then [Destroy(o)] else []
    case Destroy(o) => w.dtor[o]
    case SetCurrent(p) => if th.slot != p then Drops(th.slot) + Takes(p) else []
    case _ => []
  }

  function Worked(w: World, th: Thread): Thread
    requires th.todo != [] && Permitted(w, th, th.todo[0])
  {
    var a := th.todo[0];
    Thread(if a.SetCurrent? then a.p else th.slot, Pushed(w, th, a) + th.todo[1..])
  }

  function Next(w: World, step: Step): World
    requires Enabled(w, step)
  {
    var th := w.threads[step.t];
    match step
    case Begin(t, call) => w.(threads := w.threads[t := th.(todo := [call])])
    case Work(t) => w.(objs := Objects(w, th, th.todo[0]), threads := w.threads[t := Worked(w, th)])
  }

  // ---- What a thread accounts for ----

  /** The references to `o` that are in the count on the thread's behalf. */
  function Net(th: Thread, o: ObjId): int {
    var slots: int := if th.slot == Some(o) then 1 else 0;
    var dropping: int := multiset(th.todo)[DropOld(o)];
    slots + dropping - multiset(th.todo)[TakeNew(o)]
  }

  /** What a thread has given away of references it never took: negative in the middle of nested exchanges. */
  function Owed(th: Thread, o: ObjId): int {
    if Net(th, o) < 0 then Net(th, o) else 0
  }

  /** How many destructor calls the thread is about to make. */
  function Alarms(th: Thread, o: ObjId): int {
    multiset(th.todo)[CheckState(o)] + multiset(th.todo)[Destroy(o)]
  }

  function Dtors(th: Thread, o: ObjId): int {
    multiset(th.todo)[Destroy(o)]
  }

  function Total(ts: seq<Thread>, o: ObjId, f: (Thread, ObjId) -> int): int {
    if ts == [] then 0 else f(ts[0], o) + Total(ts[1..], o, f)
  }

  lemma {:induction false} TotalReplace(ts: seq<Thread>, i: nat, th: Thread, o: ObjId, f: (Thread, ObjId) -> int)
    requires i < |ts|
    ensures Total(ts[i := th], o, f) == Total(ts, o, f) - f(ts[i], o) + f(th, o)
  {
    if i == 0 {
      assert ts[0 := th][1..] == ts[1..];
    } else {
      TotalReplace(ts[1..], i - 1, th, o, f);
      assert ts[i := th][1..] == ts[1..][i - 1 := th];
    }
  }

  lemma {:induction false} TotalAtLeast(ts: seq<Thread>, o: ObjId, f: (Thread, ObjId) -> int, g: (Thread, ObjId) -> int)
    requires forall i :: 0 <= i < |ts| ==> f(ts[i], o) <= g(ts[i], o)
    ensures Total(ts, o, f) <= Total(ts, o, g)
  {
    if ts != [] {
      assert forall i :: 0 <= i < |ts[1..]| ==> ts[1..][i] == ts[i + 1];
      TotalAtLeast(ts[1..], o, f, g);
    }
  }

  lemma {:induction false} TotalMember(ts: seq<Thread>, t: nat, o: ObjId, f: (Thread, ObjId) -> int)
    requires forall i :: 0 <= i < |ts| ==> f(ts[i], o) >= 0
    ensures Total(ts, o, f) >= 0
    ensures t < |ts| ==> Total(ts, o, f) >= f(ts[t], o)
  {
    if ts != [] {
      assert forall i :: 0 <= i < |ts[1..]| ==> ts[1..][i] == ts[i + 1];
      TotalMember(ts[1..], if t == 0 then 0 else t - 1, o, f);
    }
  }

  lemma {:induction false} TotalZero(ts: seq<Thread>, o: ObjId, f: (Thread, ObjId) -> int)
    requires forall i :: 0 <= i < |ts| ==> f(ts[i], o) == 0
    ensures Total(ts, o, f) == 0
  {
    if ts != [] {
      assert forall i :: 0 <= i < |ts[1..]| ==> ts[1..][i] == ts[i + 1];
      TotalZero(ts[1..], o, f);
    }
  }

  // ---- The invariant ----

  predicate ObjectOk(w: World, o: ObjId)
    requires o in w.objs
  {
    var x := w.objs[o];
    && x.held >= 0 && x.cTlsRefs >= 0
    && x.cTlsRefs == x.held + Total(w.threads, o, Net)
    && if x.state == Destroying
       then x.dtorRuns == 1 && Total(w.threads, o, Dtors) == 0
       else x.dtorRuns == 0 && Total(w.threads, o, Alarms) == (if x.cTlsRefs == 0 then 1 else 0)
  }

  predicate ThreadOk(w: World, th: Thread) {
    && (th.slot.Some? ==> th.slot.value in w.objs)
    && forall a :: a in th.todo && !IsMacro(a) ==> a.o in w.objs
  }

  predicate Inv(w: World) {
    && (forall o :: o in w.objs ==> o in w.dtor && ObjectOk(w, o))
    && (forall t :: 0 <= t < |w.threads| ==> ThreadOk(w, w.threads[t]))
    && forall o, a :: o in w.dtor && a in w.dtor[o] ==> IsMacro(a)
  }

  /** Some thread has put `o` in its slot and not yet referenced it. */
  predicate Incoming(w: World, o: ObjId) {
    exists t :: 0 <= t < |w.threads| && TakeNew(o) in w.threads[t].todo
  }

  /**
   The discipline on slot exchanges: until the incoming object is referenced, owners hold more references to it than
   exchanges in progress have given away.
   */
  predicate Covered(w: World) {
    forall o :: o in w.objs && Incoming(w, o) ==> w.objs[o].held + Total(w.threads, o, Owed) > 0
  }

  /** Somebody may still reach `o`: an owner, a slot, or an exchange in progress. */
  predicate Reachable(w: World, o: ObjId, t: nat)
    requires o in w.objs
  {
    || w.objs[o].held > 0
    || (t < |w.threads|
        && (w.threads[t].slot == Some(o) || DropOld(o) in w.threads[t].todo || TakeNew(o) in w.threads[t].todo))
  }

  /** An object somebody may still reach has a positive count, so only dead objects have none. */
  lemma ReachableIsCounted(w: World, o: ObjId, t: nat)
    requires Inv(w) && Covered(w) && o in w.objs && Reachable(w, o, t)
    ensures w.objs[o].cTlsRefs >= 1
  {
    if Incoming(w, o) {
      TotalAtLeast(w.threads, o, Owed, Net);
    } else {
      TotalMember(w.threads, t, o, Net);
    }
  }

  lemma ExchangePushes(w: World, th: Thread, p: Option<ObjId>, o: ObjId, pushed: multiset<Action>)
    requires Permitted(w, th, SetCurrent(p)) && pushed == multiset(Pushed(w, th, SetCurrent(p)))
    ensures pushed[DropOld(o)] == (if th.slot != p && th.slot == Some(o) then 1 else 0)
    ensures pushed[TakeNew(o)] == (if th.slot != p && p == Some(o) then 1 else 0)
    ensures pushed[Destroy(o)] == pushed[CheckState(o)] == 0
  {
  }

  /** How many inner actions of each kind an action pushes. */
  lemma PushedCounts(w: World, th: Thread, a: Action, o: ObjId, pushed: multiset<Action>)
    requires Permitted(w, th, a) && pushed == multiset(Pushed(w, th, a))
    requires a.Destroy? ==> forall b :: b in w.dtor[a.o] ==> IsMacro(b)
    ensures pushed[DropOld(o)] == (if a.SetCurrent? && th.slot != a.p && th.slot == Some(o) then 1 else 0)
    ensures pushed[TakeNew(o)] == (if a.SetCurrent? && th.slot != a.p && a.p == Some(o) then 1 else 0)
    ensures pushed[Destroy(o)] == (if a == CheckState(o) && w.objs[o].state != Destroying then 1 else 0)
    ensures pushed[CheckState(o)] == (if (a == Release(o) || a == DropOld(o)) && w.objs[o].cTlsRefs == 1 then 1 else 0)
  {
    match a {
      case Destroy(x) =>
        assert !IsMacro(DropOld(o)) && !IsMacro(TakeNew(o)) && !IsMacro(CheckState(o)) && !IsMacro(Destroy(o));
        assert DropOld(o) !in Pushed(w, th, a) && TakeNew(o) !in Pushed(w, th, a)
            && CheckState(o) !in Pushed(w, th, a) && Destroy(o) !in Pushed(w, th, a);
      case SetCurrent(p) =>
        ExchangePushes(w, th, p, o, pushed);
      case _ =>
    }
  }

  lemma WorkedCounts(w: World, th: Thread, a: Action, b: Action)
    requires th.todo != [] && a == th.todo[0] && Permitted(w, th, a)
    ensures multiset(Worked(w, th).todo)[b]
         == multiset(th.todo)[b] - (if a == b then 1 else 0) + multiset(Pushed(w, th, a))[b]
  {
    hide Pushed, Permitted;
    assert th.todo == [a] + th.todo[1..];
  }

  /** How one action of a thread moves its share of each count. */
  lemma WorkedShares(w: World, th: Thread, a: Action, o: ObjId)
    requires th.todo != [] && a == th.todo[0] && Permitted(w, th, a)
    requires a.Destroy? ==> forall b :: b in w.dtor[a.o] ==> IsMacro(b)
    ensures Net(Worked(w, th), o) - Net(th, o) == (if a == DropOld(o) then -1 else if a == TakeNew(o) then 1 else 0)
    ensures Dtors(Worked(w, th), o) - Dtors(th, o)
         == (if a == Destroy(o) then -1 else if a == CheckState(o) && w.objs[o].state != Destroying then 1 else 0)
    ensures Alarms(Worked(w, th), o) - Alarms(th, o)
         == (if a == Destroy(o) || (a == CheckState(o) && w.objs[o].state == Destroying) then -1
             else if (a == Release(o) || a == DropOld(o)) && w.objs[o].cTlsRefs == 1 then 1 else 0)
  {
    PushedCounts(w, th, a, o, multiset(Pushed(w, th, a)));
    WorkedCounts(w, th, a, DropOld(o));
    WorkedCounts(w, th, a, TakeNew(o));
    WorkedCounts(w, th, a, CheckState(o));
    WorkedCounts(w, th, a, Destroy(o));
    hide Pushed, Permitted;
  }

  /** What one action does to each object and to the threads. */
  lemma WorkMoves(w: World, t: nat, a: Action, o: ObjId)
    requires Enabled(w, Work(t)) && o in w.objs && a == w.threads[t].todo[0]
    ensures var x, w' := w.objs[o], Next(w, Work(t));
      && o in w'.objs && w'.threads == w.threads[t := Worked(w, w.threads[t])]
      && w'.objs[o] == Object(
           x.cTlsRefs + (if a == AddRef(o) || a == TakeNew(o) then 1
                         else if a == Release(o) || a == DropOld(o) then -1 else 0),
           if a == Destroy(o) then Destroying else if a == MarkDestroy(o) then TobeDestroyed else x.state,
           x.held + (if a == AddRef(o) then 1 else if a == Release(o) then -1 else 0),
           x.dtorRuns + if a == Destroy(o) then 1 else 0)
  {
  }

  /** The two assertions the macros make about the new count. */
  predicate AssertionHolds(w: World, a: Action) {
    match a
    case AddRef(o) => o in w.objs && (w.objs[o].cTlsRefs + 1 > 1 || w.objs[o].state == Destroying)
    case TakeNew(o) => o in w.objs && (w.objs[o].cTlsRefs + 1 > 1 || w.objs[o].state == Destroying)
    case Release(o) => o in w.objs && w.objs[o].cTlsRefs - 1 >= 0
    case DropOld(o) => o in w.objs && w.objs[o].cTlsRefs - 1 >= 0
    case _ => true
  }

  lemma WorkKeepsCount(w: World, t: nat, a: Action, o: ObjId)
    requires Inv(w) && Enabled(w, Work(t)) && o in w.objs && a == w.threads[t].todo[0]
    ensures var w' := Next(w, Work(t));
      o in w'.objs && w'.objs[o].held >= 0 && w'.objs[o].cTlsRefs == w'.objs[o].held + Total(w'.threads, o, Net)
    ensures AssertionHolds(w, a) ==> Next(w, Work(t)).objs[o].cTlsRefs >= 0
  {
    hide Pushed, Worked, Objects, Next, Net;
    WorkMoves(w, t, a, o);
    WorkedShares(w, w.threads[t], a, o);
    TotalReplace(w.threads, t, Worked(w, w.threads[t]), o, Net);
  }

  /** When a destructor is about to be called the count is zero, and no destructor of the object was called before. */
  lemma DestructorDue(w: World, t: nat, o: ObjId)
    requires Inv(w) && t < |w.threads| && o in w.objs && Destroy(o) in w.threads[t].todo
    ensures w.objs[o].cTlsRefs == 0 && w.objs[o].dtorRuns == 0 && w.objs[o].state != Destroying
    ensures Total(w.threads, o, Dtors) == Total(w.threads, o, Alarms) == 1
  {
    TotalMember(w.threads, t, o, Dtors);
    TotalMember(w.threads, t, o, Alarms);
    TotalAtLeast(w.threads, o, Dtors, Alarms);
  }

  lemma WorkKeepsDestroyed(w: World, t: nat, a: Action, o: ObjId)
    requires Inv(w) && Enabled(w, Work(t)) && o in w.objs && a == w.threads[t].todo[0]
    ensures var w' := Next(w, Work(t));
      o in w'.objs && (w'.objs[o].state == Destroying ==> w'.objs[o].dtorRuns == 1 && Total(w'.threads, o, Dtors) == 0)
  {
    hide Pushed, Worked, Objects, Next, Dtors, Alarms, Net;
    WorkMoves(w, t, a, o);
    WorkedShares(w, w.threads[t], a, o);
    TotalReplace(w.threads, t, Worked(w, w.threads[t]), o, Dtors);
    if a == Destroy(o) {
      DestructorDue(w, t, o);
    }
  }

  lemma WorkKeepsAlive(w: World, t: nat, a: Action, o: ObjId)
    requires Inv(w) && Enabled(w, Work(t)) && o in w.objs && a == w.threads[t].todo[0] && AssertionHolds(w, a)
    ensures var w' := Next(w, Work(t));
      && o in w'.objs
      && (w'.objs[o].state != Destroying
          ==> w'.objs[o].dtorRuns == 0 && Total(w'.threads, o, Alarms) == (if w'.objs[o].cTlsRefs == 0 then 1 else 0))
  {
    hide Pushed, Worked, Objects, Next, Dtors, Alarms, Net;
    WorkMoves(w, t, a, o);
    WorkedShares(w, w.threads[t], a, o);
    TotalReplace(w.threads, t, Worked(w, w.threads[t]), o, Alarms);
  }

  lemma WorkKeepsThreads(w: World, t: nat, a: Action, i: nat)
    requires Inv(w) && Enabled(w, Work(t)) && i < |w.threads| && a == w.threads[t].todo[0]
    ensures w.objs.Keys <= Next(w, Work(t)).objs.Keys
    ensures ThreadOk(Next(w, Work(t)), Next(w, Work(t)).threads[i])
  {
    var th := w.threads[t];
    var w' := Next(w, Work(t));
    if i == t {
      forall b | b in Pushed(w, th, a) && !IsMacro(b) ensures b.o in w'.objs {}
    } else {
      assert ThreadOk(w, w.threads[i]);
    }
  }

  lemma InitStarts(w: World, t: nat, o: ObjId)
    requires Inv(w) && Enabled(w, Work(t)) && w.threads[t].todo[0] == Init(o)
    ensures ObjectOk(Next(w, Work(t)), o)
  {
    var w' := Next(w, Work(t));
    forall i | 0 <= i < |w'.threads|
      ensures Net(w'.threads[i], o) == 0 && Dtors(w'.threads[i], o) == 0 && Alarms(w'.threads[i], o) == 0
    {
      var todo := w.threads[i].todo;
      assert ThreadOk(w, w.threads[i]);
      assert DropOld(o) !in todo && TakeNew(o) !in todo && CheckState(o) !in todo && Destroy(o) !in todo;
      assert forall b :: b in w'.threads[i].todo ==> b in todo;
    }
    TotalZero(w'.threads, o, Net);
    TotalZero(w'.threads, o, Dtors);
    TotalZero(w'.threads, o, Alarms);
  }

  lemma BeginKeeps(w: World, t: nat, call: Action)
    requires Inv(w) && Enabled(w, Begin(t, call))
    ensures Inv(Next(w, Begin(t, call)))
  {
    var w' := Next(w, Begin(t, call));
    var th, th' := w.threads[t], w'.threads[t];
    forall o | o in w.objs ensures ObjectOk(w', o) {
      assert ObjectOk(w, o);
      assert !IsMacro(DropOld(o)) && !IsMacro(TakeNew(o)) && !IsMacro(CheckState(o)) && !IsMacro(Destroy(o));
      assert Net(th', o) == Net(th, o) && Dtors(th', o) == Dtors(th, o) && Alarms(th', o) == Alarms(th, o);
      TotalReplace(w.threads, t, th', o, Net);
      TotalReplace(w.threads, t, th', o, Dtors);
      TotalReplace(w.threads, t, th', o, Alarms);
    }
    forall i | 0 <= i < |w'.threads| ensures ThreadOk(w', w'.threads[i]) {
      assert ThreadOk(w, w.threads[i]);
    }
  }

  /** The macro's own assertion about the new count holds in this step. */
  predicate Asserted(w: World, step: Step)
    requires Enabled(w, step)
  {
    step.Work? ==> AssertionHolds(w, w.threads[step.t].todo[0])
  }

  /**
   A step of any thread keeps the counts equal to the references held and the slots, and exactly one destructor call due
   while a count is zero, if the macro's own assertion holds.
   */
  lemma StepKeeps(w: World, step: Step)
    requires Inv(w) && Enabled(w, step) && Asserted(w, step)
    ensures Inv(Next(w, step))
  {
    match step {
      case Begin(t, call) => BeginKeeps(w, t, call);
      case Work(t) =>
        var w' := Next(w, step);
        var a := w.threads[t].todo[0];
        forall o | o in w'.objs ensures o in w'.dtor && ObjectOk(w', o) {
          if o in w.objs {
            WorkKeepsCount(w, t, a, o);
            WorkKeepsDestroyed(w, t, a, o);
            WorkKeepsAlive(w, t, a, o);
          } else {
            InitStarts(w, t, o);
          }
        }
        forall i | 0 <= i < |w'.threads| ensures ThreadOk(w', w'.threads[i]) {
          WorkKeepsThreads(w, t, a, i);
        }
    }
  }

  /**
   What a failed assertion means: the count is negative, or an object that now has a reference is about to be destroyed.
   */
  lemma AssertionFails(w: World, t: nat, a: Action)
    requires Inv(w) && Enabled(w, Work(t)) && a == w.threads[t].todo[0] && !AssertionHolds(w, a)
    ensures var w' := Next(w, Work(t));
      && a.o in w'.objs
      && (w'.objs[a.o].cTlsRefs == -1
          || (w'.objs[a.o].cTlsRefs == 1 && w'.objs[a.o].state != Destroying && Total(w'.threads, a.o, Alarms) == 1))
  {
    hide Pushed, Worked, Objects, Next, Dtors, Alarms, Net;
    WorkMoves(w, t, a, a.o);
    WorkedShares(w, w.threads[t], a, a.o);
    TotalReplace(w.threads, t, Worked(w, w.threads[t]), a.o, Alarms);
  }

  /** A step keeps the invariant if and only if the macro's own assertion holds. */
  lemma StepKeepsExactly(w: World, step: Step)
    requires Inv(w) && Enabled(w, step)
    ensures Inv(Next(w, step)) <==> Asserted(w, step)
  {
    if Asserted(w, step) {
      StepKeeps(w, step);
    } else {
      AssertionFails(w, step.t, w.threads[step.t].todo[0]);
      hide Next, Enabled, AssertionHolds, Alarms, Net, Dtors;
      assert !ObjectOk(Next(w, step), w.threads[step.t].todo[0].o);
    }
  }

  /** Under the discipline none of the macros' own assertions fails. */
  lemma AssertionsHold(w: World, t: nat)
    requires Inv(w) && Covered(w) && Enabled(w, Work(t))
    ensures AssertionHolds(w, w.threads[t].todo[0])
  {
    var a := w.threads[t].todo[0];
    if a.AddRef? || a.TakeNew? || a.Release? || a.DropOld? {
      assert Reachable(w, a.o, t) || (w.objs[a.o].state == Destroying && a.AddRef?);
      if Reachable(w, a.o, t) {
        ReachableIsCounted(w, a.o, t);
      }
    }
  }

  // ---- Slots ----

  /** No slot holds an object whose destructor has been called. */
  predicate SlotsLive(w: World) {
    forall t :: 0 <= t < |w.threads| && w.threads[t].slot.Some?
      ==> w.threads[t].slot.value in w.objs && w.objs[w.threads[t].slot.value].state != Destroying
  }

  /** The step does not put a destroyed object into a slot. */
  predicate PutsInLive(w: World, step: Step)
    requires Enabled(w, step)
  {
    step.Work? ==>
      var a := w.threads[step.t].todo[0];
      a.SetCurrent? && a.p.Some? ==> a.p.value in w.objs && w.objs[a.p.value].state != Destroying
  }

  /** The slot of thread `t` holds an object whose count is zero and whose destructor is still to be called. */
  predicate Stranded(w: World, o: ObjId, t: nat) {
    && t < |w.threads| && w.threads[t].slot == Some(o)
    && o in w.objs && w.objs[o].cTlsRefs == 0 && w.objs[o].state != Destroying
  }

  /** Unless a slot's object has lost all its references, no object is destroyed while a slot holds it. */
  lemma UnstrandedStaysLive(w: World, step: Step)
    requires Inv(w) && Enabled(w, step) && SlotsLive(w) && PutsInLive(w, step)
    requires forall o, t :: !Stranded(w, o, t)
    ensures SlotsLive(Next(w, step))
  {
    if step.Work? {
      var t, w' := step.t, Next(w, step);
      var a := w.threads[t].todo[0];
      forall i | 0 <= i < |w.threads| && w'.threads[i].slot.Some?
        ensures w'.threads[i].slot.value in w'.objs && w'.objs[w'.threads[i].slot.value].state != Destroying
      {
        var o := w'.threads[i].slot.value;
        assert o in w.objs && w.objs[o].state != Destroying;
        WorkMoves(w, t, a, o);
        if a == Destroy(o) {
          DestructorDue(w, t, o);
          assert Stranded(w, o, i);
        }
      }
    }
  }

  /** Under the discipline no object is destroyed while a slot holds it. */
  lemma SlotsStayLive(w: World, step: Step)
    requires Inv(w) && Covered(w) && Enabled(w, step) && SlotsLive(w) && PutsInLive(w, step)
    ensures SlotsLive(Next(w, step))
  {
    hide Inv, Covered, SlotsLive, PutsInLive, Enabled, Next;
    forall o, t | Stranded(w, o, t)
      ensures false
    {
      ReachableIsCounted(w, o, t);
    }
    UnstrandedStaysLive(w, step);
  }

  /** Once a macro has begun, its inner actions can always go on. */
  lemma InnerActionsGoOn(w: World, t: nat)
    requires Inv(w) && t < |w.threads| && w.threads[t].todo != [] && !IsMacro(w.threads[t].todo[0])
    ensures Enabled(w, Work(t))
  {
  }

  // ---- Between macros ----

  predicate Quiet(w: World) {
    forall t :: 0 <= t < |w.threads| ==> w.threads[t].todo == []
  }

  /** The number of threads whose slot holds `o`. */
  function SlotsOn(ts: seq<Thread>, o: ObjId): nat {
    if ts == [] then 0 else (if ts[0].slot == Some(o) then 1 else 0) + SlotsOn(ts[1..], o)
  }

  lemma {:induction false} QuietNet(ts: seq<Thread>, o: ObjId)
    requires forall t :: 0 <= t < |ts| ==> ts[t].todo == []
    ensures Total(ts, o, Net) == SlotsOn(ts, o)
  {
    if ts != [] {
      assert forall i :: 0 <= i < |ts[1..]| ==> ts[1..][i] == ts[i + 1];
      QuietNet(ts[1..], o);
    }
  }

  /**
   When no macro is in progress the count is the owners' references plus the slots, and the destructor has run, once,
   exactly for the objects in the destroying state; every other object has a reference.
   */
  lemma QuietAccounting(w: World, o: ObjId)
    requires Inv(w) && Quiet(w) && o in w.objs
    ensures w.objs[o].cTlsRefs == w.objs[o].held + SlotsOn(w.threads, o)
    ensures w.objs[o].dtorRuns == if w.objs[o].state == Destroying then 1 else 0
    ensures w.objs[o].state != Destroying ==> w.objs[o].cTlsRefs >= 1
  {
    QuietNet(w.threads, o);
    TotalZero(w.threads, o, Alarms);
  }

  // ---- Uninterrupted threads ----

  /** The state after the thread's next `n` actions, if each is permitted. */
  function After(w: World, t: nat, n: nat): Option<World>
    decreases n
  {
    if n == 0 then Some(w)
    else if Enabled(w, Work(t)) then After(Next(w, Work(t)), t, n - 1)
    else None
  }
}

/** The macros as they update an object in place are the uninterrupted runs of the atomic actions. */
module TlsRefinement {
  import opened Wrappers
  import opened TlsProtocol
  import opened TlsObjects

  /** A destructor's uses of the object it destroys, as the macros it invokes. */
  function Script(o: ObjId, uses: seq<Use>): (s: seq<Action>)
    ensures |s| == |uses|
  {
    if uses == [] then []
    else [if uses[0].Add? then Action.AddRef(o) else Action.Release(o)] + Script(o, uses[1..])
  }

  function RefsOf(x: Object): Refs { Refs(x.cTlsRefs, x.state, x.dtorRuns) }

  /** `o` holds what the in-place macro leaves, and owners hold `held` references. */
  function ObjectWith(r: Refs, held: int): Object { Object(r.count, r.state, held, r.runs) }

  /** The world with one object changed and one thread left with `todo`. */
  function With(w: World, t: nat, o: ObjId, x: Object, todo: seq<Action>): World
    requires t < |w.threads|
  {
    w.(objs := w.objs[o := x], threads := w.threads[t := w.threads[t].(todo := todo)])
  }

  lemma {:induction false} AfterChains(w: World, t: nat, m: nat, v: World, n: nat)
    requires After(w, t, m) == Some(v)
    ensures After(w, t, m + n) == After(v, t, n)
    decreases m
  {
    if m > 0 {
      AfterChains(Next(w, Work(t)), t, m - 1, v, n);
    }
  }

  /** One action on `o` by a thread. */
  lemma ActsOn(w: World, t: nat, o: ObjId, a: Action, x: Object, pushed: seq<Action>, rest: seq<Action>)
    requires t < |w.threads| && w.threads[t].todo == [a] + rest && Permitted(w, w.threads[t], a) && !a.SetCurrent?
    requires Objects(w, w.threads[t], a) == w.objs[o := x] && Pushed(w, w.threads[t], a) == pushed
    ensures After(w, t, 1) == Some(With(w, t, o, x, pushed + rest))
  {
  }

  /** Two stretches of work on the same object, one after the other. */
  lemma Onward(w: World, t: nat, o: ObjId, x: Object, todo: seq<Action>, m: nat, x': Object, todo': seq<Action>, n: nat)
    requires t < |w.threads| && After(w, t, m) == Some(With(w, t, o, x, todo))
    requires After(With(w, t, o, x, todo), t, n) == Some(With(With(w, t, o, x, todo), t, o, x', todo'))
    ensures After(w, t, m + n) == Some(With(w, t, o, x', todo'))
  {
    AfterChains(w, t, m, With(w, t, o, x, todo), n);
    hide After;
    assert With(With(w, t, o, x, todo), t, o, x', todo') == With(w, t, o, x', todo');
  }

  /** The references owners hold once `a` has given up an owner's reference, or the slot's. */
  function Kept(x: Object, a: Action): int { if a.Release? then x.held - 1 else x.held }

  /** A decrement that the thread performs, and the look at the state when the count is zero. */
  lemma Releases(w: World, t: nat, o: ObjId, a: Action, x: Object, y: Object, pushed: seq<Action>, rest: seq<Action>)
    returns (n: nat)
    requires t < |w.threads| && w.threads[t].todo == [a] + rest && o in w.objs && x == w.objs[o]
    requires (a == Action.Release(o) && x.held > 0) || a == DropOld(o)
    requires y == x.(cTlsRefs := x.cTlsRefs - 1, held := Kept(x, a))
    requires pushed == if x.cTlsRefs == 1 && x.state != Destroying then [Destroy(o)] else []
    ensures After(w, t, n) == Some(With(w, t, o, y, pushed + rest))
  {
    var check := if x.cTlsRefs == 1 then [CheckState(o)] else [];
    ActsOn(w, t, o, a, y, check, rest);
    n := 1;
    if x.cTlsRefs == 1 {
      var v := With(w, t, o, y, check + rest);
      assert v.objs[o := y] == v.objs;
      ActsOn(v, t, o, CheckState(o), y, pushed, rest);
      hide After;
      Onward(w, t, o, y, check + rest, 1, y, pushed + rest, 1);
      n := 2;
    }
  }

  /** One use that a destructor makes of its object. */
  lemma UseRuns(w: World, t: nat, o: ObjId, x: Object, use: Use, y: Object, rest: seq<Action>) returns (n: nat)
    requires t < |w.threads| && o in w.objs && x == w.objs[o] && x.state == Destroying && (use.Drop? ==> x.held > 0)
    requires w.threads[t].todo == [if use.Add? then Action.AddRef(o) else Action.Release(o)] + rest
    requires var change := if use.Add? then 1 else -1;
      y == x.(cTlsRefs := x.cTlsRefs + change, held := x.held + change)
    ensures After(w, t, n) == Some(With(w, t, o, y, rest))
  {
    var none: seq<Action> := [];
    assert none + rest == rest;
    hide After;
    if use.Add? {
      ActsOn(w, t, o, Action.AddRef(o), y, none, rest);
      n := 1;
    } else {
      n := Releases(w, t, o, Action.Release(o), x, y, none, rest);
    }
  }

  lemma NothingToDo(w: World, t: nat, o: ObjId, rest: seq<Action>)
    requires t < |w.threads| && o in w.objs && w.threads[t].todo == rest
    ensures After(w, t, 0) == Some(With(w, t, o, w.objs[o], rest))
  {
    assert w.objs[o := w.objs[o]] == w.objs;
    assert w.threads[t := w.threads[t]] == w.threads;
  }

  /** What a destructor does by its own macros is what `Used` says. */
  lemma {:induction false} UsesRun(w: World, t: nat, o: ObjId, x: Object, uses: seq<Use>, y: Object, rest: seq<Action>)
    returns (n: nat)
    requires t < |w.threads| && w.threads[t].todo == Script(o, uses) + rest && o in w.objs && x == w.objs[o]
    requires x.state == Destroying && OwnsWhatItDrops(x.held, uses)
    requires y == x.(cTlsRefs := x.cTlsRefs + Balance(uses), held := x.held + Balance(uses))
    ensures After(w, t, n) == Some(With(w, t, o, y, rest))
    decreases |uses|
  {
    hide After;
    if uses == [] {
      assert Script(o, uses) + rest == rest;
      NothingToDo(w, t, o, rest);
      n := 0;
    } else {
      var change := if uses[0].Add? then 1 else -1;
      var z := x.(cTlsRefs := x.cTlsRefs + change, held := x.held + change);
      var more := Script(o, uses[1..]) + rest;
      assert Script(o, uses) + rest == [if uses[0].Add? then Action.AddRef(o) else Action.Release(o)] + more;
      var first := UseRuns(w, t, o, x, uses[0], z, more);
      var last := UsesRun(With(w, t, o, z, more), t, o, z, uses[1..], y, rest);
      hide With;
      Onward(w, t, o, z, more, first, y, rest, last);
      n := first + last;
    }
  }

  /**
   A thread that is not interrupted gives up a reference, destructor and all, exactly as the in-place macro does: same
   count, same state, same number of destructor calls.
   */
  lemma ReleaseRuns(w: World, t: nat, o: ObjId, a: Action, x: Object, dtor: seq<Use>, rest: seq<Action>)
    returns (n: nat)
    requires t < |w.threads| && w.threads[t].todo == [a] + rest && o in w.objs && x == w.objs[o]
    requires (a == Action.Release(o) && x.held > 0) || a == DropOld(o)
    requires o in w.dtor && w.dtor[o] == Script(o, dtor) && OwnsWhatItDrops(Kept(x, a), dtor)
    ensures var held := Kept(x, a) + if x.cTlsRefs == 1 && x.state != Destroying then Balance(dtor) else 0;
            After(w, t, n) == Some(With(w, t, o, ObjectWith(Released(RefsOf(x), dtor), held), rest))
  {
    hide After;
    var y := x.(cTlsRefs := x.cTlsRefs - 1, held := Kept(x, a));
    if x.cTlsRefs == 1 && x.state != Destroying {
      LastRelease(RefsOf(x), dtor);
      n := LastReleaseRuns(w, t, o, a, x, y, y.(state := Destroying, dtorRuns := x.dtorRuns + 1), dtor, rest);
    } else {
      assert [] + rest == rest;
      n := Releases(w, t, o, a, x, y, [], rest);
    }
  }

  lemma LastReleaseRuns(w: World, t: nat, o: ObjId, a: Action, x: Object, y: Object, z: Object, dtor: seq<Use>,
                        rest: seq<Action>) returns (n: nat)
    requires t < |w.threads| && w.threads[t].todo == [a] + rest && o in w.objs && x == w.objs[o]
    requires (a == Action.Release(o) && x.held > 0) || a == DropOld(o)
    requires o in w.dtor && w.dtor[o] == Script(o, dtor) && OwnsWhatItDrops(Kept(x, a), dtor)
    requires x.cTlsRefs == 1 && x.state != Destroying
    requires y == x.(cTlsRefs := 0, held := Kept(x, a)) && z == y.(state := Destroying, dtorRuns := x.dtorRuns + 1)
    ensures After(w, t, n)
         == Some(With(w, t, o, z.(cTlsRefs := Balance(dtor), held := z.held + Balance(dtor)), rest))
  {
    hide After;
    var first := Releases(w, t, o, a, x, y, [Destroy(o)], rest);
    var v := With(w, t, o, y, [Destroy(o)] + rest);
    ActsOn(v, t, o, Destroy(o), z, Script(o, dtor), rest);
    var v' := With(v, t, o, z, Script(o, dtor) + rest);
    var end := z.(cTlsRefs := Balance(dtor), held := z.held + Balance(dtor));
    var last := UsesRun(v', t, o, z, dtor, end, rest);
    hide With;
    Onward(v, t, o, z, Script(o, dtor) + rest, 1, end, rest, last);
    Onward(w, t, o, y, [Destroy(o)] + rest, first, end, rest, 1 + last);
    n := first + 1 + last;
  }

  /** An idle thread can begin any macro, whatever the others are in the middle of. */
  lemma BeginRuns(w: World, t: nat, call: Action)
    requires t < |w.threads| && w.threads[t].todo == [] && IsMacro(call)
    ensures Enabled(w, Begin(t, call))
    ensures Next(w, Begin(t, call)) == w.(threads := w.threads[t := Thread(w.threads[t].slot, [call])])
  {
  }

  /** Initialising gives exactly the object that the in-place macro leaves. */
  lemma InitRuns(w: World, t: nat, o: ObjId, rest: seq<Action>)
    requires t < |w.threads| && w.threads[t].todo == [Init(o)] + rest && o !in w.objs && o in w.dtor
    ensures After(w, t, 1) == Some(With(w, t, o, ObjectWith(Refs(1, Initialized, 0), 1), rest))
  {
    assert [] + rest == rest;
    ActsOn(w, t, o, Init(o), ObjectWith(Refs(1, Initialized, 0), 1), [], rest);
  }

  /** Whoever holds a reference, through a slot or as an owner, can add one; so can the destructor. */
  lemma AddRefRuns(w: World, t: nat, o: ObjId, x: Object, rest: seq<Action>)
    requires t < |w.threads| && w.threads[t].todo == [Action.AddRef(o)] + rest && o in w.objs && x == w.objs[o]
    requires x.held > 0 || w.threads[t].slot == Some(o) || x.state == Destroying
    ensures After(w, t, 1) == Some(With(w, t, o, x.(cTlsRefs := x.cTlsRefs + 1, held := x.held + 1), rest))
  {
    assert [] + rest == rest;
    ActsOn(w, t, o, Action.AddRef(o), x.(cTlsRefs := x.cTlsRefs + 1, held := x.held + 1), [], rest);
  }

  /** Any object that is not dying can be marked. */
  lemma MarkRuns(w: World, t: nat, o: ObjId, x: Object, rest: seq<Action>)
    requires t < |w.threads| && w.threads[t].todo == [Action.MarkDestroy(o)] + rest && o in w.objs && x == w.objs[o]
    requires x.state != Destroying
    ensures After(w, t, 1) == Some(With(w, t, o, x.(state := TobeDestroyed), rest))
  {
    assert [] + rest == rest;
    ActsOn(w, t, o, Action.MarkDestroy(o), x.(state := TobeDestroyed), [], rest);
  }

  /** The first release of an object that nobody else has referenced destroys it, once. */
  lemma InitThenRelease(w: World, t: nat, o: ObjId, dtor: seq<Use>, rest: seq<Action>) returns (n: nat)
    requires t < |w.threads| && w.threads[t].todo == [Init(o)] + ([Action.Release(o)] + rest)
    requires o !in w.objs && o in w.dtor && w.dtor[o] == Script(o, dtor) && OwnsWhatItDrops(0, dtor)
    ensures After(w, t, n) == Some(With(w, t, o, Object(Balance(dtor), Destroying, Balance(dtor), 1), rest))
  {
    var x, y := Object(1, Initialized, 1, 0), Object(Balance(dtor), Destroying, Balance(dtor), 1);
    var todo := [Action.Release(o)] + rest;
    InitRuns(w, t, o, todo);
    var v := With(w, t, o, x, todo);
    hide After, OwnsWhatItDrops, Balance, Script;
    var m := LastReleaseRuns(v, t, o, Action.Release(o), x, Object(0, Initialized, 0, 0), Object(0, Destroying, 0, 1),
                             dtor, rest);
    hide With;
    Onward(w, t, o, x, todo, 1, y, rest, m);
    n := 1 + m;
  }

  /** The world with other objects, and one thread left with slot `p` and `todo`. */
  function Slotted(w: World, t: nat, p: Option<ObjId>, todo: seq<Action>, objs: map<ObjId, Object>): World
    requires t < |w.threads|
  {
    w.(objs := objs, threads := w.threads[t := Thread(p, todo)])
  }

  lemma SlottedTwice(w: World, t: nat, p: Option<ObjId>, todo: seq<Action>, objs: map<ObjId, Object>,
                     p': Option<ObjId>, todo': seq<Action>, objs': map<ObjId, Object>)
    requires t < |w.threads|
    ensures var v := Slotted(w, t, p, todo, objs);
      && v.objs == objs && |v.threads| == |w.threads| && v.threads[t] == Thread(p, todo) && v.dtor == w.dtor
      && Slotted(v, t, p', todo', objs') == Slotted(w, t, p', todo', objs')
  {
  }

  /** The object an exchange takes out has been released, and nothing else has changed. */
  ghost predicate Dropped(objs: map<ObjId, Object>, objs': map<ObjId, Object>, out: Option<ObjId>, dtor: seq<Use>) {
    && objs'.Keys == objs.Keys
    && forall b | b in objs ::
         RefsOf(objs'[b]) == if out == Some(b) then Released(RefsOf(objs[b]), dtor) else RefsOf(objs[b])
  }

  /** The object an exchange puts in has gained a reference, and nothing else has changed. */
  ghost predicate Taken(objs: map<ObjId, Object>, objs': map<ObjId, Object>, p: Option<ObjId>) {
    && objs'.Keys == objs.Keys
    && forall b | b in objs :: objs'[b] == objs[b].(cTlsRefs := objs[b].cTlsRefs + if p == Some(b) then 1 else 0)
  }

  lemma DropsRun(w: World, t: nat, out: Option<ObjId>, dtor: seq<Use>, rest: seq<Action>)
    returns (n: nat, objs: map<ObjId, Object>)
    requires t < |w.threads| && w.threads[t].todo == Drops(out) + rest
    requires out.Some? ==> && out.value in w.objs && out.value in w.dtor && w.dtor[out.value] == Script(out.value, dtor)
                           && OwnsWhatItDrops(w.objs[out.value].held, dtor)
    ensures After(w, t, n) == Some(Slotted(w, t, w.threads[t].slot, rest, objs)) && Dropped(w.objs, objs, out, dtor)
  {
    hide After, Released, Used;
    if out.None? {
      assert Drops(out) + rest == rest && w.threads[t := w.threads[t]] == w.threads;
      n, objs := 0, w.objs;
      NoActions(w, t);
    } else {
      var o := out.value;
      var x := w.objs[o];
      n := ReleaseRuns(w, t, o, DropOld(o), x, dtor, rest);
      var held := x.held + if x.cTlsRefs == 1 && x.state != Destroying then Balance(dtor) else 0;
      objs := w.objs[o := ObjectWith(Released(RefsOf(x), dtor), held)];
    }
  }

  lemma NoActions(w: World, t: nat)
    ensures After(w, t, 0) == Some(w)
  {
  }

  lemma TakesRun(w: World, t: nat, p: Option<ObjId>, rest: seq<Action>) returns (n: nat, objs: map<ObjId, Object>)
    requires t < |w.threads| && w.threads[t].todo == Takes(p) + rest && (p.Some? ==> p.value in w.objs)
    ensures After(w, t, n) == Some(Slotted(w, t, w.threads[t].slot, rest, objs)) && Taken(w.objs, objs, p)
  {
    hide After;
    if p.None? {
      assert Takes(p) + rest == rest && w.threads[t := w.threads[t]] == w.threads;
      n, objs := 0, w.objs;
      NoActions(w, t);
    } else {
      var y := w.objs[p.value].(cTlsRefs := w.objs[p.value].cTlsRefs + 1);
      ActsOn(w, t, p.value, TakeNew(p.value), y, [], rest);
      assert [] + rest == rest;
      n, objs := 1, w.objs[p.value := y];
    }
  }

  lemma Exchanges(w: World, t: nat, p: Option<ObjId>, todo: seq<Action>, rest: seq<Action>)
    requires t < |w.threads| && w.threads[t].todo == [SetCurrent(p)] + rest && (p.Some? ==> p.value in w.objs)
    requires todo == if w.threads[t].slot == p then rest else Drops(w.threads[t].slot) + (Takes(p) + rest)
    ensures After(w, t, 1) == Some(Slotted(w, t, p, todo, w.objs))
  {
    assert [] + rest == rest;
    assert Drops(w.threads[t].slot) + (Takes(p) + rest) == Drops(w.threads[t].slot) + Takes(p) + rest;
    NoActions(Next(w, Work(t)), t);
  }

  /** The three parts of an exchange that changes the slot. */
  lemma ExchangeRuns(w: World, t: nat, p: Option<ObjId>, dtor: seq<Use>, rest: seq<Action>)
    returns (n: nat, between: map<ObjId, Object>, objs: map<ObjId, Object>)
    requires t < |w.threads| && w.threads[t].todo == [SetCurrent(p)] + rest && (p.Some? ==> p.value in w.objs)
    requires var out := w.threads[t].slot;
      && out != p
      && (out.Some? ==> && out.value in w.objs && out.value in w.dtor && w.dtor[out.value] == Script(out.value, dtor)
                        && OwnsWhatItDrops(w.objs[out.value].held, dtor))
    ensures After(w, t, n) == Some(Slotted(w, t, p, rest, objs))
    ensures Dropped(w.objs, between, w.threads[t].slot, dtor) && between.Keys == w.objs.Keys && Taken(between, objs, p)
  {
    hide After, Dropped, Taken, Slotted, Drops, Takes, Script, OwnsWhatItDrops, Released, Used;
    var out := w.threads[t].slot;
    var todo := Drops(out) + (Takes(p) + rest);
    Exchanges(w, t, p, todo, rest);
    SlottedTwice(w, t, p, todo, w.objs, p, Takes(p) + rest, w.objs);
    var v := Slotted(w, t, p, todo, w.objs);
    var a, b;
    a, between := DropsRun(v, t, out, dtor, Takes(p) + rest);
    assert between.Keys == w.objs.Keys by {
      SameKeys(w.objs, between, out, dtor);
    }
    SlottedTwice(w, t, p, todo, w.objs, p, Takes(p) + rest, between);
    AfterChains(w, t, 1, v, a);
    var v' := Slotted(w, t, p, Takes(p) + rest, between);
    SlottedTwice(w, t, p, Takes(p) + rest, between, p, rest, between);
    b, objs := TakesRun(v', t, p, rest);
    SlottedTwice(w, t, p, Takes(p) + rest, between, p, rest, objs);
    AfterChains(w, t, 1 + a, v', b);
    n := 1 + a + b;
  }

  lemma SameKeys(objs: map<ObjId, Object>, objs': map<ObjId, Object>, out: Option<ObjId>, dtor: seq<Use>)
    requires Dropped(objs, objs', out, dtor)
    ensures objs'.Keys == objs.Keys
  {
  }

  /**
   A thread that is not interrupted exchanges its slot as the in-place macro does: nothing for the same object;
   otherwise the slot is replaced, the outgoing object is released with its destructor, and then the incoming one gains
   a reference.
   */
  lemma SetCurrentRuns(w: World, t: nat, p: Option<ObjId>, dtor: seq<Use>, rest: seq<Action>)
    returns (n: nat, objs: map<ObjId, Object>)
    requires t < |w.threads| && w.threads[t].todo == [SetCurrent(p)] + rest && (p.Some? ==> p.value in w.objs)
    requires var out := w.threads[t].slot;
      out.Some? ==> && out.value in w.objs && out.value in w.dtor && w.dtor[out.value] == Script(out.value, dtor)
                    && OwnsWhatItDrops(w.objs[out.value].held, dtor)
    ensures After(w, t, n) == Some(Slotted(w, t, p, rest, objs)) && objs.Keys == w.objs.Keys
    ensures var out := w.threads[t].slot;
      forall b | b in w.objs :: RefsOf(objs[b]) ==
        if out == p then RefsOf(w.objs[b])
        else if out == Some(b) then Released(RefsOf(w.objs[b]), dtor)
        else if p == Some(b) then Refs(w.objs[b].cTlsRefs + 1, w.objs[b].state, w.objs[b].dtorRuns)
        else RefsOf(w.objs[b])
  {
    hide After, Released, Used, Slotted, Script, OwnsWhatItDrops;
    if w.threads[t].slot == p {
      Exchanges(w, t, p, rest, rest);
      n, objs := 1, w.objs;
    } else {
      var between;
      n, between, objs := ExchangeRuns(w, t, p, dtor, rest);
    }
  }
}

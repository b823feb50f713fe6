/**
 The reference-count macros as they update an object in place, with a destructor that may itself add and release
 references to the object, and a thread's slot.
 */
module TlsObjects {
  import opened TlsProtocol

  /** What a destructor does to the object it destroys. */
  datatype Use = Add | Drop

  datatype Refs = Refs(count: int, state: Life, runs: nat)

  // ---- The macros on values ----

  /** One release, with the destructor it may set off. */
  function Released(x: Refs, dtor: seq<Use>): (r: Refs)
    ensures x.state == Destroying ==> r == x.(count := x.count - 1)
    decreases if x.state == Destroying then 0 else 2, 0
  {
    if x.count - 1 == 0 && x.state != Destroying then
      Used(Refs(0, Destroying, x.runs + 1), dtor, dtor)
    else
      x.(count := x.count - 1)
  }

  /** What the uses a destructor still has to make do to the object being destroyed. */
  function Used(x: Refs, uses: seq<Use>, dtor: seq<Use>): (r: Refs)
    requires x.state == Destroying
    ensures r.state == Destroying && r.runs == x.runs
    decreases 1, |uses|
  {
    if uses == [] then x
    else if uses[0].Add? then Used(x.(count := x.count + 1), uses[1..], dtor)
    else Used(Released(x, dtor), uses[1..], dtor)
  }

  function Balance(uses: seq<Use>): int {
    if uses == [] then 0 else (if uses[0].Add? then 1 else -1) + Balance(uses[1..])
  }

  /** Starting from `n` references of its own, the destructor releases only what it added. */
  predicate OwnsWhatItDrops(n: int, uses: seq<Use>)
    decreases |uses|
  {
    uses == []
    || if uses[0].Add? then OwnsWhatItDrops(n + 1, uses[1..]) else n > 0 && OwnsWhatItDrops(n - 1, uses[1..])
  }

  /** The destructor's own uses never set off another destructor: they only add up. */
  lemma {:induction false} UsesAddUp(x: Refs, uses: seq<Use>, dtor: seq<Use>)
    requires x.state == Destroying
    ensures Used(x, uses, dtor) == x.(count := x.count + Balance(uses))
    decreases |uses|
  {
    if uses != [] {
      UsesAddUp(if uses[0].Add? then x.(count := x.count + 1) else Released(x, dtor), uses[1..], dtor);
    }
  }

  /** The last release ends with the destroyed object holding what its destructor left over. */
  lemma LastRelease(x: Refs, dtor: seq<Use>)
    requires x.count == 1 && x.state != Destroying
    ensures Released(x, dtor) == Refs(Balance(dtor), Destroying, x.runs + 1)
  {
    UsesAddUp(Refs(0, Destroying, x.runs + 1), dtor, dtor);
  }

  // ---- Sequences of macros on one object ----

  datatype Macro = AddRef | Release | MarkDestroy

  /**
   Releasing takes a reference; adding one takes another, or a dying object; the mark is not put on a dying object.
   */
  predicate Allowed(x: Refs, m: Macro) {
    match m
    case AddRef => x.count >= 1 || x.state == Destroying
    case Release => x.count >= 1
    case MarkDestroy => x.state != Destroying
  }

  function Done(x: Refs, m: Macro, dtor: seq<Use>): Refs {
    match m
    case AddRef => x.(count := x.count + 1)
    case Release => Released(x, dtor)
    case MarkDestroy => x.(state := TobeDestroyed)
  }

  /** The object after the first `n` macros. */
  function DoneAll(ms: seq<Macro>, dtor: seq<Use>, n: nat): Refs
    requires n <= |ms|
  {
    if n == 0 then Refs(1, Initialized, 0) else Done(DoneAll(ms, dtor, n - 1), ms[n - 1], dtor)
  }

  /** The number of references owners hold after the first `n` macros, counted without the object. */
  function Held(ms: seq<Macro>, n: nat): int
    requires n <= |ms|
  {
    if n == 0 then 1
    else Held(ms, n - 1) + if ms[n - 1].AddRef? then 1 else if ms[n - 1].Release? then -1 else 0
  }

  predicate EverUnheld(ms: seq<Macro>, n: nat)
    requires n <= |ms|
  {
    Held(ms, n) == 0 || (n > 0 && EverUnheld(ms, n - 1))
  }

  /** Allowed, or a mark on a dying object. */
  predicate Possible(x: Refs, m: Macro) {
    Allowed(x, m) || m.MarkDestroy?
  }

  predicate AllPossible(ms: seq<Macro>, dtor: seq<Use>, n: nat)
    requires n <= |ms|
  {
    forall i :: 0 <= i < n ==> Possible(DoneAll(ms, dtor, i), ms[i])
  }

  /** The `i`-th macro marks a dying object that still has references. */
  predicate Revives(ms: seq<Macro>, dtor: seq<Use>, i: nat)
    requires i < |ms|
  {
    ms[i].MarkDestroy? && DoneAll(ms, dtor, i).state == Destroying && DoneAll(ms, dtor, i).count >= 1
  }

  /**
   For a destructor that leaves as many references as it found: after any macros that revive nothing the count is what
   owners hold, and the destructor has run, once, exactly if at some point owners held none.
   */
  lemma {:induction false} DestroyedWhenFirstUnheld(ms: seq<Macro>, dtor: seq<Use>, n: nat)
    requires n <= |ms| && Balance(dtor) == 0
    requires AllPossible(ms, dtor, n) && forall i :: 0 <= i < n ==> !Revives(ms, dtor, i)
    ensures DoneAll(ms, dtor, n).count == Held(ms, n) >= 0
    ensures DoneAll(ms, dtor, n).runs == if EverUnheld(ms, n) then 1 else 0
    ensures DoneAll(ms, dtor, n).state == Destroying ==> EverUnheld(ms, n)
    ensures EverUnheld(ms, n) ==> DoneAll(ms, dtor, n).state == Destroying || DoneAll(ms, dtor, n).count == 0
  {
    if n > 0 {
      DestroyedWhenFirstUnheld(ms, dtor, n - 1);
      var x, m := DoneAll(ms, dtor, n - 1), ms[n - 1];
      assert Possible(x, m) && !Revives(ms, dtor, n - 1);
      if x.count == 1 && x.state != Destroying {
        LastRelease(x, dtor);
      }
    }
  }

  // ---- When the destructor can run a second time ----

  /** The macros after the first `n` are all allowed. */
  predicate AllowedFrom(ms: seq<Macro>, dtor: seq<Use>, n: nat) {
    forall i :: n <= i < |ms| ==> Allowed(DoneAll(ms, dtor, i), ms[i])
  }

  lemma {:induction false} SameBeginning(ms: seq<Macro>, more: seq<Macro>, dtor: seq<Use>, n: nat)
    requires n <= |ms|
    ensures DoneAll(ms + more, dtor, n) == DoneAll(ms, dtor, n)
  {
    if n > 0 {
      SameBeginning(ms, more, dtor, n - 1);
    }
  }

  /** Macros that revive nothing run the destructor at most once, whatever its balance. */
  lemma {:induction false} OnceUnlessRevived(ms: seq<Macro>, dtor: seq<Use>, n: nat)
    requires n <= |ms| && AllPossible(ms, dtor, n) && forall i :: 0 <= i < n ==> !Revives(ms, dtor, i)
    ensures var x := DoneAll(ms, dtor, n);
      x.runs <= 1 && (x.state == Destroying ==> x.runs == 1) && (x.runs == 1 ==> x.state == Destroying || x.count <= 0)
  {
    if n > 0 {
      OnceUnlessRevived(ms, dtor, n - 1);
      assert Possible(DoneAll(ms, dtor, n - 1), ms[n - 1]) && !Revives(ms, dtor, n - 1);
    }
  }

  lemma {:induction false} DyingHasRun(ms: seq<Macro>, dtor: seq<Use>, n: nat)
    requires n <= |ms|
    ensures DoneAll(ms, dtor, n).state == Destroying ==> DoneAll(ms, dtor, n).runs >= 1
  {
    if n > 0 {
      DyingHasRun(ms, dtor, n - 1);
    }
  }

  /** A revived object waits for its second destruction, or has had it. */
  lemma {:induction false} RevivedStays(ms: seq<Macro>, dtor: seq<Use>, i: nat, n: nat)
    requires i < n <= |ms| && Revives(ms, dtor, i) && AllPossible(ms, dtor, n)
    ensures var x := DoneAll(ms, dtor, n); x.runs >= 2 || (x.runs == 1 && x.state == TobeDestroyed && x.count >= 1)
    decreases n
  {
    assert Possible(DoneAll(ms, dtor, n - 1), ms[n - 1]);
    if n == i + 1 {
      DyingHasRun(ms, dtor, i);
    } else {
      RevivedStays(ms, dtor, i, n - 1);
    }
  }

  /** Giving up every reference to an object that is not dying destroys it. */
  lemma {:induction false} ReleasingAllDestroys(ms: seq<Macro>, dtor: seq<Use>, x: Refs) returns (more: seq<Macro>)
    requires x == DoneAll(ms, dtor, |ms|) && x.state != Destroying && x.count >= 1
    ensures AllowedFrom(ms + more, dtor, |ms|)
    ensures DoneAll(ms + more, dtor, |ms + more|).runs == x.runs + 1
    decreases x.count
  {
    var ms' := ms + [Macro.Release];
    SameBeginning(ms, [Macro.Release], dtor, |ms|);
    var y := DoneAll(ms', dtor, |ms'|);
    if x.count == 1 {
      more := [Macro.Release];
    } else {
      var rest := ReleasingAllDestroys(ms', dtor, y);
      more := [Macro.Release] + rest;
      assert ms + more == ms' + rest;
      SameBeginning(ms', rest, dtor, |ms|);
    }
  }

  /**
   Allowed macros can lead to a second destructor call if and only if some mark has come on a dying object that still
   had references; a mark on a dying object without any is harmless.
   */
  lemma SecondDestructionExactly(ms: seq<Macro>, dtor: seq<Use>)
    requires AllPossible(ms, dtor, |ms|)
    ensures (exists more :: AllowedFrom(ms + more, dtor, |ms|) && DoneAll(ms + more, dtor, |ms + more|).runs >= 2)
            <==> (exists i :: 0 <= i < |ms| && Revives(ms, dtor, i))
  {
    if i :| 0 <= i < |ms| && Revives(ms, dtor, i) {
      RevivedStays(ms, dtor, i, |ms|);
      var x := DoneAll(ms, dtor, |ms|);
      var more: seq<Macro> := [];
      if x.runs < 2 {
        more := ReleasingAllDestroys(ms, dtor, x);
      } else {
        assert ms + more == ms;
      }
      assert AllowedFrom(ms + more, dtor, |ms|) && DoneAll(ms + more, dtor, |ms + more|).runs >= 2;
    } else {
      forall more | AllowedFrom(ms + more, dtor, |ms|)
        ensures DoneAll(ms + more, dtor, |ms + more|).runs < 2
      {
        NoSecondDestruction(ms, dtor, more);
      }
    }
  }

  lemma NoSecondDestruction(ms: seq<Macro>, dtor: seq<Use>, more: seq<Macro>)
    requires AllPossible(ms, dtor, |ms|) && (forall i :: 0 <= i < |ms| ==> !Revives(ms, dtor, i))
    requires AllowedFrom(ms + more, dtor, |ms|)
    ensures DoneAll(ms + more, dtor, |ms + more|).runs <= 1
  {
    forall i | 0 <= i < |ms + more|
      ensures Possible(DoneAll(ms + more, dtor, i), (ms + more)[i]) && !Revives(ms + more, dtor, i)
    {
      if i < |ms| {
        SameBeginning(ms, more, dtor, i);
        assert Possible(DoneAll(ms, dtor, i), ms[i]) && !Revives(ms, dtor, i);
      } else {
        assert Allowed(DoneAll(ms + more, dtor, i), (ms + more)[i]);
      }
    }
    OnceUnlessRevived(ms + more, dtor, |ms + more|);
  }

  /** Such a sequence: the mark is the only macro not allowed, and the destructor runs again. */
  lemma MarkOnDyingDestroysTwice(dtor: seq<Use>)
    requires Balance(dtor) == 0
    ensures var ms := [Macro.Release, Macro.AddRef, Macro.MarkDestroy, Macro.Release];
      && (forall i :: 0 <= i < 4 ==> (Allowed(DoneAll(ms, dtor, i), ms[i]) <==> i != 2))
      && Revives(ms, dtor, 2) && DoneAll(ms, dtor, 4).runs == 2
  {
    var ms := [Macro.Release, Macro.AddRef, Macro.MarkDestroy, Macro.Release];
    LastRelease(DoneAll(ms, dtor, 0), dtor);
    assert DoneAll(ms, dtor, 1) == Refs(0, Destroying, 1);
    assert DoneAll(ms, dtor, 2) == Refs(1, Destroying, 1);
    assert DoneAll(ms, dtor, 3) == Refs(1, TobeDestroyed, 1);
    LastRelease(DoneAll(ms, dtor, 3), dtor);
  }

  // ---- The object in memory ----

  class TlsObject {
    var cTlsRefs: int
    var enmTlsRefState: Life
    var pfnTlsRefDtor: seq<Use>
    /** How often the destructor has been called. */
    ghost var runs: nat

    ghost function View(): Refs
      reads this
    {
      Refs(cTlsRefs, enmTlsRefState, runs)
    }

    /** Somebody may use the object: it is referenced, or being destroyed by a destructor that minds its references. */
    ghost predicate Valid()
      reads this
    {
      && OwnsWhatItDrops(0, pfnTlsRefDtor)
      && cTlsRefs >= 0
      && (cTlsRefs == 0 ==> enmTlsRefState == Destroying)
    }

    constructor Init(dtor: seq<Use>)
      requires OwnsWhatItDrops(0, dtor)
      ensures Valid() && View() == Refs(1, Initialized, 0) && pfnTlsRefDtor == dtor && IsFunctional()
    {
      cTlsRefs := 1;
      enmTlsRefState := Initialized;
      pfnTlsRefDtor := dtor;
      runs := 0;
    }

    predicate IsFunctional()
      reads this
    {
      enmTlsRefState == Initialized
    }

    method AddRef()
      requires Valid()
      modifies this
      ensures Valid() && pfnTlsRefDtor == old(pfnTlsRefDtor)
      ensures View() == old(View()).(count := old(cTlsRefs) + 1)
    {
      cTlsRefs := cTlsRefs + 1;
      assert cTlsRefs > 1 || enmTlsRefState == Destroying;
    }

    method Release()
      requires Valid() && cTlsRefs >= 1
      modifies this
      ensures Valid() && pfnTlsRefDtor == old(pfnTlsRefDtor)
      ensures View() == Released(old(View()), old(pfnTlsRefDtor))
      ensures if old(cTlsRefs) == 1 && old(enmTlsRefState) != Destroying
              then cTlsRefs == Balance(pfnTlsRefDtor) && !IsFunctional() && runs == old(runs) + 1
              else cTlsRefs == old(cTlsRefs) - 1 && enmTlsRefState == old(enmTlsRefState) && runs == old(runs)
      decreases if enmTlsRefState == Destroying then 0 else 2, 0
    {
      if cTlsRefs == 1 && enmTlsRefState != Destroying {
        LastRelease(View(), pfnTlsRefDtor);
      }
      cTlsRefs := cTlsRefs - 1;
      assert cTlsRefs >= 0;
      if cTlsRefs == 0 && enmTlsRefState != Destroying {
        enmTlsRefState := Destroying;
        Destructor();
      }
    }

    method Destructor()
      requires Valid() && enmTlsRefState == Destroying && cTlsRefs == 0
      modifies this
      ensures Valid() && pfnTlsRefDtor == old(pfnTlsRefDtor)
      ensures View() == Used(Refs(0, Destroying, old(runs) + 1), old(pfnTlsRefDtor), old(pfnTlsRefDtor))
      decreases 1, 0
    {
      runs := runs + 1;
      var i := 0;
      while i < |pfnTlsRefDtor|
        invariant 0 <= i <= |pfnTlsRefDtor| && pfnTlsRefDtor == old(pfnTlsRefDtor)
        invariant Valid() && enmTlsRefState == Destroying && OwnsWhatItDrops(cTlsRefs, pfnTlsRefDtor[i..])
        invariant Used(View(), pfnTlsRefDtor[i..], pfnTlsRefDtor)
               == Used(Refs(0, Destroying, old(runs) + 1), pfnTlsRefDtor, pfnTlsRefDtor)
      {
        var use := pfnTlsRefDtor[i];
        assert pfnTlsRefDtor[i..] == [use] + pfnTlsRefDtor[i + 1..];
        if use.Add? {
          AddRef();
        } else {
          Release();
        }
        i := i + 1;
      }
    }

    /** A dying object without references must not be used any more once it is marked. */
    method MarkDestroy()
      requires Valid()
      modifies this
      ensures pfnTlsRefDtor == old(pfnTlsRefDtor) && (Valid() <==> cTlsRefs >= 1)
      ensures View() == old(View()).(state := TobeDestroyed)
      ensures !IsFunctional()
    {
      enmTlsRefState := TobeDestroyed;
    }
  }

  /** One thread's slot. */
  class TlsSlot {
    var cur: TlsObject?

    constructor ()
      ensures cur == null
    {
      cur := null;
    }

    method SetCurrent(p: TlsObject?)
      requires cur != null ==> cur.Valid() && cur.cTlsRefs >= 1
      requires p != null ==> p.Valid()
      modifies this, cur, p
      ensures cur == p
      ensures p == old(cur) ==> (p != null ==> unchanged(p))
      ensures p != old(cur) && p != null ==> p.Valid() && p.View() == old(p.View()).(count := old(p.cTlsRefs) + 1)
      ensures p != old(cur) && old(cur) != null
        ==> old(cur).Valid() && old(cur).View() == Released(old(cur.View()), old(cur.pfnTlsRefDtor))
    {
      var oldCur := cur;
      if oldCur != p {
        cur := p;
        if oldCur != null {
          oldCur.Release();
        }
        if p != null {
          p.AddRef();
        }
      }
    }
  }
}

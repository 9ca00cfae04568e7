/**
 * The process-wide registry that keeps an object (`objToHold`, the holder)
 * alive for as long as one of the objects it depends on is alive.  Each holder
 * is a key held strongly; its value is the set of weak handles to the objects
 * it depends on.  Handle sets are hash sets of `WeakReference`, which does not
 * override `Equals`, so a set never holds the same handle object twice but may
 * hold two handles to the same referent.
 */
module ObjectDependencyManager {
  import opened Wrappers
  import opened Objects
  import opened Handles

  type Registry = map<Obj, set<WeakRef>>

  const NullHolderMessage := "The objToHold cannot be null"
  const WeakReferenceHolderMessage := "objToHold cannot be type of WeakReference"
  const CycleMessage := "The WeakReference.Target cannot be the same as objToHold"
  const KeyNotFoundMessage := "Key was not found!"

  /** The handles in `handles` whose referent has been collected. */
  function DeadHandles(handles: set<WeakRef>, alive: set<Obj>): set<WeakRef> {
    set w | w in handles && w.Target(alive) == null
  }

  /** The handles in `handles` whose referent is still alive. */
  function LiveHandles(handles: set<WeakRef>, alive: set<Obj>): set<WeakRef> {
    set w | w in handles && w.Target(alive) != null
  }

  /** Every holder is registered with at least one handle. */
  ghost predicate NonEmptySets(m: Registry) {
    forall k :: k in m ==> m[k] != {}
  }

  /**
   * Whether a sweep keeps a holder with these handles: it drops the holder
   * when it has dead handles and all of them are dead.
   */
  predicate KeepsHolder(handles: set<WeakRef>, alive: set<Obj>) {
    DeadHandles(handles, alive) == {} || DeadHandles(handles, alive) != handles
  }

  /** Dead and live handles partition a handle set. */
  lemma DeadLivePartition(handles: set<WeakRef>, alive: set<Obj>)
    ensures handles - DeadHandles(handles, alive) == LiveHandles(handles, alive)
    ensures handles != {} ==> (KeepsHolder(handles, alive) <==> LiveHandles(handles, alive) != {})
  {
    assert forall w :: w in handles ==> w in DeadHandles(handles, alive) || w in LiveHandles(handles, alive);
    if handles != {} {
      if LiveHandles(handles, alive) == {} {
        assert DeadHandles(handles, alive) == handles;
      } else {
        var w :| w in LiveHandles(handles, alive);
        assert w !in DeadHandles(handles, alive);
      }
    }
  }

  /**
   * The registry after a full sweep: a holder with dead handles loses the
   * whole entry when every handle is dead, and only its dead handles
   * otherwise; a holder without dead handles is left as it is.
   */
  function Swept(m: Registry, alive: set<Obj>): (r: Registry)
    ensures r.Keys <= m.Keys
    ensures forall k :: k in r ==> r[k] == LiveHandles(m[k], alive)
    ensures forall k :: k in m && m[k] != {} ==> (k in r <==> LiveHandles(m[k], alive) != {})
  {
    assert forall k :: k in m ==>
      (&& m[k] - DeadHandles(m[k], alive) == LiveHandles(m[k], alive)
       && (m[k] != {} ==> (KeepsHolder(m[k], alive) <==> LiveHandles(m[k], alive) != {}))) by {
      forall k | k in m
        ensures m[k] - DeadHandles(m[k], alive) == LiveHandles(m[k], alive)
        ensures m[k] != {} ==> (KeepsHolder(m[k], alive) <==> LiveHandles(m[k], alive) != {})
      {
        DeadLivePartition(m[k], alive);
      }
    }
    map k | k in m && KeepsHolder(m[k], alive) :: m[k] - DeadHandles(m[k], alive)
  }

  /** The validation `AddObjectDependency` performs after its sweep, in its order. */
  function Validate(weakRefDp: WeakRef, objToHold: Obj?, alive: set<Obj>): Option<Exception> {
    if objToHold == null then
      Some(ArgumentNullException("objToHold", NullHolderMessage))
    else if objToHold.runtimeType == WeakReferenceType then
      Some(ArgumentException(Some("objToHold"), WeakReferenceHolderMessage))
    else if weakRefDp.Target(alive) == objToHold then
      Some(InvalidOperationException(CycleMessage))
    else
      None
  }

  /** The registry after `weakRefDp` is registered for `holder`. */
  function Registered(m: Registry, weakRefDp: WeakRef, holder: Obj): Registry {
    m[holder := if holder in m then m[holder] + {weakRefDp} else {weakRefDp}]
  }

  /** Whether registering `weakRefDp` for `holder` adds anything. */
  predicate IsNewRegistration(m: Registry, weakRefDp: WeakRef, holder: Obj) {
    holder !in m || weakRefDp !in m[holder]
  }

  // ---------------------------------------------------------------------
  // Properties of the sweep

  /** A sweep removes a registered holder exactly when all its handles are dead. */
  lemma SweepDropsHolderIffAllDead(m: Registry, alive: set<Obj>, holder: Obj)
    requires holder in m && m[holder] != {}
    ensures holder !in Swept(m, alive) <==> forall w :: w in m[holder] ==> w.Target(alive) == null
  {
    if forall w :: w in m[holder] ==> w.Target(alive) == null {
      assert LiveHandles(m[holder], alive) == {};
    } else {
      var w :| w in m[holder] && w.Target(alive) != null;
      assert w in LiveHandles(m[holder], alive);
    }
  }

  /**
   * A holder that survives a sweep keeps exactly its live handles; one with no
   * dead handle is untouched.
   */
  lemma SweepPrunesExactlyDead(m: Registry, alive: set<Obj>, holder: Obj)
    requires holder in Swept(m, alive)
    ensures Swept(m, alive)[holder] == m[holder] - DeadHandles(m[holder], alive)
    ensures DeadHandles(m[holder], alive) == {} ==> Swept(m, alive)[holder] == m[holder]
  {
  }

  /** Sweeping keeps every registered handle set non-empty. */
  lemma SweepPreservesNonEmpty(m: Registry, alive: set<Obj>)
    requires NonEmptySets(m)
    ensures NonEmptySets(Swept(m, alive))
  {
  }

  /** A second sweep with the same liveness changes nothing. */
  lemma SweepIdempotent(m: Registry, alive: set<Obj>)
    requires NonEmptySets(m)
    ensures Swept(Swept(m, alive), alive) == Swept(m, alive)
  {
    var s := Swept(m, alive);
    forall k | k in s ensures k in Swept(s, alive) && Swept(s, alive)[k] == s[k] {
      assert DeadHandles(s[k], alive) == {};
      assert s[k] != {};
    }
  }

  /** Registering keeps every handle set non-empty and leaves other holders alone. */
  lemma RegisteredSpec(m: Registry, weakRefDp: WeakRef, holder: Obj)
    requires NonEmptySets(m)
    ensures NonEmptySets(Registered(m, weakRefDp, holder))
    ensures weakRefDp in Registered(m, weakRefDp, holder)[holder]
    ensures forall k :: k in m && k != holder ==> k in Registered(m, weakRefDp, holder) && Registered(m, weakRefDp, holder)[k] == m[k]
    ensures !IsNewRegistration(m, weakRefDp, holder) ==> Registered(m, weakRefDp, holder) == m
  {
    if !IsNewRegistration(m, weakRefDp, holder) {
      assert m[holder] + {weakRefDp} == m[holder];
    }
  }

  /**
   * Registering the same live handle twice: the second call finds it after its
   * own sweep, so it reports nothing new and leaves the registry as its sweep
   * left it.
   */
  lemma SecondRegistrationIsNotNew(m: Registry, weakRefDp: WeakRef, holder: Obj, alive: set<Obj>)
    requires weakRefDp.Target(alive) != null
    ensures var afterFirst := Registered(Swept(m, alive), weakRefDp, holder);
      var swept := Swept(afterFirst, alive);
      !IsNewRegistration(swept, weakRefDp, holder) && Registered(swept, weakRefDp, holder) == swept
  {
    var afterFirst := Registered(Swept(m, alive), weakRefDp, holder);
    assert weakRefDp in LiveHandles(afterFirst[holder], alive);
    var swept := Swept(afterFirst, alive);
    assert holder in swept && weakRefDp in swept[holder];
    assert swept[holder] + {weakRefDp} == swept[holder];
  }

  /**
   * Deduplication is by handle identity: a second handle to the same referent
   * is added beside the first.
   */
  lemma HandlesAreDistinctByIdentity(m: Registry, first: WeakRef, second: WeakRef, holder: Obj)
    requires holder in m && first in m[holder] && second !in m[holder]
    requires first.referent == second.referent
    ensures IsNewRegistration(m, second, holder)
    ensures Registered(m, second, holder)[holder] == m[holder] + {second}
    ensures |Registered(m, second, holder)[holder]| == |m[holder]| + 1
  {
  }

  /** The registry, with its mutating operations. */
  class ObjectDependencyManager {
    var internalList: Registry

    ghost predicate Valid()
      reads this
    {
      NonEmptySets(internalList)
    }

    constructor ()
      ensures Valid() && internalList == map[]
    {
      internalList := map[];
    }

    /**
     * Sweeps, validates the arguments, then registers `weakRefDp` for
     * `objToHold`; returns whether the handle was newly registered.
     */
    method AddObjectDependency(weakRefDp: WeakRef, objToHold: Obj?, alive: set<Obj>) returns (r: Result<bool, Exception>)
      requires Valid()
      modifies this
      ensures Valid()
      ensures var swept := Swept(old(internalList), alive);
        match Validate(weakRefDp, objToHold, alive)
        case Some(e) => r == Failure(e) && internalList == swept
        case None =>
          && r == Success(IsNewRegistration(swept, weakRefDp, objToHold))
          && internalList == Registered(swept, weakRefDp, objToHold)
    {
      CleanUpAll(alive);

      if objToHold == null {
        return Failure(ArgumentNullException("objToHold", NullHolderMessage));
      }
      if objToHold.runtimeType == WeakReferenceType {
        return Failure(ArgumentException(Some("objToHold"), WeakReferenceHolderMessage));
      }
      if weakRefDp.Target(alive) == objToHold {
        return Failure(InvalidOperationException(CycleMessage));
      }

      RegisteredSpec(internalList, weakRefDp, objToHold);
      var itemRegistered := false;
      if objToHold !in internalList {
        internalList := internalList[objToHold := {weakRefDp}];
        itemRegistered := true;
      } else {
        var references := internalList[objToHold];
        if weakRefDp !in references {
          internalList := internalList[objToHold := references + {weakRefDp}];
          itemRegistered := true;
        }
      }
      return Success(itemRegistered);
    }

    /** `CleanUp()`: the same as `CleanUp(null)`, a full sweep. */
    method CleanUpAll(alive: set<Obj>)
      requires Valid()
      modifies this
      ensures Valid()
      ensures internalList == Swept(old(internalList), alive)
    {
      var _ := CleanUp(null, alive);
    }

    /**
     * `CleanUp(objToRemove)`: with a holder, removes its entry without looking
     * at liveness, or throws if it is not registered; with `null`, sweeps.
     */
    method CleanUp(objToRemove: Obj?, alive: set<Obj>) returns (r: Outcome<Exception>)
      requires Valid()
      modifies this
      ensures Valid()
      ensures objToRemove == null ==> r == Pass && internalList == Swept(old(internalList), alive)
      ensures objToRemove != null && objToRemove in old(internalList) ==>
        r == Pass && internalList == old(internalList) - {objToRemove}
      ensures objToRemove != null && objToRemove !in old(internalList) ==>
        r == Fail(GeneralException(KeyNotFoundMessage)) && internalList == old(internalList)
    {
      if objToRemove != null {
        if objToRemove !in internalList {
          return Fail(GeneralException(KeyNotFoundMessage));
        }
        internalList := internalList - {objToRemove};
        return Pass;
      }

      Sweep(alive);
      return Pass;
    }

    /** The full sweep of `CleanUp(null)`; the removals wait until the walk is over. */
    method Sweep(alive: set<Obj>)
      requires Valid()
      modifies this
      ensures Valid()
      ensures internalList == Swept(old(internalList), alive)
    {
      ghost var original := internalList;
      var keysToRemove := MarkOrPrune(alive);
      RemoveKeys(keysToRemove);
      assert internalList.Keys == Swept(original, alive).Keys;
      assert internalList == Swept(original, alive);
      SweepPreservesNonEmpty(original, alive);
    }

    /**
     * The first loop of the sweep: a holder whose handles are all dead is
     * marked for removal, and any other holder loses its dead handles.
     */
    method MarkOrPrune(alive: set<Obj>) returns (keysToRemove: seq<Obj>)
      modifies this
      ensures internalList.Keys == old(internalList).Keys
      ensures forall k :: k in keysToRemove ==> k in old(internalList) && !KeepsHolder(old(internalList)[k], alive)
      ensures forall k :: k in old(internalList) ==>
        if KeepsHolder(old(internalList)[k], alive)
        then internalList[k] == old(internalList)[k] - DeadHandles(old(internalList)[k], alive)
        else k in keysToRemove
    {
      ghost var original := internalList;
      keysToRemove := [];
      var pending := internalList.Keys;
      while pending != {}
        invariant pending <= original.Keys
        invariant internalList.Keys == original.Keys
        invariant forall k :: k in pending ==> internalList[k] == original[k]
        invariant forall k :: k in keysToRemove ==> k in original && k !in pending && !KeepsHolder(original[k], alive)
        invariant forall k :: k in original && k !in pending ==>
          if KeepsHolder(original[k], alive) then internalList[k] == original[k] - DeadHandles(original[k], alive)
          else k in keysToRemove
        decreases pending
      {
        var key :| key in pending;
        var drop, remaining := SweepHolder(internalList[key], alive);
        if drop {
          keysToRemove := keysToRemove + [key];
        } else {
          internalList := internalList[key := remaining];
        }
        pending := pending - {key};
      }
    }

    /** The last loop of the sweep: removes the holders marked for removal. */
    method RemoveKeys(keysToRemove: seq<Obj>)
      modifies this
      ensures internalList.Keys == old(internalList).Keys - set k | k in keysToRemove
      ensures forall k :: k in internalList ==> internalList[k] == old(internalList)[k]
    {
      var j := 0;
      while j < |keysToRemove|
        invariant 0 <= j <= |keysToRemove|
        invariant internalList.Keys == old(internalList).Keys - set k | k in keysToRemove[..j]
        invariant forall k :: k in internalList ==> internalList[k] == old(internalList)[k]
      {
        internalList := internalList - {keysToRemove[j]};
        j := j + 1;
      }
      assert keysToRemove[..j] == keysToRemove;
    }
  }

  /**
   * One holder's step of the sweep: collects its dead handles, then either
   * marks the holder for removal (all handles dead) or removes the dead ones.
   */
  method SweepHolder(handles: set<WeakRef>, alive: set<Obj>) returns (drop: bool, remaining: set<WeakRef>)
    ensures drop <==> !KeepsHolder(handles, alive)
    ensures !drop ==> remaining == handles - DeadHandles(handles, alive)
  {
    remaining := handles;
    drop := false;
    var deadReferences := CollectDead(handles, alive);
    ghost var dead := set w | w in deadReferences;
    if |deadReferences| > 0 {
      DistinctCardinality(deadReferences);
      if |deadReferences| == |handles| {
        SubsetOfEqualSize(dead, handles);
        drop := true;
      } else {
        var d := 0;
        while d < |deadReferences|
          invariant 0 <= d <= |deadReferences|
          invariant remaining == handles - set w | w in deadReferences[..d]
        {
          remaining := remaining - {deadReferences[d]};
          d := d + 1;
        }
        assert deadReferences[..d] == deadReferences;
      }
    }
  }

  /**
   * The inner loop of the sweep: the dead handles of one holder, each once
   * (a `List<WeakReference>` filled while enumerating a hash set).
   */
  method CollectDead(handles: set<WeakRef>, alive: set<Obj>) returns (dead: seq<WeakRef>)
    ensures Distinct(dead)
    ensures (set w | w in dead) == DeadHandles(handles, alive)
  {
    dead := [];
    var rest := handles;
    ghost var visited: set<WeakRef> := {};
    while rest != {}
      invariant rest <= handles && visited == handles - rest
      invariant Distinct(dead)
      invariant forall w :: w in dead ==> w in visited
      invariant (set w | w in dead) == DeadHandles(visited, alive)
      decreases rest
    {
      var target :| target in rest;
      ghost var before := set w | w in dead;
      if target.Target(alive) == null {
        dead := dead + [target];
        assert (set w | w in dead) == before + {target};
      } else {
        assert (set w | w in dead) == before;
      }
      assert DeadHandles(visited + {target}, alive) == DeadHandles(visited, alive) + (if target.Target(alive) == null then {target} else {});
      visited := visited + {target};
      rest := rest - {target};
    }
  }
}

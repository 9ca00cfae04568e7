/**
 * `TargetObjectsDictionary`: the earlier version of `TargetObjectsList`,
 * with the same three indexed collections and dead-handle queue. Its
 * `ClearDeadReferences` drops the whole hash bucket of each dead key, so the
 * invariant it keeps is `WeakValid`: a bucket's members are keys under its
 * hash, but a key need not be in any bucket.
 */
module TargetObjectsDictionary {
  import opened Wrappers
  import opened Objects
  import opened Handles
  import opened TargetInfos
  import opened TargetIndex

  class TargetObjectsDictionary {
    var targetObjects: map<WeakRef, TargetObjectValue>
    var hashCodeTargetObjects: map<int, seq<WeakRef>>
    var nestedTargetObjects: set<WeakRef>
    var deadTargets: seq<WeakRef>

    /** The three indexed collections as one value. */
    function Snapshot(): Index
      reads this
    {
      Index(targetObjects, hashCodeTargetObjects, nestedTargetObjects)
    }

    ghost predicate Valid()
      reads this
    {
      WeakValid(Snapshot())
    }

    constructor ()
      ensures Valid() && TargetIndex.Valid(Snapshot()) && Snapshot() == Empty && deadTargets == []
    {
      targetObjects := map[];
      hashCodeTargetObjects := map[];
      nestedTargetObjects := {};
      deadTargets := [];
    }

    /** `Count`: the number of handles, dead ones included until they are cleared. */
    function Count(): nat
      reads this
    {
      |targetObjects|
    }

    /** `AddTargetObject`: a fresh handle into the primary map, its hash bucket and, for a nested target, the nested subset. */
    method AddTargetObject(targetObject: Obj) returns (wr: WeakRef)
      requires Valid()
      modifies this
      ensures Valid()
      ensures old(TargetIndex.Valid(Snapshot())) ==> TargetIndex.Valid(Snapshot())
      ensures fresh(wr) && wr.referent == targetObject
      ensures Snapshot() == AddTarget(old(Snapshot()), wr, targetObject)
      ensures Count() == old(Count()) + 1
      ensures deadTargets == old(deadTargets)
    {
      wr := new WeakRef(targetObject);
      AddTargetPreserves(Snapshot(), wr, targetObject);
      var added := AddTarget(Snapshot(), wr, targetObject);
      targetObjects, hashCodeTargetObjects, nestedTargetObjects :=
        added.targetObjects, added.hashCodeTargetObjects, added.nestedTargetObjects;
    }

    /** `AddTargetObjectProperty`: records a property binding of a key, once; a missing key fails the indexer. */
    method AddTargetObjectProperty(wr: WeakRef, targetProperty: Obj?, targetPropertyType: Obj?, targetPropertyIndex: int)
      returns (r: Outcome<Exception>)
      requires Valid()
      modifies this
      ensures Valid()
      ensures wr !in old(targetObjects) ==> r == Fail(KeyNotFoundException) && Snapshot() == old(Snapshot())
      ensures wr in old(targetObjects) ==>
        r == Pass
        && Snapshot() == WithProperty(old(Snapshot()), wr, TargetPropertyInfo(targetProperty, targetPropertyType, targetPropertyIndex))
      ensures deadTargets == old(deadTargets)
    {
      if wr !in targetObjects {
        return Fail(KeyNotFoundException);
      }
      var targetPropertyInfo := TargetPropertyInfo(targetProperty, targetPropertyType, targetPropertyIndex);
      var targetObjectProperties := targetObjects[wr].targetProperties;
      WithPropertyIdempotent(Snapshot(), wr, targetPropertyInfo);
      if targetPropertyInfo !in targetObjectProperties {
        targetObjects := targetObjects[wr := targetObjects[wr].(targetProperties := targetObjectProperties + {targetPropertyInfo})];
      }
      SetPropertiesPreserves(old(Snapshot()), wr, targetObjectProperties + {targetPropertyInfo});
      return Pass;
    }

    /**
     * `TryFindKey`: a found handle is a key whose live target is the object;
     * a miss means no key targets it only while every key is in its bucket.
     */
    function TryFindKey(targetObject: Obj, alive: set<Obj>): (r: WeakRef?)
      requires Valid()
      reads this
      ensures r != null ==> r in targetObjects && r.Target(alive) == targetObject
      ensures TargetIndex.Valid(Snapshot()) ==>
        (r == null <==> forall w :: w in targetObjects ==> w.Target(alive) != targetObject)
    {
      LookupSound(Snapshot(), targetObject, alive);
      forall w | TargetIndex.Valid(Snapshot()) && w in targetObjects && w.Target(alive) == targetObject
        ensures Lookup(Snapshot(), targetObject, alive) != null
      {
        LookupComplete(Snapshot(), targetObject, alive, w);
      }
      Lookup(Snapshot(), targetObject, alive)
    }

    /** `IsConnected`: the key found for the info's target records the info's property. */
    predicate IsConnected(info: TargetInfo, alive: set<Obj>)
      requires Valid()
      requires info.targetObject != null
      reads this
      ensures IsConnected(info, alive) ==>
        exists w :: w in targetObjects && w.Target(alive) == info.targetObject
          && PropertyOf(info) in targetObjects[w].targetProperties
    {
      LookupSound(Snapshot(), info.targetObject, alive);
      Connected(Snapshot(), info, alive)
    }

    /** `GetTargetInfos`, enumerated to the end: the infos of the live keys; dead keys are queued. */
    method GetTargetInfos(alive: set<Obj>) returns (infos: seq<TargetInfo>)
      requires Valid()
      modifies this
      ensures Valid() && Snapshot() == old(Snapshot())
      ensures (set x | x in infos) == InfosOf(targetObjects, targetObjects.Keys, alive)
      ensures |deadTargets| >= |old(deadTargets)| && deadTargets[..|old(deadTargets)|] == old(deadTargets)
      ensures var queued := deadTargets[|old(deadTargets)|..];
        Distinct(queued) && (set w | w in queued) == DeadOf(targetObjects.Keys, alive)
    {
      var dead;
      infos, dead := CollectInfos(targetObjects, targetObjects.Keys, alive);
      deadTargets := deadTargets + dead;
      assert deadTargets[|old(deadTargets)|..] == dead;
    }

    /** `GetNestedTargetInfos`, enumerated to the end: as `GetTargetInfos`, over the nested subset. */
    method GetNestedTargetInfos(alive: set<Obj>) returns (infos: seq<TargetInfo>)
      requires Valid()
      modifies this
      ensures Valid() && Snapshot() == old(Snapshot())
      ensures (set x | x in infos) == InfosOf(targetObjects, nestedTargetObjects, alive)
      ensures |deadTargets| >= |old(deadTargets)| && deadTargets[..|old(deadTargets)|] == old(deadTargets)
      ensures var queued := deadTargets[|old(deadTargets)|..];
        Distinct(queued) && (set w | w in queued) == DeadOf(nestedTargetObjects, alive)
    {
      var dead;
      infos, dead := CollectInfos(targetObjects, nestedTargetObjects, alive);
      deadTargets := deadTargets + dead;
      assert deadTargets[|old(deadTargets)|..] == dead;
    }

    /**
     * `ClearDeadReferences`: for each queued handle still a key, removes it
     * and the whole bucket of its hash code; then empties the queue.
     */
    method ClearDeadReferences()
      requires Valid()
      modifies this
      ensures Valid()
      ensures Snapshot() == DropAll(old(Snapshot()), old(deadTargets))
      ensures targetObjects.Keys == old(targetObjects).Keys - set w | w in old(deadTargets)
      ensures deadTargets == []
    {
      if deadTargets == [] {
        return;
      }
      var i := 0;
      while i < |deadTargets|
        invariant 0 <= i <= |deadTargets|
        invariant deadTargets == old(deadTargets)
        invariant Valid()
        invariant Snapshot() == DropAll(old(Snapshot()), deadTargets[..i])
      {
        var deadWeakReference := deadTargets[i];
        assert deadTargets[..i + 1][..i] == deadTargets[..i];
        DropDeadPreservesWeak(Snapshot(), deadWeakReference);
        if deadWeakReference in targetObjects {
          var targetValue := targetObjects[deadWeakReference];
          hashCodeTargetObjects := hashCodeTargetObjects - {targetValue.targetObjectHashCode};
          targetObjects := targetObjects - {deadWeakReference};
          nestedTargetObjects := nestedTargetObjects - {deadWeakReference};
        }
        i := i + 1;
      }
      assert deadTargets[..i] == deadTargets;
      deadTargets := [];
    }

    /** `Dispose`: empties all four collections. */
    method Dispose()
      modifies this
      ensures Valid() && TargetIndex.Valid(Snapshot()) && Snapshot() == Empty && deadTargets == [] && Count() == 0
    {
      targetObjects := map[];
      hashCodeTargetObjects := map[];
      nestedTargetObjects := {};
      deadTargets := [];
    }
  }
}

/**
 * `TargetObjectsList`: the targets a markup extension is applied to, held
 * weakly, with the property bindings of each, a hash-code index for finding
 * the handle of a given object, the subset of nested-extension targets, and a
 * queue of handles found dead during enumeration.
 */
module TargetObjectsList {
  import opened Wrappers
  import opened Objects
  import opened Handles
  import opened TargetInfos
  import opened TargetIndex

  class TargetObjectsList {
    var targetObjects: map<WeakRef, TargetObjectValue>
    var hashCodeTargetObjects: map<int, seq<WeakRef>>
    var nestedTargetObjects: set<WeakRef>
    var deadTargets: seq<WeakRef>

    /** The three indexed collections as one value. */
    function Snapshot(): Index
      reads this
    {
      Index(targetObjects, hashCodeTargetObjects, nestedTargetObjects)
    }

    ghost predicate Valid()
      reads this
    {
      TargetIndex.Valid(Snapshot())
    }

    constructor ()
      ensures Valid() && Snapshot() == Empty && deadTargets == []
    {
      targetObjects := map[];
      hashCodeTargetObjects := map[];
      nestedTargetObjects := {};
      deadTargets := [];
    }

    /** `Count`: the number of handles, dead ones included until they are cleared. */
    function Count(): nat
      reads this
    {
      |targetObjects|
    }

    /**
     * `AddTargetObject`: always a fresh handle, with no check for a handle
     * already targeting the same object.
     */
    method AddTargetObject(targetObject: Obj) returns (wr: WeakRef)
      requires Valid()
      modifies this
      ensures Valid()
      ensures fresh(wr) && wr.referent == targetObject
      ensures Snapshot() == AddTarget(old(Snapshot()), wr, targetObject)
      ensures Count() == old(Count()) + 1
      ensures targetObjects[wr] == TargetObjectValue(targetObject.hash, {})
      ensures hashCodeTargetObjects[targetObject.hash] == BucketOf(old(Snapshot()), targetObject.hash) + [wr]
      ensures wr in nestedTargetObjects <==> targetObject.IsNestedExtension()
      ensures deadTargets == old(deadTargets)
    {
      wr := new WeakRef(targetObject);
      assert wr !in targetObjects;
      ghost var expected := AddTarget(Snapshot(), wr, targetObject);
      AddTargetPreserves(Snapshot(), wr, targetObject);
      var targetObjectHashCode := targetObject.hash;
      targetObjects := targetObjects[wr := TargetObjectValue(targetObjectHashCode, {})];
      var buckets := hashCodeTargetObjects;
      if targetObjectHashCode !in buckets {
        buckets := buckets[targetObjectHashCode := []];
      }
      hashCodeTargetObjects := buckets[targetObjectHashCode := buckets[targetObjectHashCode] + [wr]];
      if targetObject.IsNestedExtension() {
        nestedTargetObjects := nestedTargetObjects + {wr};
      }
      assert hashCodeTargetObjects == expected.hashCodeTargetObjects;
      assert Snapshot() == expected;
    }

    /**
     * `AddTargetObjectProperty`: records a property binding of a key, once;
     * a handle that is not a key fails the dictionary indexer.
     */
    method AddTargetObjectProperty(wr: WeakRef, targetProperty: Obj?, targetPropertyType: Obj?, targetPropertyIndex: int)
      returns (r: Outcome<Exception>)
      requires Valid()
      modifies this
      ensures Valid()
      ensures wr !in old(targetObjects) ==> r == Fail(KeyNotFoundException) && Snapshot() == old(Snapshot())
      ensures wr in old(targetObjects) ==>
        r == Pass
        && Snapshot() == WithProperty(old(Snapshot()), wr, TargetPropertyInfo(targetProperty, targetPropertyType, targetPropertyIndex))
      ensures deadTargets == old(deadTargets)
    {
      if wr !in targetObjects {
        return Fail(KeyNotFoundException);
      }
      var targetPropertyInfo := TargetPropertyInfo(targetProperty, targetPropertyType, targetPropertyIndex);
      var targetObjectProperties := targetObjects[wr].targetProperties;
      WithPropertyIdempotent(Snapshot(), wr, targetPropertyInfo);
      if targetPropertyInfo !in targetObjectProperties {
        targetObjects := targetObjects[wr := targetObjects[wr].(targetProperties := targetObjectProperties + {targetPropertyInfo})];
      }
      SetPropertiesPreserves(old(Snapshot()), wr, targetObjectProperties + {targetPropertyInfo});
      return Pass;
    }

    /**
     * `TryFindKey`: the first handle in the object's hash bucket whose live
     * target is the object; `null` when no key targets it.
     */
    function TryFindKey(targetObject: Obj, alive: set<Obj>): (r: WeakRef?)
      requires Valid()
      reads this
      ensures r != null ==> r in targetObjects && r.Target(alive) == targetObject
      ensures r != null ==>
        var bucket := hashCodeTargetObjects[targetObject.hash];
        exists i :: 0 <= i < |bucket| && bucket[i] == r
          && forall j :: 0 <= j < i ==> bucket[j].Target(alive) != targetObject
      ensures r == null <==> forall w :: w in targetObjects ==> w.Target(alive) != targetObject
    {
      LookupSound(Snapshot(), targetObject, alive);
      forall w | w in targetObjects && w.Target(alive) == targetObject
        ensures Lookup(Snapshot(), targetObject, alive) != null
      {
        LookupComplete(Snapshot(), targetObject, alive, w);
      }
      Lookup(Snapshot(), targetObject, alive)
    }

    /**
     * `IsConnected`: the key found for the info's target records the info's
     * property; when no two keys share a live target, that is the same as
     * some key doing so.
     */
    predicate IsConnected(info: TargetInfo, alive: set<Obj>)
      requires Valid()
      requires info.targetObject != null
      reads this
      ensures IsConnected(info, alive) ==>
        exists w :: w in targetObjects && w.Target(alive) == info.targetObject
          && PropertyOf(info) in targetObjects[w].targetProperties
      ensures LiveTargetsUnique(Snapshot(), alive) ==>
        (IsConnected(info, alive) <==>
          exists w :: w in targetObjects && w.Target(alive) == info.targetObject
            && PropertyOf(info) in targetObjects[w].targetProperties)
    {
      ConnectedSpec(Snapshot(), info, alive);
      Connected(Snapshot(), info, alive)
    }

    /**
     * `RemoveTargetInfo`: removes the info's property from the key found for
     * its target, and the key itself once it has no property left; returns
     * whether the property was there.
     */
    method RemoveTargetInfo(info: TargetInfo, alive: set<Obj>) returns (removed: bool)
      requires Valid()
      requires info.targetObject != null
      modifies this
      ensures Valid()
      ensures (removed, Snapshot()) == RemoveInfo(old(Snapshot()), info, alive)
      ensures removed == old(IsConnected(info, alive))
      ensures deadTargets == old(deadTargets)
    {
      RemoveInfoSpec(Snapshot(), info, alive);
      var wr := TryFindKey(info.targetObject, alive);
      if wr == null {
        return false;
      }
      var targetProperties := targetObjects[wr].targetProperties;
      var targetPropertyInfo := PropertyOf(info);
      removed := targetPropertyInfo in targetProperties;
      targetProperties := targetProperties - {targetPropertyInfo};
      targetObjects := targetObjects[wr := targetObjects[wr].(targetProperties := targetProperties)];
      SetPropertiesPreserves(old(Snapshot()), wr, targetProperties);
      if removed && |targetProperties| == 0 {
        RemoveTargetObject(wr);
      }
    }

    /**
     * `GetTargetInfos`, enumerated to the end: the infos of the live keys,
     * with the dead keys appended to the queue; the table is not changed.
     */
    method GetTargetInfos(alive: set<Obj>) returns (infos: seq<TargetInfo>)
      requires Valid()
      modifies this
      ensures Valid() && Snapshot() == old(Snapshot())
      ensures (set x | x in infos) == InfosOf(targetObjects, targetObjects.Keys, alive)
      ensures |deadTargets| >= |old(deadTargets)| && deadTargets[..|old(deadTargets)|] == old(deadTargets)
      ensures var queued := deadTargets[|old(deadTargets)|..];
        Distinct(queued) && (set w | w in queued) == DeadOf(targetObjects.Keys, alive)
    {
      var dead;
      infos, dead := CollectInfos(targetObjects, targetObjects.Keys, alive);
      deadTargets := deadTargets + dead;
      assert deadTargets[|old(deadTargets)|..] == dead;
    }

    /**
     * `GetNestedTargetInfos`, enumerated to the end: as `GetTargetInfos`,
     * over the nested subset.
     */
    method GetNestedTargetInfos(alive: set<Obj>) returns (infos: seq<TargetInfo>)
      requires Valid()
      modifies this
      ensures Valid() && Snapshot() == old(Snapshot())
      ensures (set x | x in infos) == InfosOf(targetObjects, nestedTargetObjects, alive)
      ensures |deadTargets| >= |old(deadTargets)| && deadTargets[..|old(deadTargets)|] == old(deadTargets)
      ensures var queued := deadTargets[|old(deadTargets)|..];
        Distinct(queued) && (set w | w in queued) == DeadOf(nestedTargetObjects, alive)
    {
      var dead;
      infos, dead := CollectInfos(targetObjects, nestedTargetObjects, alive);
      deadTargets := deadTargets + dead;
      assert deadTargets[|old(deadTargets)|..] == dead;
    }

    /** `ClearDeadReferences`: removes every queued handle that is still a key, then empties the queue. */
    method ClearDeadReferences()
      requires Valid()
      modifies this
      ensures Valid()
      ensures Snapshot() == RemoveAll(old(Snapshot()), old(deadTargets))
      ensures deadTargets == []
    {
      if deadTargets == [] {
        return;
      }
      var i := 0;
      while i < |deadTargets|
        invariant 0 <= i <= |deadTargets|
        invariant deadTargets == old(deadTargets)
        invariant Valid()
        invariant Snapshot() == RemoveAll(old(Snapshot()), deadTargets[..i])
      {
        RemoveTargetObject(deadTargets[i]);
        assert deadTargets[..i + 1][..i] == deadTargets[..i];
        i := i + 1;
      }
      assert deadTargets[..i] == deadTargets;
      deadTargets := [];
    }

    /** `ClearReferences`: queues the given handles and clears as `ClearDeadReferences` does. */
    method ClearReferences(references: seq<WeakRef>)
      requires Valid()
      modifies this
      ensures Valid()
      ensures Snapshot() == RemoveAll(old(Snapshot()), old(deadTargets) + references)
      ensures deadTargets == []
    {
      deadTargets := deadTargets + references;
      ClearDeadReferences();
    }

    /** `Clear`: empties all four collections. */
    method Clear()
      modifies this
      ensures Valid() && Snapshot() == Empty && deadTargets == [] && Count() == 0
    {
      targetObjects := map[];
      hashCodeTargetObjects := map[];
      nestedTargetObjects := {};
      deadTargets := [];
    }

    /** `RemoveTargetObject`: takes one handle out of all three indexed collections. */
    method RemoveTargetObject(targetObjectWeakReference: WeakRef)
      requires Valid()
      modifies this
      ensures Valid()
      ensures Snapshot() == RemoveTarget(old(Snapshot()), targetObjectWeakReference)
      ensures deadTargets == old(deadTargets)
    {
      RemoveTargetPreserves(Snapshot(), targetObjectWeakReference);
      if targetObjectWeakReference !in targetObjects {
        return;
      }
      var h := targetObjects[targetObjectWeakReference].targetObjectHashCode;
      var bucket := RemoveFirst(hashCodeTargetObjects[h], targetObjectWeakReference);
      if bucket == [] {
        hashCodeTargetObjects := hashCodeTargetObjects - {h};
      } else {
        hashCodeTargetObjects := hashCodeTargetObjects[h := bucket];
      }
      targetObjects := targetObjects - {targetObjectWeakReference};
      nestedTargetObjects := nestedTargetObjects - {targetObjectWeakReference};
    }
  }

  /** After enumeration and clean-up, no handle found dead remains and every live key is kept. */
  lemma {:induction false} EnumerateThenClear(ix: Index, queued: seq<WeakRef>, alive: set<Obj>)
    requires TargetIndex.Valid(ix)
    requires (set w | w in queued) == DeadOf(ix.targetObjects.Keys, alive)
    ensures var r := RemoveAll(ix, queued);
      (forall w :: w in r.targetObjects ==> w.Target(alive) != null)
      && (forall w :: w in ix.targetObjects && w.Target(alive) != null ==> w in r.targetObjects)
  {
  }
}

/**
 * The table shared by `TargetObjectsList` and `TargetObjectsDictionary`: a
 * primary map from weak handles to target data, a secondary index from hash
 * codes to the handles whose targets have that hash (a `List<WeakReference>`
 * per hash, since distinct objects may share a hash code), and the subset of
 * handles whose targets are nested markup extensions.
 *
 * The state is a value here (`Index`); the two classes hold its three parts
 * as fields and are specified through it.
 */
module TargetIndex {
  import opened Wrappers
  import opened Objects
  import opened Handles
  import opened TargetInfos

  /** What is recorded per property binding of a target: compared by value. */
  datatype TargetPropertyInfo = TargetPropertyInfo(
    targetProperty: Obj?,
    targetPropertyType: Obj?,
    targetPropertyIndex: int)

  /** `TargetObjectValue`: the target's hash code, taken once, and its property set. */
  datatype TargetObjectValue = TargetObjectValue(
    targetObjectHashCode: int,
    targetProperties: set<TargetPropertyInfo>)

  datatype Index = Index(
    targetObjects: map<WeakRef, TargetObjectValue>,
    hashCodeTargetObjects: map<int, seq<WeakRef>>,
    nestedTargetObjects: set<WeakRef>)

  const Empty := Index(map[], map[], {})

  /** The property part of a `TargetInfo`. */
  function PropertyOf(info: TargetInfo): TargetPropertyInfo {
    TargetPropertyInfo(info.targetProperty, info.targetPropertyType, info.targetPropertyIndex)
  }

  // ---------------------------------------------------------------------
  // Invariant
  // ---------------------------------------------------------------------

  /** Every key refers to an object and records that object's hash code. */
  ghost predicate KeysWellFormed(ix: Index) {
    forall w :: w in ix.targetObjects ==>
      w.referent != null && ix.targetObjects[w].targetObjectHashCode == w.referent.hash
  }

  /** The nested subset holds exactly the keys whose targets are nested markup extensions. */
  ghost predicate NestedExact(ix: Index) {
    (forall w :: w in ix.nestedTargetObjects ==>
       w in ix.targetObjects && w.referent != null && w.referent.IsNestedExtension())
    && (forall w :: w in ix.targetObjects && w.referent != null && w.referent.IsNestedExtension() ==>
          w in ix.nestedTargetObjects)
  }

  /** One bucket: non-empty, free of duplicates, and made of keys recorded under its hash. */
  ghost predicate BucketSound(ix: Index, h: int)
    requires h in ix.hashCodeTargetObjects
  {
    var b := ix.hashCodeTargetObjects[h];
    b != [] && Distinct(b)
    && forall i :: 0 <= i < |b| ==>
         b[i] in ix.targetObjects && ix.targetObjects[b[i]].targetObjectHashCode == h
  }

  ghost predicate BucketsSound(ix: Index) {
    forall h :: h in ix.hashCodeTargetObjects ==> BucketSound(ix, h)
  }

  /** Every key sits in the bucket of its recorded hash code. */
  ghost predicate BucketsComplete(ix: Index) {
    forall w :: w in ix.targetObjects ==>
      ix.targetObjects[w].targetObjectHashCode in ix.hashCodeTargetObjects
      && w in ix.hashCodeTargetObjects[ix.targetObjects[w].targetObjectHashCode]
  }

  /** What remains when buckets may have been dropped wholesale. */
  ghost predicate WeakValid(ix: Index) {
    KeysWellFormed(ix) && NestedExact(ix) && BucketsSound(ix)
  }

  /** The index invariant. */
  ghost predicate Valid(ix: Index) {
    WeakValid(ix) && BucketsComplete(ix)
  }

  lemma EmptyValid()
    ensures Valid(Empty)
  {
  }

  // ---------------------------------------------------------------------
  // Queries
  // ---------------------------------------------------------------------

  /** `TryFindKey(o)`: the first handle in `o`'s bucket whose live target is `o`. */
  function Lookup(ix: Index, o: Obj, alive: set<Obj>): WeakRef? {
    if o.hash in ix.hashCodeTargetObjects then FirstLive(ix.hashCodeTargetObjects[o.hash], o, alive)
    else null
  }

  /** A found handle is a key whose live target is `o`. */
  lemma LookupSound(ix: Index, o: Obj, alive: set<Obj>)
    requires BucketsSound(ix)
    ensures var r := Lookup(ix, o, alive);
      r != null ==> r in ix.targetObjects && r.Target(alive) == o
  {
    var r := Lookup(ix, o, alive);
    if r != null {
      var b := ix.hashCodeTargetObjects[o.hash];
      assert BucketSound(ix, o.hash);
      var i :| 0 <= i < |b| && b[i] == r;
    }
  }

  /** Under the full invariant, `Lookup` misses only when no key's live target is `o`. */
  lemma LookupComplete(ix: Index, o: Obj, alive: set<Obj>, w: WeakRef)
    requires Valid(ix)
    requires w in ix.targetObjects && w.Target(alive) == o
    ensures Lookup(ix, o, alive) != null
  {
    var h := ix.targetObjects[w].targetObjectHashCode;
    assert h == o.hash;
    var b := ix.hashCodeTargetObjects[h];
    var i :| 0 <= i < |b| && b[i] == w;
  }

  /** `IsConnected(info)`: the handle `TryFindKey` picks records `info`'s property. */
  predicate Connected(ix: Index, info: TargetInfo, alive: set<Obj>)
    requires BucketsSound(ix)
    requires info.targetObject != null
  {
    var wr := Lookup(ix, info.targetObject, alive);
    LookupSound(ix, info.targetObject, alive);
    wr != null && PropertyOf(info) in ix.targetObjects[wr].targetProperties
  }

  /** No two keys share a live target. */
  ghost predicate LiveTargetsUnique(ix: Index, alive: set<Obj>) {
    forall w1, w2 ::
      (w1 in ix.targetObjects && w2 in ix.targetObjects
       && w1.Target(alive) != null && w1.Target(alive) == w2.Target(alive)) ==> w1 == w2
  }

  /**
   * `Connected` means some key targeting `info`'s object records the
   * property; the converse holds when live targets are not duplicated.
   */
  lemma ConnectedSpec(ix: Index, info: TargetInfo, alive: set<Obj>)
    requires Valid(ix)
    requires info.targetObject != null
    ensures Connected(ix, info, alive) ==>
      exists w :: w in ix.targetObjects && w.Target(alive) == info.targetObject
        && PropertyOf(info) in ix.targetObjects[w].targetProperties
    ensures LiveTargetsUnique(ix, alive) ==>
      (Connected(ix, info, alive) <==>
        exists w :: w in ix.targetObjects && w.Target(alive) == info.targetObject
          && PropertyOf(info) in ix.targetObjects[w].targetProperties)
  {
    LookupSound(ix, info.targetObject, alive);
    if LiveTargetsUnique(ix, alive) {
      forall w | w in ix.targetObjects && w.Target(alive) == info.targetObject
        ensures Lookup(ix, info.targetObject, alive) == w
      {
        LookupComplete(ix, info.targetObject, alive, w);
      }
    }
  }

  // ---------------------------------------------------------------------
  // Updates
  // ---------------------------------------------------------------------

  /** `hashCodeTargetObjects[h]`, or the empty list when there is no bucket. */
  function BucketOf(ix: Index, h: int): seq<WeakRef> {
    if h in ix.hashCodeTargetObjects then ix.hashCodeTargetObjects[h] else []
  }

  /**
   * `AddTargetObject`: a new key with no properties, appended to the bucket
   * of the target's hash, and to the nested subset for a nested extension.
   */
  function AddTarget(ix: Index, wr: WeakRef, o: Obj): Index {
    Index(
      ix.targetObjects[wr := TargetObjectValue(o.hash, {})],
      ix.hashCodeTargetObjects[o.hash := BucketOf(ix, o.hash) + [wr]],
      if o.IsNestedExtension() then ix.nestedTargetObjects + {wr} else ix.nestedTargetObjects)
  }

  /** Adding a handle not yet a key keeps the invariant (full or weak) and adds exactly that key. */
  lemma AddTargetPreserves(ix: Index, wr: WeakRef, o: Obj)
    requires WeakValid(ix) && wr !in ix.targetObjects && wr.referent == o
    ensures var r := AddTarget(ix, wr, o);
      WeakValid(r)
      && (Valid(ix) ==> Valid(r))
      && r.targetObjects.Keys == ix.targetObjects.Keys + {wr}
      && r.hashCodeTargetObjects[o.hash] == BucketOf(ix, o.hash) + [wr]
      && (wr in r.nestedTargetObjects <==> o.IsNestedExtension())
  {
    var r := AddTarget(ix, wr, o);
    forall h | h in r.hashCodeTargetObjects ensures BucketSound(r, h) {
      if h != o.hash {
        assert BucketSound(ix, h);
      } else if h in ix.hashCodeTargetObjects {
        assert BucketSound(ix, h);
        var b := ix.hashCodeTargetObjects[h];
        assert wr !in b;
      }
    }
  }

  /** `AddTargetObjectProperty`: the property joins the key's set (a set: adding twice is adding once). */
  function WithProperty(ix: Index, wr: WeakRef, p: TargetPropertyInfo): Index
    requires wr in ix.targetObjects
  {
    var v := ix.targetObjects[wr];
    ix.(targetObjects := ix.targetObjects[wr := v.(targetProperties := v.targetProperties + {p})])
  }

  /** Replacing a key's property set leaves the invariant alone. */
  lemma SetPropertiesPreserves(ix: Index, wr: WeakRef, props: set<TargetPropertyInfo>)
    requires wr in ix.targetObjects
    ensures var r := ix.(targetObjects := ix.targetObjects[wr := ix.targetObjects[wr].(targetProperties := props)]);
      (WeakValid(ix) ==> WeakValid(r)) && (Valid(ix) ==> Valid(r))
      && r.targetObjects.Keys == ix.targetObjects.Keys
  {
    var r := ix.(targetObjects := ix.targetObjects[wr := ix.targetObjects[wr].(targetProperties := props)]);
    if WeakValid(ix) {
      forall h | h in r.hashCodeTargetObjects ensures BucketSound(r, h) {
        assert BucketSound(ix, h);
      }
    }
  }

  /** Adding a property is idempotent and records it. */
  lemma WithPropertyIdempotent(ix: Index, wr: WeakRef, p: TargetPropertyInfo)
    requires wr in ix.targetObjects
    ensures p in WithProperty(ix, wr, p).targetObjects[wr].targetProperties
    ensures WithProperty(WithProperty(ix, wr, p), wr, p) == WithProperty(ix, wr, p)
    ensures p in ix.targetObjects[wr].targetProperties ==> WithProperty(ix, wr, p) == ix
  {
    var v := ix.targetObjects[wr];
    assert v.targetProperties + {p} + {p} == v.targetProperties + {p};
    if p in v.targetProperties {
      assert v.targetProperties + {p} == v.targetProperties;
      assert ix.targetObjects[wr := v] == ix.targetObjects;
    }
  }

  /**
   * `RemoveTargetObject` of `TargetObjectsList`: a key leaves the primary
   * map, the first occurrence in its bucket (dropping the bucket once empty)
   * and the nested subset; a handle that is not a key changes nothing.
   */
  function RemoveTarget(ix: Index, wr: WeakRef): Index
    requires Valid(ix)
  {
    if wr !in ix.targetObjects then ix
    else
      var h := ix.targetObjects[wr].targetObjectHashCode;
      var bucket := RemoveFirst(ix.hashCodeTargetObjects[h], wr);
      Index(
        ix.targetObjects - {wr},
        if bucket == [] then ix.hashCodeTargetObjects - {h} else ix.hashCodeTargetObjects[h := bucket],
        ix.nestedTargetObjects - {wr})
  }

  /** Removing a key keeps the invariant, removes just that key and leaves every other entry alone. */
  lemma RemoveTargetPreserves(ix: Index, wr: WeakRef)
    requires Valid(ix)
    ensures var r := RemoveTarget(ix, wr);
      Valid(r)
      && r.targetObjects.Keys == ix.targetObjects.Keys - {wr}
      && (forall w :: w in r.targetObjects ==> r.targetObjects[w] == ix.targetObjects[w])
      && r.nestedTargetObjects == ix.nestedTargetObjects - {wr}
  {
    if wr in ix.targetObjects {
      var r := RemoveTarget(ix, wr);
      var h := ix.targetObjects[wr].targetObjectHashCode;
      var old_b := ix.hashCodeTargetObjects[h];
      assert BucketSound(ix, h);
      var bucket := RemoveFirst(old_b, wr);
      RemoveFirstSpec(old_b, wr);
      forall g | g in r.hashCodeTargetObjects ensures BucketSound(r, g) {
        assert BucketSound(ix, g);
        if g == h {
          var b := r.hashCodeTargetObjects[g];
          assert b == bucket;
          forall i | 0 <= i < |b| ensures b[i] in r.targetObjects && r.targetObjects[b[i]].targetObjectHashCode == g {
            assert b[i] in old_b && b[i] != wr;
          }
        } else {
          var b := r.hashCodeTargetObjects[g];
          forall i | 0 <= i < |b| ensures b[i] != wr {
            assert ix.targetObjects[b[i]].targetObjectHashCode == g;
          }
        }
      }
      forall w | w in r.targetObjects
        ensures r.targetObjects[w].targetObjectHashCode in r.hashCodeTargetObjects
        ensures w in r.hashCodeTargetObjects[r.targetObjects[w].targetObjectHashCode]
      {
        var g := ix.targetObjects[w].targetObjectHashCode;
        if g == h {
          var i :| 0 <= i < |old_b| && old_b[i] == w;
          assert w in bucket;
        }
      }
    }
  }

  /** Removing each handle of `dead` in turn (`ClearDeadReferences` of `TargetObjectsList`). */
  function RemoveAll(ix: Index, dead: seq<WeakRef>): (r: Index)
    requires Valid(ix)
    ensures Valid(r)
    ensures r.targetObjects.Keys == ix.targetObjects.Keys - set w | w in dead
    ensures forall w :: w in r.targetObjects ==> r.targetObjects[w] == ix.targetObjects[w]
    ensures r.nestedTargetObjects == ix.nestedTargetObjects - set w | w in dead
    decreases |dead|
  {
    if dead == [] then ix
    else
      var init := dead[..|dead| - 1];
      var prefix := RemoveAll(ix, init);
      RemoveTargetPreserves(prefix, dead[|dead| - 1]);
      assert (set w | w in dead) == (set w | w in init) + {dead[|dead| - 1]};
      RemoveTarget(prefix, dead[|dead| - 1])
  }

  /**
   * `RemoveTargetInfo`: the property of `info` leaves the set of the key
   * `TryFindKey` picks; a key whose last property goes is removed. Returns
   * whether the property was there.
   */
  function RemoveInfo(ix: Index, info: TargetInfo, alive: set<Obj>): (bool, Index)
    requires Valid(ix)
    requires info.targetObject != null
  {
    var wr := Lookup(ix, info.targetObject, alive);
    if wr == null then (false, ix)
    else
      LookupSound(ix, info.targetObject, alive);
      var v := ix.targetObjects[wr];
      var removed := PropertyOf(info) in v.targetProperties;
      var props := v.targetProperties - {PropertyOf(info)};
      var updated := ix.(targetObjects := ix.targetObjects[wr := v.(targetProperties := props)]);
      SetPropertiesPreserves(ix, wr, props);
      (removed, if removed && props == {} then RemoveTarget(updated, wr) else updated)
  }

  /**
   * `RemoveTargetInfo` reports exactly whether the info was connected; it
   * keeps the invariant; it changes only the found key, and removes that key
   * exactly when its last property went.
   */
  lemma RemoveInfoSpec(ix: Index, info: TargetInfo, alive: set<Obj>)
    requires Valid(ix)
    requires info.targetObject != null
    ensures var (removed, r) := RemoveInfo(ix, info, alive);
      Valid(r)
      && (removed <==> Connected(ix, info, alive))
      && (!removed ==> r == ix)
      && (removed ==>
            var wr := Lookup(ix, info.targetObject, alive);
            var rest := ix.targetObjects[wr].targetProperties - {PropertyOf(info)};
            (rest == {} ==> r.targetObjects.Keys == ix.targetObjects.Keys - {wr})
            && (rest != {} ==> r.targetObjects == ix.targetObjects[wr := ix.targetObjects[wr].(targetProperties := rest)])
            && (forall w :: w in r.targetObjects && w != wr ==> r.targetObjects[w] == ix.targetObjects[w]))
  {
    var wr := Lookup(ix, info.targetObject, alive);
    if wr != null {
      LookupSound(ix, info.targetObject, alive);
      var v := ix.targetObjects[wr];
      var props := v.targetProperties - {PropertyOf(info)};
      var updated := ix.(targetObjects := ix.targetObjects[wr := v.(targetProperties := props)]);
      SetPropertiesPreserves(ix, wr, props);
      if PropertyOf(info) in v.targetProperties {
        if props == {} {
          RemoveTargetPreserves(updated, wr);
        }
      } else {
        assert props == v.targetProperties;
        assert ix.targetObjects[wr := v] == ix.targetObjects;
      }
    }
  }

  // ---------------------------------------------------------------------
  // The clean-up of `TargetObjectsDictionary`
  // ---------------------------------------------------------------------

  /**
   * One step of `ClearDeadReferences` in `TargetObjectsDictionary`: a key
   * leaves the primary map and the nested subset, and the WHOLE bucket of its
   * hash code is removed, whatever other keys it held.
   */
  function DropDead(ix: Index, wr: WeakRef): Index {
    if wr !in ix.targetObjects then ix
    else
      Index(
        ix.targetObjects - {wr},
        ix.hashCodeTargetObjects - {ix.targetObjects[wr].targetObjectHashCode},
        ix.nestedTargetObjects - {wr})
  }

  /** Dropping a key keeps the weak invariant and removes just that key. */
  lemma DropDeadPreservesWeak(ix: Index, wr: WeakRef)
    requires WeakValid(ix)
    ensures var r := DropDead(ix, wr);
      WeakValid(r)
      && r.targetObjects.Keys == ix.targetObjects.Keys - {wr}
      && (forall w :: w in r.targetObjects ==> r.targetObjects[w] == ix.targetObjects[w])
  {
    if wr in ix.targetObjects {
      var r := DropDead(ix, wr);
      var h := ix.targetObjects[wr].targetObjectHashCode;
      forall g | g in r.hashCodeTargetObjects ensures BucketSound(r, g) {
        assert BucketSound(ix, g);
        var b := r.hashCodeTargetObjects[g];
        forall i | 0 <= i < |b| ensures b[i] != wr {
          assert ix.targetObjects[b[i]].targetObjectHashCode == g;
        }
      }
    }
  }

  /** Dropping each handle of `dead` in turn. */
  function DropAll(ix: Index, dead: seq<WeakRef>): (r: Index)
    requires WeakValid(ix)
    ensures WeakValid(r)
    ensures r.targetObjects.Keys == ix.targetObjects.Keys - set w | w in dead
    ensures forall w :: w in r.targetObjects ==> r.targetObjects[w] == ix.targetObjects[w]
    decreases |dead|
  {
    if dead == [] then ix
    else
      var init := dead[..|dead| - 1];
      var prefix := DropAll(ix, init);
      assert (set w | w in dead) == (set w | w in init) + {dead[|dead| - 1]};
      DropDeadPreservesWeak(prefix, dead[|dead| - 1]);
      DropDead(prefix, dead[|dead| - 1])
  }

  /**
   * Two live-and-dead handles whose targets share a hash code: dropping the
   * dead one also drops the bucket of the live one, which stays a key that
   * `TryFindKey` can no longer find. Removing it the way `TargetObjectsList`
   * does keeps it findable.
   */
  method DropDeadLosesCollidingKey() returns (ix: Index, dead: WeakRef, live: WeakRef, o: Obj, alive: set<Obj>)
    ensures Valid(ix) && dead in ix.targetObjects && dead.Target(alive) == null
    ensures live.Target(alive) == o
    ensures var r := DropDead(ix, dead);
      live in r.targetObjects && Lookup(r, o, alive) == null && !BucketsComplete(r)
    ensures Lookup(RemoveTarget(ix, dead), o, alive) == live
  {
    var gone := new Obj(7, OtherType);
    o := new Obj(7, OtherType);
    dead := new WeakRef(gone);
    live := new WeakRef(o);
    alive := {o};
    EmptyValid();
    AddTargetPreserves(Empty, dead, gone);
    var one := AddTarget(Empty, dead, gone);
    AddTargetPreserves(one, live, o);
    ix := AddTarget(one, live, o);
    assert ix.hashCodeTargetObjects[7] == [dead, live];
    var removed := RemoveTarget(ix, dead);
    assert RemoveFirst([dead, live], dead) == [live];
    assert removed.hashCodeTargetObjects[7] == [live];
  }

  // ---------------------------------------------------------------------
  // Enumeration (`GetTargetInfos`, `GetNestedTargetInfos`)
  // ---------------------------------------------------------------------

  /** The `TargetInfo` yielded for one property of a live target. */
  function MakeInfo(target: Obj?, p: TargetPropertyInfo): TargetInfo {
    TargetInfo(target, p.targetProperty, p.targetPropertyType, p.targetPropertyIndex)
  }

  /** What enumerating `keys` yields: one info per property of each key whose target is alive. */
  ghost function InfosOf(targets: map<WeakRef, TargetObjectValue>, keys: set<WeakRef>, alive: set<Obj>): set<TargetInfo>
    requires keys <= targets.Keys
  {
    set w, p | w in keys && w.Target(alive) != null && p in targets[w].targetProperties :: MakeInfo(w.Target(alive), p)
  }

  /** The keys that enumeration finds dead. */
  ghost function DeadOf(keys: set<WeakRef>, alive: set<Obj>): set<WeakRef> {
    set w | w in keys && w.Target(alive) == null
  }

  /**
   * The enumeration loop of `GetTargetInfos` and `GetNestedTargetInfos`:
   * walks `keys` (in the dictionary's order, which the code does not fix),
   * yields the infos of live keys and collects the dead ones.
   */
  method CollectInfos(targets: map<WeakRef, TargetObjectValue>, keys: set<WeakRef>, alive: set<Obj>)
    returns (infos: seq<TargetInfo>, dead: seq<WeakRef>)
    requires keys <= targets.Keys
    ensures (set x | x in infos) == InfosOf(targets, keys, alive)
    ensures Distinct(dead) && (set w | w in dead) == DeadOf(keys, alive)
  {
    infos := [];
    dead := [];
    var remaining := keys;
    while remaining != {}
      invariant remaining <= keys
      invariant (set x | x in infos) == InfosOf(targets, keys - remaining, alive)
      invariant Distinct(dead) && (set w | w in dead) == DeadOf(keys - remaining, alive)
      decreases remaining
    {
      var w :| w in remaining;
      ghost var done := keys - remaining;
      remaining := remaining - {w};
      assert keys - remaining == done + {w};
      var target := w.Target(alive);
      if target == null {
        assert w !in done;
        assert w !in DeadOf(done, alive);
        dead := dead + [w];
        assert (set v | v in dead) == DeadOf(done, alive) + {w};
        assert InfosOf(targets, done + {w}, alive) == InfosOf(targets, done, alive);
      } else {
        assert DeadOf(done + {w}, alive) == DeadOf(done, alive);
        var props := targets[w].targetProperties;
        var pending := props;
        while pending != {}
          invariant pending <= props
          invariant (set x | x in infos) ==
            InfosOf(targets, done, alive) + set p | p in props - pending :: MakeInfo(target, p)
          decreases pending
        {
          var p :| p in pending;
          ghost var before := set x | x in infos;
          ghost var handled := props - pending;
          pending := pending - {p};
          infos := infos + [MakeInfo(target, p)];
          assert (set x | x in infos) == before + {MakeInfo(target, p)};
          assert props - pending == handled + {p};
          assert (set q | q in props - pending :: MakeInfo(target, q))
              == (set q | q in handled :: MakeInfo(target, q)) + {MakeInfo(target, p)};
        }
        assert InfosOf(targets, done + {w}, alive) ==
          InfosOf(targets, done, alive) + set p | p in props :: MakeInfo(target, p);
      }
    }
  }
}

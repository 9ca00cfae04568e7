/**
 * The bookkeeping of `NestedMarkupExtension`: each extension's weakly held
 * target objects with the properties bound on each, and the static weak
 * listener list `EndpointReachedEvent` through which extensions hear of an
 * endpoint being reached.
 *
 * `EndpointReachedEvent` is a static class in the original; here it is an
 * object the operations receive, as is the process-wide
 * `ObjectDependencyManager`.
 */
module NestedMarkupExtension {
  import opened Wrappers
  import opened Objects
  import opened Handles
  import opened TargetInfos
  import ODM = ObjectDependencyManager

  // ---------------------------------------------------------------------
  // Which handles a walk over the listener list keeps
  // ---------------------------------------------------------------------

  /**
   * The rule by which one of the three walks over a snapshot of the listener
   * list decides to remove a handle. Every walk removes dead handles;
   * `RemoveListener` also removes the handle of `except`, and `AddListener`
   * the handles of listeners having a target that the new listener is not
   * connected to (`targetsOf(e)` is `e.GetTargetObjectsAndProperties()`,
   * `isConnected` the new listener's `IsConnected`).
   */
  datatype Rule =
    | DropDeadAnd(except: Obj?)
    | DropDeadOrIncompatible(targetsOf: Obj -> seq<TargetInfo>, isConnected: TargetInfo -> bool)

  /** Some target is one that `isConnected` rejects. */
  predicate Incompatible(targets: seq<TargetInfo>, isConnected: TargetInfo -> bool) {
    exists i :: 0 <= i < |targets| && !isConnected(targets[i])
  }

  /** Whether a walk under `rule` leaves handle `w` in the list. */
  predicate Keeps(rule: Rule, w: WeakRef, alive: set<Obj>) {
    var t := w.Target(alive);
    t != null &&
    match rule
    case DropDeadAnd(except) => t != except
    case DropDeadOrIncompatible(targetsOf, isConnected) => !Incompatible(targetsOf(t), isConnected)
  }

  /** The handles of `s` that a walk under `rule` keeps. */
  ghost function KeepSet(s: seq<WeakRef>, rule: Rule, alive: set<Obj>): set<WeakRef> {
    set w | w in s && Keeps(rule, w, alive)
  }

  /** The handles among the first `n` of `s` that lie in `keep`, in order. */
  ghost function Kept(s: seq<WeakRef>, n: nat, keep: set<WeakRef>): seq<WeakRef>
    requires n <= |s|
  {
    if n == 0 then []
    else Kept(s, n - 1, keep) + (if s[n - 1] in keep then [s[n - 1]] else [])
  }

  /** The handles of `s` a whole walk under `rule` leaves in the list, in order. */
  ghost function Survivors(s: seq<WeakRef>, rule: Rule, alive: set<Obj>): seq<WeakRef> {
    Kept(s, |s|, KeepSet(s, rule, alive))
  }

  /**
   * `Kept` is a filter: it holds exactly the prefix's handles in `keep`, and
   * no handle twice when the list has none twice.
   */
  lemma {:induction false} KeptSpec(s: seq<WeakRef>, n: nat, keep: set<WeakRef>)
    requires n <= |s|
    ensures forall i :: 0 <= i < |Kept(s, n, keep)| ==> Kept(s, n, keep)[i] in s[..n] && Kept(s, n, keep)[i] in keep
    ensures forall i :: 0 <= i < n && s[i] in keep ==> s[i] in Kept(s, n, keep)
    ensures Distinct(s) ==> Distinct(Kept(s, n, keep))
  {
    if n > 0 {
      KeptSpec(s, n - 1, keep);
      assert s[..n] == s[..n - 1] + [s[n - 1]];
      var k := Kept(s, n - 1, keep);
      if Distinct(s) && s[n - 1] in keep {
        forall i | 0 <= i < |k| ensures k[i] != s[n - 1] {
          assert k[i] in s[..n - 1];
        }
      }
    }
  }

  /**
   * One step of a walk that removes `s[i]`: `List.Remove` on the live list
   * (the kept prefix followed by the unvisited rest) drops exactly that
   * handle.
   */
  lemma DropStep(s: seq<WeakRef>, i: nat, ls: seq<WeakRef>, keep: set<WeakRef>)
    requires Distinct(s) && i < |s| && s[i] !in keep
    requires ls == Kept(s, i, keep) + s[i..]
    ensures RemoveFirst(ls, s[i]) == Kept(s, i + 1, keep) + s[i + 1..]
  {
    var k := Kept(s, i, keep);
    assert s[i] !in k by {
      KeptSpec(s, i, keep);
      forall j | 0 <= j < |k| ensures k[j] != s[i] {
        assert k[j] in s[..i];
      }
    }
    assert ls == k + [s[i]] + s[i + 1..] by {
      assert s[i..] == [s[i]] + s[i + 1..];
    }
    RemoveFirstSplit(k, s[i], s[i + 1..]);
  }

  /** One step of a walk that keeps `s[i]`: the live list is unchanged. */
  lemma KeepStep(s: seq<WeakRef>, i: nat, ls: seq<WeakRef>, keep: set<WeakRef>)
    requires i < |s| && s[i] in keep
    requires ls == Kept(s, i, keep) + s[i..]
    ensures ls == Kept(s, i + 1, keep) + s[i + 1..]
    ensures Kept(s, i + 1, keep) == Kept(s, i, keep) + [s[i]]
  {
    assert s[i..] == [s[i]] + s[i + 1..];
  }

  /**
   * The live list after the first `n` steps of a walk over the snapshot `s`
   * that removes (with `List.Remove`) each visited handle not in `keep`.
   */
  ghost function Walked(s: seq<WeakRef>, n: nat, keep: set<WeakRef>): seq<WeakRef>
    requires n <= |s|
  {
    if n == 0 then s
    else
      var ls := Walked(s, n - 1, keep);
      if s[n - 1] in keep then ls else RemoveFirst(ls, s[n - 1])
  }

  /**
   * On a list without duplicates, a walk's live list is at every step the
   * kept part of the visited prefix followed by the unvisited rest.
   */
  lemma {:induction false} WalkedIsKept(s: seq<WeakRef>, n: nat, keep: set<WeakRef>)
    requires Distinct(s) && n <= |s|
    ensures Walked(s, n, keep) == Kept(s, n, keep) + s[n..]
  {
    if n == 0 {
      assert s[0..] == s;
    } else {
      WalkedIsKept(s, n - 1, keep);
      if s[n - 1] in keep {
        KeepStep(s, n - 1, Walked(s, n - 1, keep), keep);
      } else {
        DropStep(s, n - 1, Walked(s, n - 1, keep), keep);
      }
    }
  }

  /** Handles to pairwise distinct, non-null objects. */
  ghost predicate UniqueTargets(s: seq<WeakRef>) {
    (forall i :: 0 <= i < |s| ==> s[i].referent != null)
    && forall i, j :: 0 <= i < j < |s| ==> s[i].referent != s[j].referent
  }

  /**
   * What a walk under `rule` keeps from a list of unique targets has unique
   * targets, and every kept handle satisfies the rule (so is live).
   */
  lemma KeptUnique(s: seq<WeakRef>, n: nat, rule: Rule, alive: set<Obj>)
    requires n <= |s| && UniqueTargets(s)
    ensures UniqueTargets(Kept(s, n, KeepSet(s, rule, alive)))
    ensures forall i :: 0 <= i < |Kept(s, n, KeepSet(s, rule, alive))| ==>
      Keeps(rule, Kept(s, n, KeepSet(s, rule, alive))[i], alive)
  {
    var keep := KeepSet(s, rule, alive);
    var r := Kept(s, n, keep);
    assert Distinct(s);
    KeptSpec(s, n, keep);
    forall i, j | 0 <= i < j < |r| ensures r[i].referent != r[j].referent {
      assert r[i] in s[..n] && r[j] in s[..n];
      var a :| 0 <= a < n && s[a] == r[i];
      var b :| 0 <= b < n && s[b] == r[j];
      assert a != b;
    }
    forall i | 0 <= i < |r| ensures r[i].referent != null && Keeps(rule, r[i], alive) {
      assert r[i] in keep;
    }
  }

  /**
   * The listener list after `AddListener(listener)` over `s`: if the walk
   * meets the listener's own handle at position `k`, the kept part of the
   * first `k` handles followed by the rest; otherwise everything kept
   * followed by the new handle `added`.
   */
  ghost function AfterAdd(s: seq<WeakRef>, listener: Obj, rule: Rule, alive: set<Obj>, added: WeakRef?): seq<WeakRef> {
    var k := IndexOfLive(s, listener, alive);
    if k < |s| then Kept(s, k, KeepSet(s, rule, alive)) + s[k..]
    else Survivors(s, rule, alive) + (if added == null then [] else [added])
  }

  // ---------------------------------------------------------------------
  // EndpointReachedEvent
  // ---------------------------------------------------------------------

  /** `EndpointReachedEvent`: the weak list of listening extensions. */
  class EndpointReachedEvent {
    var listeners: seq<WeakRef>

    /** Each extension is listed at most once. */
    ghost predicate Valid()
      reads this
    {
      UniqueTargets(listeners)
    }

    constructor ()
      ensures Valid() && listeners == []
    {
      listeners := [];
    }

    /**
     * `Invoke`: walks a snapshot of the list, notifies each live listener
     * and removes each dead handle. The handler `OnEndpointReached` is not
     * modelled; the handles through which a listener was notified are
     * returned in the order notified.
     */
    method Invoke(alive: set<Obj>) returns (notified: seq<WeakRef>)
      requires Valid()
      modifies this
      ensures Valid()
      ensures listeners == Survivors(old(listeners), DropDeadAnd(null), alive)
      ensures notified == listeners
      ensures forall i :: 0 <= i < |notified| ==> notified[i].Target(alive) != null
    {
      var snapshot := listeners;
      ghost var rule := DropDeadAnd(null);
      ghost var keep := KeepSet(snapshot, rule, alive);
      notified := [];
      var i := 0;
      while i < |snapshot|
        invariant 0 <= i <= |snapshot|
        invariant listeners == Walked(snapshot, i, keep)
        invariant notified == Kept(snapshot, i, keep)
      {
        var wr := snapshot[i];
        var targetReference := wr.Target(alive);
        assert wr in keep <==> targetReference != null;
        if targetReference == null {
          listeners := RemoveFirst(listeners, wr);
        } else {
          notified := notified + [wr];
        }
        i := i + 1;
      }
      WalkDone(snapshot, listeners, rule, alive);
    }

    /**
     * `AddListener`: ignores `null`. Walks a snapshot of the list: removes
     * dead handles and the handles of listeners having a target the new
     * listener is not connected to, and stops at a handle of the listener
     * itself; if it meets none, appends a new handle for the listener.
     */
    method AddListener(listener: Obj?, alive: set<Obj>,
                       targetsOf: Obj -> seq<TargetInfo>, isConnected: TargetInfo -> bool)
      returns (ghost added: WeakRef?)
      requires Valid()
      requires listener != null ==> listener in alive
      modifies this
      ensures Valid()
      ensures listener == null ==> added == null && listeners == old(listeners)
      ensures listener != null ==>
        && (added == null <==> IndexOfLive(old(listeners), listener, alive) < |old(listeners)|)
        && (added != null ==> fresh(added) && added.referent == listener)
        && listeners == AfterAdd(old(listeners), listener, DropDeadOrIncompatible(targetsOf, isConnected), alive, added)
      ensures listener != null ==> exists i :: 0 <= i < |listeners| && listeners[i].Target(alive) == listener
    {
      if listener == null {
        return null;
      }
      var snapshot := listeners;
      ghost var rule := DropDeadOrIncompatible(targetsOf, isConnected);
      ghost var keep := KeepSet(snapshot, rule, alive);
      var i := 0;
      var alreadyListening := false;
      while i < |snapshot|
        invariant 0 <= i <= |snapshot|
        invariant listeners == Walked(snapshot, i, keep)
        invariant i <= IndexOfLive(snapshot, listener, alive)
      {
        var wr := snapshot[i];
        var targetReference := wr.Target(alive);
        if targetReference == listener {
          alreadyListening := true;
          break;
        }
        var incompatible := false;
        if targetReference != null {
          incompatible := FindsUnconnected(targetsOf(targetReference), isConnected);
        }
        var retain := targetReference != null && !incompatible;
        assert wr in keep <==> retain;
        if !retain {
          listeners := RemoveFirst(listeners, wr);
        }
        i := i + 1;
      }
      if alreadyListening {
        StopAtOwnHandle(snapshot, i, listeners, rule, alive, listener);
        return null;
      }
      var wr := new WeakRef(listener);
      AppendNewHandle(snapshot, listeners, rule, alive, wr);
      listeners := listeners + [wr];
      return wr;
    }

    /**
     * `RemoveListener`: ignores `null`; otherwise walks a snapshot of the list
     * and removes the listener's handle and every dead handle.
     */
    method RemoveListener(listener: Obj?, alive: set<Obj>)
      requires Valid()
      modifies this
      ensures Valid()
      ensures listener == null ==> listeners == old(listeners)
      ensures listener != null ==> listeners == Survivors(old(listeners), DropDeadAnd(listener), alive)
      ensures listener != null ==> forall i :: 0 <= i < |listeners| ==>
        listeners[i].Target(alive) != null && listeners[i].Target(alive) != listener
    {
      if listener == null {
        return;
      }
      var snapshot := listeners;
      ghost var rule := DropDeadAnd(listener);
      ghost var keep := KeepSet(snapshot, rule, alive);
      var i := 0;
      while i < |snapshot|
        invariant 0 <= i <= |snapshot|
        invariant listeners == Walked(snapshot, i, keep)
      {
        var wr := snapshot[i];
        var targetReference := wr.Target(alive);
        assert wr in keep <==> targetReference != null && targetReference != listener;
        if targetReference == null || targetReference == listener {
          listeners := RemoveFirst(listeners, wr);
        }
        i := i + 1;
      }
      WalkDone(snapshot, listeners, rule, alive);
      forall i | 0 <= i < |listeners|
        ensures listeners[i].Target(alive) != null && listeners[i].Target(alive) != listener
      {
        assert Keeps(rule, listeners[i], alive);
      }
    }
  }

  /**
   * The inner `foreach ... break` of `AddListener`: whether some target is
   * one `isConnected` rejects.
   */
  method FindsUnconnected(targets: seq<TargetInfo>, isConnected: TargetInfo -> bool) returns (found: bool)
    ensures found <==> Incompatible(targets, isConnected)
  {
    found := false;
    var j := 0;
    while j < |targets|
      invariant 0 <= j <= |targets|
      invariant forall m :: 0 <= m < j ==> isConnected(targets[m])
    {
      if !isConnected(targets[j]) {
        found := true;
        return;
      }
      j := j + 1;
    }
  }

  /** At the end of a walk the live list is what the walk kept: handles to unique objects the rule keeps. */
  lemma WalkDone(s: seq<WeakRef>, ls: seq<WeakRef>, rule: Rule, alive: set<Obj>)
    requires UniqueTargets(s) && ls == Walked(s, |s|, KeepSet(s, rule, alive))
    ensures ls == Survivors(s, rule, alive)
    ensures UniqueTargets(ls)
    ensures forall i :: 0 <= i < |ls| ==> Keeps(rule, ls[i], alive)
  {
    WalkedIsKept(s, |s|, KeepSet(s, rule, alive));
    KeptUnique(s, |s|, rule, alive);
  }

  /**
   * Where `AddListener` stops at the listener's own handle `s[i]`: the list
   * is the one `AfterAdd` describes, is valid and holds that handle.
   */
  lemma StopAtOwnHandle(s: seq<WeakRef>, i: nat, ls: seq<WeakRef>, rule: Rule, alive: set<Obj>, listener: Obj)
    requires i < |s| && UniqueTargets(s) && s[i].Target(alive) == listener
    requires i <= IndexOfLive(s, listener, alive)
    requires ls == Walked(s, i, KeepSet(s, rule, alive))
    ensures ls == AfterAdd(s, listener, rule, alive, null)
    ensures UniqueTargets(ls)
    ensures exists j :: 0 <= j < |ls| && ls[j].Target(alive) == listener
  {
    WalkedIsKept(s, i, KeepSet(s, rule, alive));
    KeptUniqueWithRest(s, i, rule, alive);
    assert ls[|Kept(s, i, KeepSet(s, rule, alive))|] == s[i];
  }

  /**
   * Where `AddListener` meets no handle of the listener: appending a new
   * handle `wr` for it gives the list `AfterAdd` describes, which is valid.
   */
  lemma AppendNewHandle(s: seq<WeakRef>, ls: seq<WeakRef>, rule: Rule, alive: set<Obj>, wr: WeakRef)
    requires UniqueTargets(s) && wr.referent != null && wr.referent in alive
    requires IndexOfLive(s, wr.referent, alive) == |s|
    requires ls == Walked(s, |s|, KeepSet(s, rule, alive))
    ensures ls + [wr] == AfterAdd(s, wr.referent, rule, alive, wr)
    ensures UniqueTargets(ls + [wr])
    ensures (ls + [wr])[|ls|].Target(alive) == wr.referent
  {
    WalkedIsKept(s, |s|, KeepSet(s, rule, alive));
    assert ls == Survivors(s, rule, alive);
    KeptUnique(s, |s|, rule, alive);
    KeptExcludes(s, |s|, KeepSet(s, rule, alive), alive, wr.referent);
  }

  /** The kept prefix followed by the untouched rest still has unique targets. */
  lemma KeptUniqueWithRest(s: seq<WeakRef>, n: nat, rule: Rule, alive: set<Obj>)
    requires n <= |s| && UniqueTargets(s)
    ensures UniqueTargets(Kept(s, n, KeepSet(s, rule, alive)) + s[n..])
  {
    var keep := KeepSet(s, rule, alive);
    var k := Kept(s, n, keep);
    var r := k + s[n..];
    KeptUnique(s, n, rule, alive);
    KeptSpec(s, n, keep);
    forall i, j | 0 <= i < j < |r| ensures r[i].referent != r[j].referent {
      if j >= |k| && i < |k| {
        assert k[i] in s[..n];
        var a :| 0 <= a < n && s[a] == k[i];
        assert r[j] == s[n + (j - |k|)];
      } else if i >= |k| {
        assert r[i] == s[n + (i - |k|)] && r[j] == s[n + (j - |k|)];
      }
    }
  }

  /** No kept handle refers to a live object that no handle of the prefix targets. */
  lemma KeptExcludes(s: seq<WeakRef>, n: nat, keep: set<WeakRef>, alive: set<Obj>, o: Obj)
    requires n <= |s| && o in alive
    requires forall j :: 0 <= j < n ==> s[j].Target(alive) != o
    ensures forall i :: 0 <= i < |Kept(s, n, keep)| ==> Kept(s, n, keep)[i].referent != o
  {
    KeptSpec(s, n, keep);
    forall i | 0 <= i < |Kept(s, n, keep)| ensures Kept(s, n, keep)[i].referent != o {
      var a :| 0 <= a < n && s[..n][a] == Kept(s, n, keep)[i];
      assert s[a].Target(alive) != o;
    }
  }

  // ---------------------------------------------------------------------
  // The extension's own targets
  // ---------------------------------------------------------------------

  /** `Tuple<object, int>`: a target property and its index; tuples compare their items. */
  datatype PropertyKey = PropertyKey(property: Obj?, index: int)

  /** One entry of a target's inner dictionary: the property key and the property's type. */
  datatype Binding = Binding(key: PropertyKey, propertyType: Obj?)

  /** The keys of an inner dictionary. */
  function BoundKeys(bindings: seq<Binding>): set<PropertyKey> {
    set b | b in bindings :: b.key
  }

  /** An inner dictionary holds each key once. */
  ghost predicate UniqueKeys(bindings: seq<Binding>) {
    forall i, j :: 0 <= i < j < |bindings| ==> bindings[i].key != bindings[j].key
  }

  /**
   * Binds a property key to its type in one target's inner dictionary unless
   * the key is bound already: each key is bound once, and a later
   * registration of the same key keeps the first type.
   */
  function WithBinding(bindings: seq<Binding>, key: PropertyKey, propertyType: Obj?): (r: seq<Binding>)
    ensures key in BoundKeys(bindings) ==> r == bindings
    ensures bindings == [] ==> r == [Binding(key, propertyType)]
  {
    if key in BoundKeys(bindings) then bindings
    else bindings + [Binding(key, propertyType)]
  }

  /** After `WithBinding` the key is bound, nothing else is, and no key is bound twice. */
  lemma WithBindingSpec(bindings: seq<Binding>, key: PropertyKey, propertyType: Obj?)
    ensures BoundKeys(WithBinding(bindings, key, propertyType)) == BoundKeys(bindings) + {key}
    ensures UniqueKeys(bindings) ==> UniqueKeys(WithBinding(bindings, key, propertyType))
  {
    if key !in BoundKeys(bindings) {
      var r := bindings + [Binding(key, propertyType)];
      assert forall b :: b in r <==> b in bindings || b == Binding(key, propertyType);
    }
  }

  /** Registering the same property key twice is registering it once. */
  lemma WithBindingIdempotent(bindings: seq<Binding>, key: PropertyKey, t1: Obj?, t2: Obj?)
    ensures WithBinding(WithBinding(bindings, key, t1), key, t2) == WithBinding(bindings, key, t1)
  {
  }

  /** The `TargetInfo`s of one live target: one per entry of its inner dictionary, in order. */
  function InfosOf(target: Obj, bindings: seq<Binding>): (r: seq<TargetInfo>)
    ensures |r| == |bindings|
    ensures forall i :: 0 <= i < |r| ==>
      r[i] == TargetInfo(target, bindings[i].key.property, bindings[i].propertyType, bindings[i].key.index)
  {
    seq(|bindings|, i requires 0 <= i < |bindings| =>
      TargetInfo(target, bindings[i].key.property, bindings[i].propertyType, bindings[i].key.index))
  }

  /**
   * What `GetTargetObjectsAndProperties` collects from the first `n` keys:
   * the infos of each key whose target is alive, in key order.
   */
  ghost function InfosUpTo(keys: seq<WeakRef>, n: nat, targets: map<WeakRef, seq<Binding>>, alive: set<Obj>): seq<TargetInfo>
    requires n <= |keys|
    requires forall w :: w in keys ==> w in targets
  {
    if n == 0 then []
    else
      var w := keys[n - 1];
      InfosUpTo(keys, n - 1, targets, alive)
        + (if w.Target(alive) == null then [] else InfosOf(w.Target(alive), targets[w]))
  }

  /**
   * The infos collected from the first `n` keys are exactly those of a live
   * key among them, one per entry of its inner dictionary.
   */
  lemma {:induction false} InfosUpToSpec(keys: seq<WeakRef>, n: nat, targets: map<WeakRef, seq<Binding>>,
                                         alive: set<Obj>, info: TargetInfo)
    requires n <= |keys|
    requires forall w :: w in keys ==> w in targets
    ensures info in InfosUpTo(keys, n, targets, alive) <==>
      exists k, b :: 0 <= k < n && keys[k].Target(alive) != null && b in targets[keys[k]]
        && info == TargetInfo(keys[k].Target(alive), b.key.property, b.propertyType, b.key.index)
  {
    if n > 0 {
      InfosUpToSpec(keys, n - 1, targets, alive, info);
      var w := keys[n - 1];
      var t := w.Target(alive);
      if t != null {
        var last := InfosOf(t, targets[w]);
        if info in last {
          var i :| 0 <= i < |last| && last[i] == info;
          assert targets[w][i] in targets[w];
        }
        forall b | b in targets[w] && info == TargetInfo(t, b.key.property, b.propertyType, b.key.index)
          ensures info in last
        {
          var i :| 0 <= i < |targets[w]| && targets[w][i] == b;
          assert last[i] == info;
        }
      }
    }
  }

  /** No two handles have the same live target. */
  ghost predicate LiveUnique(keys: seq<WeakRef>, alive: set<Obj>) {
    forall i, j :: 0 <= i < j < |keys| && keys[i].Target(alive) != null ==>
      keys[i].Target(alive) != keys[j].Target(alive)
  }

  /** `NestedMarkupExtension`: the targets one extension is bound to. */
  class NestedMarkupExtension {
    /** The extension itself, as the listener and dependency holder it registers. */
    const self: Obj
    /** The keys of `targetObjects` in the order the dictionary enumerates them. */
    var targetKeys: seq<WeakRef>
    /** `targetObjects`: each target's handle with the properties bound on it. */
    var targetObjects: map<WeakRef, seq<Binding>>

    /** The key order covers the dictionary exactly; every inner dictionary holds each key once. */
    ghost predicate Valid()
      reads this
    {
      && self.IsNestedExtension()
      && Distinct(targetKeys)
      && (forall w :: w in targetKeys ==> w in targetObjects)
      && (forall w :: w in targetObjects ==> w in targetKeys && UniqueKeys(targetObjects[w]))
    }

    constructor (self: Obj)
      requires self.IsNestedExtension()
      ensures Valid() && this.self == self && targetKeys == [] && targetObjects == map[]
    {
      this.self := self;
      targetKeys := [];
      targetObjects := map[];
    }

    /** Key `w` targets the info's object and records its property and index. */
    predicate Records(w: WeakRef, info: TargetInfo, alive: set<Obj>)
      reads this
    {
      && w in targetObjects
      && w.Target(alive) == info.targetObject
      && PropertyKey(info.targetProperty, info.targetPropertyIndex) in BoundKeys(targetObjects[w])
    }

    /**
     * `IsConnected(info)`: the first key whose target is `info.TargetObject`
     * (with a `null` target object, the first dead key) records the info's
     * property and index.
     */
    predicate IsConnected(info: TargetInfo, alive: set<Obj>)
      requires Valid()
      reads this
      ensures IsConnected(info, alive) ==> exists k :: 0 <= k < |targetKeys| && Records(targetKeys[k], info, alive)
      ensures LiveUnique(targetKeys, alive) && info.targetObject != null ==>
        (IsConnected(info, alive) <==> exists k :: 0 <= k < |targetKeys| && Records(targetKeys[k], info, alive))
    {
      var wr := FirstLive(targetKeys, info.targetObject, alive);
      wr != null && PropertyKey(info.targetProperty, info.targetPropertyIndex) in BoundKeys(targetObjects[wr])
    }

    /**
     * `GetTargetObjectsAndProperties`: for each key whose target is alive, in
     * key order, one `TargetInfo` per entry of its inner dictionary.
     */
    method GetTargetObjectsAndProperties(alive: set<Obj>) returns (list: seq<TargetInfo>)
      requires Valid()
      ensures list == InfosUpTo(targetKeys, |targetKeys|, targetObjects, alive)
      ensures forall i :: 0 <= i < |list| ==> list[i].targetObject != null && list[i].targetObject in alive
    {
      list := [];
      var i := 0;
      while i < |targetKeys|
        invariant 0 <= i <= |targetKeys|
        invariant list == InfosUpTo(targetKeys, i, targetObjects, alive)
        invariant forall j :: 0 <= j < |list| ==> list[j].targetObject != null && list[j].targetObject in alive
      {
        var target := targetKeys[i];
        var targetReference := target.Target(alive);
        if targetReference != null {
          list := list + InfosOf(targetReference, targetObjects[target]);
        }
        i := i + 1;
      }
    }

    /**
     * The registration block of `ProvideValue`. Looks up the key of
     * `targetObject`; if there is none, signals the first target when the
     * dictionary is empty (`OnFirstTarget`), adds a new key with an empty
     * inner dictionary and registers it with the dependency manager, whose
     * exception propagates; then records the property once. Returns the key
     * used.
     */
    method RegisterTarget(targetObject: Obj?, targetProperty: Obj?, targetPropertyType: Obj?, targetPropertyIndex: int,
                          manager: ODM.ObjectDependencyManager, alive: set<Obj>)
      returns (firstTarget: bool, wr: WeakRef, r: Outcome<Exception>)
      requires Valid() && manager.Valid()
      requires targetObject != null ==> targetObject in alive
      modifies this, manager
      ensures Valid() && manager.Valid()
      ensures LiveUnique(old(targetKeys), alive) ==> LiveUnique(targetKeys, alive)
      ensures FirstLive(targetKeys, targetObject, alive) == wr
      ensures FirstLive(old(targetKeys), targetObject, alive) != null ==>
        && !firstTarget && wr == FirstLive(old(targetKeys), targetObject, alive) && r == Pass
        && targetKeys == old(targetKeys)
        && targetObjects == old(targetObjects)[wr := WithBinding(old(targetObjects)[wr],
                              PropertyKey(targetProperty, targetPropertyIndex), targetPropertyType)]
        && manager.internalList == old(manager.internalList)
      ensures FirstLive(old(targetKeys), targetObject, alive) == null ==>
        && (firstTarget <==> old(targetKeys) == [])
        && fresh(wr) && targetKeys == old(targetKeys) + [wr]
      ensures FirstLive(old(targetKeys), targetObject, alive) == null && ODM.Validate(wr, self, alive).Some? ==>
        && r == Fail(ODM.Validate(wr, self, alive).value)
        && targetObjects == old(targetObjects)[wr := []]
        && manager.internalList == ODM.Swept(old(manager.internalList), alive)
      ensures FirstLive(old(targetKeys), targetObject, alive) == null && ODM.Validate(wr, self, alive).None? ==>
        && r == Pass
        && targetObjects == old(targetObjects)[wr := [Binding(PropertyKey(targetProperty, targetPropertyIndex), targetPropertyType)]]
        && manager.internalList == ODM.Registered(ODM.Swept(old(manager.internalList), alive), wr, self)
    {
      var existing := FirstLive(targetKeys, targetObject, alive);
      if existing == null {
        firstTarget := |targetKeys| == 0;
        wr, r := RegisterNewTarget(targetObject, PropertyKey(targetProperty, targetPropertyIndex), targetPropertyType,
                                   manager, alive);
      } else {
        firstTarget, wr, r := false, existing, Pass;
        AddTargetProperty(wr, PropertyKey(targetProperty, targetPropertyIndex), targetPropertyType);
      }
    }

    /**
     * Lines 337-347 of `ProvideValue` for an object no key targets yet: adds
     * a new key, registers it with the dependency manager and, unless that
     * throws, records the property under it. The manager and the dictionary
     * are disjoint, so the dictionary is written once, after the manager
     * call, with the state the code leaves in it either way.
     */
    method RegisterNewTarget(targetObject: Obj?, tuple: PropertyKey, targetPropertyType: Obj?,
                             manager: ODM.ObjectDependencyManager, alive: set<Obj>)
      returns (wr: WeakRef, r: Outcome<Exception>)
      requires Valid() && manager.Valid()
      requires targetObject != null ==> targetObject in alive
      requires FirstLive(targetKeys, targetObject, alive) == null
      modifies this, manager
      ensures Valid() && manager.Valid()
      ensures LiveUnique(old(targetKeys), alive) ==> LiveUnique(targetKeys, alive)
      ensures FirstLive(targetKeys, targetObject, alive) == wr
      ensures fresh(wr) && targetKeys == old(targetKeys) + [wr]
      ensures match ODM.Validate(wr, self, alive)
        case Some(e) =>
          && r == Fail(e)
          && targetObjects == old(targetObjects)[wr := []]
          && manager.internalList == ODM.Swept(old(manager.internalList), alive)
        case None =>
          && r == Pass
          && targetObjects == old(targetObjects)[wr := [Binding(tuple, targetPropertyType)]]
          && manager.internalList == ODM.Registered(ODM.Swept(old(manager.internalList), alive), wr, self)
    {
      wr := new WeakRef(targetObject);
      var registration := manager.AddObjectDependency(wr, self, alive);
      var bindings: seq<Binding> := [];
      if registration.Failure? {
        r := Fail(registration.error);
      } else {
        bindings := WithBinding(bindings, tuple, targetPropertyType);
        r := Pass;
      }
      NewKeyKeepsUnique(targetKeys, wr, alive);
      targetKeys, targetObjects := targetKeys + [wr], targetObjects[wr := bindings];
    }

    /**
     * Records that the target behind `wr` is bound through `tuple` (property
     * and index), with its property type, unless that binding is already
     * recorded; the other targets are untouched.
     */
    method AddTargetProperty(wr: WeakRef, tuple: PropertyKey, targetPropertyType: Obj?)
      requires Valid() && wr in targetObjects
      modifies this
      ensures Valid()
      ensures targetKeys == old(targetKeys)
      ensures targetObjects == old(targetObjects)[wr := WithBinding(old(targetObjects)[wr], tuple, targetPropertyType)]
    {
      WithBindingSpec(targetObjects[wr], tuple, targetPropertyType);
      if tuple !in BoundKeys(targetObjects[wr]) {
        targetObjects := targetObjects[wr := targetObjects[wr] + [Binding(tuple, targetPropertyType)]];
      }
    }

    /** `Dispose`: leaves the listener list (dropping dead handles on the way) and forgets every target. */
    method Dispose(ev: EndpointReachedEvent, alive: set<Obj>)
      requires Valid() && ev.Valid()
      modifies this, ev
      ensures Valid() && ev.Valid()
      ensures targetKeys == [] && targetObjects == map[]
      ensures ev.listeners == Survivors(old(ev.listeners), DropDeadAnd(self), alive)
      ensures forall i :: 0 <= i < |ev.listeners| ==>
        ev.listeners[i].Target(alive) != null && ev.listeners[i].Target(alive) != self
    {
      ev.RemoveListener(self, alive);
      targetKeys := [];
      targetObjects := map[];
    }
  }

  /**
   * Appending a key for an object no key targets keeps live targets unique
   * and makes that key the one the lookup finds.
   */
  lemma NewKeyKeepsUnique(keys: seq<WeakRef>, wr: WeakRef, alive: set<Obj>)
    requires IndexOfLive(keys, wr.referent, alive) == |keys|
    requires wr.referent != null ==> wr.referent in alive
    ensures FirstLive(keys + [wr], wr.referent, alive) == wr
    ensures LiveUnique(keys, alive) ==> LiveUnique(keys + [wr], alive)
  {
    IndexOfLiveAppend(keys, wr, wr.referent, alive);
  }

  /** The lookup in a list extended by one handle. */
  lemma {:induction false} IndexOfLiveAppend(keys: seq<WeakRef>, wr: WeakRef, o: Obj?, alive: set<Obj>)
    ensures IndexOfLive(keys + [wr], o, alive) ==
      if IndexOfLive(keys, o, alive) < |keys| then IndexOfLive(keys, o, alive)
      else if wr.Target(alive) == o then |keys| else |keys| + 1
  {
    if keys != [] {
      assert (keys + [wr])[1..] == keys[1..] + [wr];
      IndexOfLiveAppend(keys[1..], wr, o, alive);
    }
  }

  /**
   * An extension is connected to each of its own targets: every info
   * `GetTargetObjectsAndProperties` yields passes `IsConnected`.
   */
  lemma OwnTargetsConnected(e: NestedMarkupExtension, alive: set<Obj>, info: TargetInfo)
    requires e.Valid() && LiveUnique(e.targetKeys, alive)
    requires info in InfosUpTo(e.targetKeys, |e.targetKeys|, e.targetObjects, alive)
    ensures e.IsConnected(info, alive)
  {
    InfosUpToSpec(e.targetKeys, |e.targetKeys|, e.targetObjects, alive, info);
    var k, b :| 0 <= k < |e.targetKeys| && e.targetKeys[k].Target(alive) != null && b in e.targetObjects[e.targetKeys[k]]
      && info == TargetInfo(e.targetKeys[k].Target(alive), b.key.property, b.propertyType, b.key.index);
    assert PropertyKey(info.targetProperty, info.targetPropertyIndex) == b.key;
    assert e.Records(e.targetKeys[k], info, alive);
  }

  /** Collection only kills objects, so keys with unique live targets keep them unique. */
  lemma LiveUniqueAfterCollection(keys: seq<WeakRef>, alive: set<Obj>, survivors: set<Obj>)
    requires survivors <= alive && LiveUnique(keys, alive)
    ensures LiveUnique(keys, survivors)
  {
    forall i, j | 0 <= i < j < |keys| && keys[i].Target(survivors) != null
      ensures keys[i].Target(survivors) != keys[j].Target(survivors)
    {
      assert keys[i].Target(alive) == keys[i].Target(survivors);
      if keys[j].Target(survivors) != null {
        assert keys[j].Target(alive) == keys[j].Target(survivors);
      }
    }
  }

  /** A whole walk leaves exactly the handles of the list that its rule keeps, each once. */
  lemma SurvivorsSpec(s: seq<WeakRef>, rule: Rule, alive: set<Obj>, w: WeakRef)
    requires UniqueTargets(s)
    ensures w in Survivors(s, rule, alive) <==> w in s && Keeps(rule, w, alive)
    ensures UniqueTargets(Survivors(s, rule, alive))
  {
    var keep := KeepSet(s, rule, alive);
    KeptSpec(s, |s|, keep);
    KeptUnique(s, |s|, rule, alive);
    assert s[..|s|] == s;
    if w in s && Keeps(rule, w, alive) {
      var i :| 0 <= i < |s| && s[i] == w;
      assert s[i] in keep;
    }
    if w in Survivors(s, rule, alive) {
      var i :| 0 <= i < |Survivors(s, rule, alive)| && Survivors(s, rule, alive)[i] == w;
      assert w in keep;
    }
  }
}

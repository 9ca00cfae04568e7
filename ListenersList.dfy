/**
 * `ListenersList`: the nested markup extensions listening for an endpoint,
 * held weakly, each at most once. A dictionary maps each handle to its
 * listener's hash code, a second dictionary maps hash codes to the handles
 * whose listeners have them, and handles found dead while enumerating are
 * queued for removal.
 */
module ListenersList {
  import opened Wrappers
  import opened Objects
  import opened Handles

  /** The two dictionaries as one value. */
  datatype Table = Table(listeners: map<WeakRef, int>, listenersHashCodes: map<int, seq<WeakRef>>)

  /** Every handle refers to a listener and records that listener's hash code. */
  ghost predicate KeysWellFormed(t: Table) {
    forall w :: w in t.listeners ==> w.referent != null && t.listeners[w] == w.referent.hash
  }

  /** No listener has two handles. */
  ghost predicate UniqueReferents(t: Table) {
    forall w1, w2 :: (w1 in t.listeners && w2 in t.listeners && w1.referent == w2.referent) ==> w1 == w2
  }

  /** One bucket: non-empty, free of duplicates, made of handles recorded under its hash. */
  ghost predicate BucketSound(t: Table, h: int)
    requires h in t.listenersHashCodes
  {
    var b := t.listenersHashCodes[h];
    b != [] && Distinct(b)
    && forall i :: 0 <= i < |b| ==> b[i] in t.listeners && t.listeners[b[i]] == h
  }

  /** The invariant: sound and complete buckets over well-formed, unique handles. */
  ghost predicate TableValid(t: Table) {
    KeysWellFormed(t) && UniqueReferents(t)
    && (forall h :: h in t.listenersHashCodes ==> BucketSound(t, h))
    && (forall w :: w in t.listeners ==>
          t.listeners[w] in t.listenersHashCodes && w in t.listenersHashCodes[t.listeners[w]])
  }

  /** Some handle's live target is `listener`. */
  ghost predicate Contains(t: Table, listener: Obj, alive: set<Obj>) {
    exists w :: w in t.listeners && w.Target(alive) == listener
  }

  /** The bucket of `h`, or the empty list. */
  function BucketOf(t: Table, h: int): seq<WeakRef> {
    if h in t.listenersHashCodes then t.listenersHashCodes[h] else []
  }

  /** `hashCodes.FirstOrDefault(l => l.Target == listener)` over the listener's bucket. */
  function Find(t: Table, listener: Obj, alive: set<Obj>): WeakRef? {
    FirstLive(BucketOf(t, listener.hash), listener, alive)
  }

  /** Under the invariant, `Find` succeeds exactly when the listener is registered, and finds its handle. */
  lemma FindSpec(t: Table, listener: Obj, alive: set<Obj>)
    requires TableValid(t)
    ensures var r := Find(t, listener, alive);
      (r != null <==> Contains(t, listener, alive))
      && (r != null ==> r in t.listeners && r.Target(alive) == listener)
  {
    var r := Find(t, listener, alive);
    var b := BucketOf(t, listener.hash);
    if r != null {
      assert BucketSound(t, listener.hash);
      var i :| 0 <= i < |b| && b[i] == r;
    }
    if Contains(t, listener, alive) {
      var w :| w in t.listeners && w.Target(alive) == listener;
      var j :| 0 <= j < |b| && b[j] == w;
    }
  }

  /** A new handle for `listener`, appended to the bucket of its hash code. */
  function AddEntry(t: Table, wr: WeakRef, listener: Obj): Table {
    Table(t.listeners[wr := listener.hash],
          t.listenersHashCodes[listener.hash := BucketOf(t, listener.hash) + [wr]])
  }

  /** Adding a fresh handle for a live listener not yet registered keeps the invariant. */
  lemma AddEntryPreserves(t: Table, wr: WeakRef, listener: Obj, alive: set<Obj>)
    requires TableValid(t) && wr !in t.listeners && wr.referent == listener
    requires listener in alive && !Contains(t, listener, alive)
    ensures var r := AddEntry(t, wr, listener);
      TableValid(r) && Contains(r, listener, alive) && r.listeners.Keys == t.listeners.Keys + {wr}
  {
    var r := AddEntry(t, wr, listener);
    forall h | h in r.listenersHashCodes ensures BucketSound(r, h) {
      if h in t.listenersHashCodes {
        assert BucketSound(t, h);
      }
      if h == listener.hash && h in t.listenersHashCodes {
        assert wr !in t.listenersHashCodes[h];
      }
    }
    assert forall w :: w in t.listeners ==> w.Target(alive) != listener;
    assert wr.Target(alive) == listener;
  }

  /** Removes a handle from the primary map and from its bucket, dropping the bucket once empty. */
  function RemoveEntry(t: Table, wr: WeakRef): Table
    requires TableValid(t) && wr in t.listeners
  {
    var h := t.listeners[wr];
    var bucket := RemoveFirst(t.listenersHashCodes[h], wr);
    Table(t.listeners - {wr},
          if bucket == [] then t.listenersHashCodes - {h} else t.listenersHashCodes[h := bucket])
  }

  /** Removing a handle keeps the invariant and every other handle. */
  lemma RemoveEntryPreserves(t: Table, wr: WeakRef)
    requires TableValid(t) && wr in t.listeners
    ensures var r := RemoveEntry(t, wr);
      TableValid(r) && r.listeners.Keys == t.listeners.Keys - {wr}
      && (forall w :: w in r.listeners ==> r.listeners[w] == t.listeners[w])
  {
    var r := RemoveEntry(t, wr);
    var h := t.listeners[wr];
    var old_b := t.listenersHashCodes[h];
    assert BucketSound(t, h);
    var bucket := RemoveFirst(old_b, wr);
    RemoveFirstSpec(old_b, wr);
    forall g | g in r.listenersHashCodes ensures BucketSound(r, g) {
      assert BucketSound(t, g);
      var b := r.listenersHashCodes[g];
      if g == h {
        forall i | 0 <= i < |b| ensures b[i] in r.listeners && r.listeners[b[i]] == g {
          assert b[i] in old_b && b[i] != wr;
        }
      } else {
        forall i | 0 <= i < |b| ensures b[i] != wr {
          assert t.listeners[b[i]] == g;
        }
      }
    }
    forall w | w in r.listeners
      ensures r.listeners[w] in r.listenersHashCodes && w in r.listenersHashCodes[r.listeners[w]]
    {
      if t.listeners[w] == h {
        var i :| 0 <= i < |old_b| && old_b[i] == w;
        assert w in bucket;
      }
    }
  }

  /** `RemoveListener` on the table: the listener's handle goes, if it has one. */
  function Unregister(t: Table, listener: Obj, alive: set<Obj>): (r: Table)
    requires TableValid(t)
    ensures TableValid(r)
  {
    var wr := Find(t, listener, alive);
    FindSpec(t, listener, alive);
    if wr == null then t
    else
      RemoveEntryPreserves(t, wr);
      RemoveEntry(t, wr)
  }

  /**
   * After removal the listener is no longer registered, every other handle
   * is kept, and removing again changes nothing.
   */
  lemma UnregisterSpec(t: Table, listener: Obj, alive: set<Obj>)
    requires TableValid(t)
    ensures var r := Unregister(t, listener, alive);
      !Contains(r, listener, alive)
      && (forall w :: w in t.listeners && w.Target(alive) != listener ==> w in r.listeners)
      && r.listeners.Keys <= t.listeners.Keys
      && (!Contains(t, listener, alive) ==> r == t)
      && Unregister(r, listener, alive) == r
  {
    var r := Unregister(t, listener, alive);
    FindSpec(t, listener, alive);
    var wr := Find(t, listener, alive);
    if wr != null {
      RemoveEntryPreserves(t, wr);
      assert forall w :: w in r.listeners ==> w != wr && w.referent != wr.referent;
    }
    FindSpec(r, listener, alive);
  }

  /**
   * `ClearDeadReferences` on the table: removes the queued handles in order,
   * stopping with `false` at the first one that is no longer a key (where
   * `listeners[deadListener]` throws).
   */
  function Purge(t: Table, dead: seq<WeakRef>): (r: (bool, Table))
    requires TableValid(t)
    ensures TableValid(r.1)
    decreases |dead|
  {
    if dead == [] then (true, t)
    else
      var (ok, prefix) := Purge(t, dead[..|dead| - 1]);
      var x := dead[|dead| - 1];
      if !ok || x !in prefix.listeners then (false, prefix)
      else
        RemoveEntryPreserves(prefix, x);
        (true, RemoveEntry(prefix, x))
  }

  /**
   * The purge succeeds exactly when the queue holds distinct keys, and then
   * removes exactly those keys.
   */
  lemma {:induction false} PurgeSpec(t: Table, dead: seq<WeakRef>)
    requires TableValid(t)
    ensures Purge(t, dead).0 <==> Distinct(dead) && forall i :: 0 <= i < |dead| ==> dead[i] in t.listeners
    ensures Purge(t, dead).0 ==> Purge(t, dead).1.listeners.Keys == t.listeners.Keys - set w | w in dead
    decreases |dead|
  {
    if dead != [] {
      var init := dead[..|dead| - 1];
      var x := dead[|dead| - 1];
      PurgeSpec(t, init);
      var (ok, prefix) := Purge(t, init);
      assert (set w | w in dead) == (set w | w in init) + {x};
      if ok && x in prefix.listeners {
        RemoveEntryPreserves(prefix, x);
      }
      if Distinct(dead) {
        assert Distinct(init);
        assert x !in init;
      }
      if Distinct(init) && x !in init {
        assert Distinct(dead) by {
          forall i, j | 0 <= i < j < |dead| ensures dead[i] != dead[j] {
            if j < |dead| - 1 {
              assert dead[i] == init[i] && dead[j] == init[j];
            } else {
              assert dead[i] == init[i];
            }
          }
        }
      }
      forall i | 0 <= i < |init| ensures init[i] == dead[i] { }
    }
  }

  /** Once the purge has failed, further queued handles change nothing. */
  lemma {:induction false} PurgeFailSticks(t: Table, s: seq<WeakRef>, rest: seq<WeakRef>)
    requires TableValid(t) && !Purge(t, s).0
    ensures Purge(t, s + rest) == Purge(t, s)
    decreases |rest|
  {
    if rest != [] {
      var init := rest[..|rest| - 1];
      PurgeFailSticks(t, s, init);
      assert (s + rest)[..|s + rest| - 1] == s + init;
      assert Purge(t, s + init) == Purge(t, s);
      assert Purge(t, s + rest) == (false, Purge(t, s).1);
    } else {
      assert s + rest == s;
    }
  }

  /** A queued handle that appears twice makes the purge fail. */
  lemma DuplicateQueueFails(t: Table, dead: seq<WeakRef>, i: nat, j: nat)
    requires TableValid(t)
    requires i < j < |dead| && dead[i] == dead[j]
    ensures !Purge(t, dead).0
  {
    PurgeSpec(t, dead);
  }

  /** The live listeners a table holds. */
  ghost function LiveListeners(t: Table, alive: set<Obj>): set<Obj> {
    LiveOf(t.listeners.Keys, alive)
  }

  /** The handles of a table whose listeners are gone. */
  ghost function DeadListeners(t: Table, alive: set<Obj>): set<WeakRef> {
    DeadOf(t.listeners.Keys, alive)
  }

  /** The live listeners of a set of handles. */
  ghost function LiveOf(handles: set<WeakRef>, alive: set<Obj>): set<Obj> {
    set w | w in handles && w.Target(alive) != null :: w.referent
  }

  /** The handles of a set whose listeners are gone. */
  ghost function DeadOf(handles: set<WeakRef>, alive: set<Obj>): set<WeakRef> {
    set w | w in handles && w.Target(alive) == null
  }

  lemma LiveOfAdd(handles: set<WeakRef>, w: WeakRef, alive: set<Obj>)
    requires w !in handles
    ensures LiveOf(handles + {w}, alive) ==
      LiveOf(handles, alive) + (if w.Target(alive) != null then {w.referent} else {})
    ensures DeadOf(handles + {w}, alive) ==
      DeadOf(handles, alive) + (if w.Target(alive) == null then {w} else {})
    ensures w !in DeadOf(handles, alive)
  {
  }

  /** A handle outside `handles` has a listener no handle of `handles` has. */
  lemma LiveOfExcludes(t: Table, handles: set<WeakRef>, w: WeakRef, alive: set<Obj>)
    requires TableValid(t) && handles <= t.listeners.Keys && w in t.listeners && w !in handles
    ensures w.referent !in LiveOf(handles, alive)
  {
  }

  class ListenersList {
    var listeners: map<WeakRef, int>
    var listenersHashCodes: map<int, seq<WeakRef>>
    var deadListeners: seq<WeakRef>

    function Snapshot(): Table
      reads this
    {
      Table(listeners, listenersHashCodes)
    }

    ghost predicate Valid()
      reads this
    {
      TableValid(Snapshot())
    }

    constructor ()
      ensures Valid() && listeners == map[] && listenersHashCodes == map[] && deadListeners == []
    {
      listeners := map[];
      listenersHashCodes := map[];
      deadListeners := [];
    }

    /** `Count`: the number of handles, dead ones included until they are purged. */
    function Count(): nat
      reads this
    {
      |listeners|
    }

    /**
     * `AddListener`: registers a live listener unless a handle in its hash
     * bucket already targets it; a new handle goes into both dictionaries.
     */
    method AddListener(listener: Obj, alive: set<Obj>) returns (ghost added: WeakRef?)
      requires Valid()
      requires listener in alive
      modifies this
      ensures Valid()
      ensures Contains(Snapshot(), listener, alive)
      ensures old(Contains(Snapshot(), listener, alive)) ==> added == null && Snapshot() == old(Snapshot())
      ensures !old(Contains(Snapshot(), listener, alive)) ==>
        added != null && fresh(added) && added.referent == listener
        && Snapshot() == AddEntry(old(Snapshot()), added, listener)
        && Count() == old(Count()) + 1
      ensures deadListeners == old(deadListeners)
    {
      FindSpec(Snapshot(), listener, alive);
      var weakReference := new WeakRef(listener);
      assert weakReference !in listeners;
      var hashCode := listener.hash;
      if hashCode !in listenersHashCodes {
        assert !Contains(Snapshot(), listener, alive);
        assert BucketOf(Snapshot(), hashCode) + [weakReference] == [weakReference];
        AddEntryPreserves(Snapshot(), weakReference, listener, alive);
        listeners := listeners[weakReference := hashCode];
        listenersHashCodes := listenersHashCodes[hashCode := [weakReference]];
        return weakReference;
      } else if FirstLive(listenersHashCodes[hashCode], listener, alive) == null {
        AddEntryPreserves(Snapshot(), weakReference, listener, alive);
        listeners := listeners[weakReference := hashCode];
        listenersHashCodes := listenersHashCodes[hashCode := listenersHashCodes[hashCode] + [weakReference]];
        return weakReference;
      }
      return null;
    }

    /** `RemoveListener`: the listener's handle leaves both dictionaries, if it has one. */
    method RemoveListener(listener: Obj, alive: set<Obj>)
      requires Valid()
      modifies this
      ensures Valid()
      ensures Snapshot() == Unregister(old(Snapshot()), listener, alive)
      ensures !Contains(Snapshot(), listener, alive)
      ensures deadListeners == old(deadListeners)
    {
      UnregisterSpec(Snapshot(), listener, alive);
      FindSpec(Snapshot(), listener, alive);
      var hashCode := listener.hash;
      if hashCode !in listenersHashCodes {
        return;
      }
      var hashCodes := listenersHashCodes[hashCode];
      var found := FirstLive(hashCodes, listener, alive);
      if found == null {
        return;
      }
      var wr: WeakRef := found;
      assert BucketSound(Snapshot(), hashCode);
      assert wr == Find(Snapshot(), listener, alive);
      assert listeners[wr] == hashCode;
      if |hashCodes| > 1 {
        assert RemoveFirst(hashCodes, wr) != [];
        listenersHashCodes := listenersHashCodes[hashCode := RemoveFirst(hashCodes, wr)];
      } else {
        assert hashCodes == [wr];
        assert RemoveFirst(hashCodes, wr) == [];
        listenersHashCodes := listenersHashCodes - {hashCode};
      }
      listeners := listeners - {wr};
    }

    /**
     * `GetListeners`, enumerated to the end: each live listener once; the
     * handles of dead ones are queued. The dictionaries do not change.
     */
    method GetListeners(alive: set<Obj>) returns (live: seq<Obj>)
      requires Valid()
      modifies this
      ensures Valid() && Snapshot() == old(Snapshot())
      ensures Distinct(live) && (set x | x in live) == LiveListeners(Snapshot(), alive)
      ensures |deadListeners| >= |old(deadListeners)| && deadListeners[..|old(deadListeners)|] == old(deadListeners)
      ensures var queued := deadListeners[|old(deadListeners)|..];
        Distinct(queued) && (set w | w in queued) == DeadListeners(Snapshot(), alive)
    {
      live := [];
      var dead: seq<WeakRef> := [];
      ghost var t := Snapshot();
      var remaining := listeners.Keys;
      ghost var done: set<WeakRef> := {};
      while remaining != {}
        invariant Snapshot() == t && deadListeners == old(deadListeners)
        invariant remaining <= t.listeners.Keys && done == t.listeners.Keys - remaining
        invariant Distinct(live) && (set x | x in live) == LiveOf(done, alive)
        invariant Distinct(dead) && (set w | w in dead) == DeadOf(done, alive)
        decreases remaining
      {
        var w :| w in remaining;
        LiveOfAdd(done, w, alive);
        ghost var liveBefore := set x | x in live;
        ghost var deadBefore := set v | v in dead;
        remaining := remaining - {w};
        done := done + {w};
        var listenerReference := w.Target(alive);
        if listenerReference == null {
          dead := dead + [w];
          assert (set v | v in dead) == deadBefore + {w};
        } else {
          LiveOfExcludes(t, done - {w}, w, alive);
          live := live + [listenerReference];
          assert (set x | x in live) == liveBefore + {listenerReference};
        }
      }
      deadListeners := deadListeners + dead;
      assert deadListeners[|old(deadListeners)|..] == dead;
    }

    /**
     * `ClearDeadReferences`: purges the queued handles and clears the queue;
     * a handle that is no longer a key (queued twice, say) throws
     * `KeyNotFoundException`, leaving the earlier removals done and the
     * queue as it was.
     */
    method ClearDeadReferences() returns (r: Outcome<Exception>)
      requires Valid()
      modifies this
      ensures Valid()
      ensures Snapshot() == Purge(old(Snapshot()), old(deadListeners)).1
      ensures Purge(old(Snapshot()), old(deadListeners)).0 ==> r == Pass && deadListeners == []
      ensures !Purge(old(Snapshot()), old(deadListeners)).0 ==>
        r == Fail(KeyNotFoundException) && deadListeners == old(deadListeners)
    {
      var i := 0;
      while i < |deadListeners|
        invariant 0 <= i <= |deadListeners|
        invariant deadListeners == old(deadListeners)
        invariant Valid()
        invariant Purge(old(Snapshot()), deadListeners[..i]) == (true, Snapshot())
      {
        var deadListener := deadListeners[i];
        assert deadListeners[..i + 1][..i] == deadListeners[..i];
        if deadListener !in listeners {
          PurgeFailSticks(old(Snapshot()), deadListeners[..i + 1], deadListeners[i + 1..]);
          assert deadListeners[..i + 1] + deadListeners[i + 1..] == deadListeners;
          return Fail(KeyNotFoundException);
        }
        RemoveEntryPreserves(Snapshot(), deadListener);
        var hashCode := listeners[deadListener];
        var bucket := RemoveFirst(listenersHashCodes[hashCode], deadListener);
        if bucket == [] {
          listenersHashCodes := listenersHashCodes - {hashCode};
        } else {
          listenersHashCodes := listenersHashCodes[hashCode := bucket];
        }
        listeners := listeners - {deadListener};
        i := i + 1;
      }
      assert deadListeners[..i] == deadListeners;
      deadListeners := [];
      return Pass;
    }

    /**
     * `SynchronizeTargetInfo`: the listeners whose `RemoveTargetInfo(targetInfo)`
     * is called, which are all live listeners except `listener`. Enumerating
     * `GetListeners()` queues the handles of dead listeners once more.
     */
    method SynchronizeTargetInfo(listener: Obj?, alive: set<Obj>) returns (others: seq<Obj>)
      requires Valid()
      modifies this
      ensures Valid() && Snapshot() == old(Snapshot())
      ensures Distinct(others) && (set x | x in others) == LiveListeners(Snapshot(), alive) - {listener}
      ensures |deadListeners| >= |old(deadListeners)| && deadListeners[..|old(deadListeners)|] == old(deadListeners)
      ensures var queued := deadListeners[|old(deadListeners)|..];
        Distinct(queued) && (set w | w in queued) == DeadListeners(Snapshot(), alive)
    {
      var live := GetListeners(alive);
      others := [];
      var i := 0;
      while i < |live|
        invariant 0 <= i <= |live|
        invariant Distinct(others)
        invariant forall k :: 0 <= k < |others| ==> others[k] in live[..i]
        invariant (set x | x in others) == (set x | x in live[..i]) - {listener}
      {
        assert live[..i + 1] == live[..i] + [live[i]];
        assert live[i] !in live[..i];
        ghost var before := set x | x in others;
        if live[i] != listener {
          others := others + [live[i]];
          assert (set x | x in others) == before + {live[i]};
        }
        i := i + 1;
      }
      assert live[..i] == live;
    }
  }

  /**
   * A queue filled by one enumeration from an empty queue purges cleanly and
   * removes exactly the handles of dead listeners.
   */
  lemma EnumerateThenPurge(t: Table, queued: seq<WeakRef>, alive: set<Obj>)
    requires TableValid(t)
    requires Distinct(queued) && (set w | w in queued) == DeadListeners(t, alive)
    ensures Purge(t, queued).0
    ensures Purge(t, queued).1.listeners.Keys == t.listeners.Keys - DeadListeners(t, alive)
  {
    PurgeSpec(t, queued);
    forall i | 0 <= i < |queued| ensures queued[i] in t.listeners {
      assert queued[i] in (set w | w in queued);
      assert queued[i] in DeadListeners(t, alive);
    }
  }

  /**
   * Two enumerations with a dead listener and no purge in between queue its
   * handle twice. The purge then throws, and because the queue is not
   * cleared, every later purge throws again, whatever the table has become
   * and whatever is queued after.
   */
  lemma DoubleEnumerationPoisonsQueue(t: Table, q1: seq<WeakRef>, q2: seq<WeakRef>, alive: set<Obj>,
                                      later: Table, rest: seq<WeakRef>)
    requires TableValid(t) && TableValid(later)
    requires (set w | w in q1) == DeadListeners(t, alive) && (set w | w in q2) == DeadListeners(t, alive)
    requires DeadListeners(t, alive) != {}
    ensures !Purge(t, q1 + q2).0
    ensures !Purge(later, q1 + q2 + rest).0
  {
    var w :| w in DeadListeners(t, alive);
    assert w in (set v | v in q1) && w in (set v | v in q2);
    var i :| 0 <= i < |q1| && q1[i] == w;
    var j :| 0 <= j < |q2| && q2[j] == w;
    var q := q1 + q2;
    assert q[i] == w && q[|q1| + j] == w;
    DuplicateQueueFails(t, q, i, |q1| + j);
    DuplicateQueueFails(later, q, i, |q1| + j);
    PurgeFailSticks(later, q, rest);
  }

  /**
   * `ClearDeadReferences` as evidently intended: a queued handle that is no
   * longer a key is skipped (as `TargetObjectsDictionary.ClearDeadReferences`
   * does with `TryGetValue`) instead of throwing.
   */
  function PurgeSkippingAbsent(t: Table, dead: seq<WeakRef>): (r: Table)
    requires TableValid(t)
    ensures TableValid(r)
    decreases |dead|
  {
    if dead == [] then t
    else
      var prefix := PurgeSkippingAbsent(t, dead[..|dead| - 1]);
      var x := dead[|dead| - 1];
      if x !in prefix.listeners then prefix
      else
        RemoveEntryPreserves(prefix, x);
        RemoveEntry(prefix, x)
  }

  /** The corrected purge always removes exactly the queued handles, duplicates or not. */
  lemma {:induction false} PurgeSkippingAbsentSpec(t: Table, dead: seq<WeakRef>)
    requires TableValid(t)
    ensures PurgeSkippingAbsent(t, dead).listeners.Keys == t.listeners.Keys - set w | w in dead
    decreases |dead|
  {
    if dead != [] {
      var init := dead[..|dead| - 1];
      var x := dead[|dead| - 1];
      PurgeSkippingAbsentSpec(t, init);
      var prefix := PurgeSkippingAbsent(t, init);
      assert (set w | w in dead) == (set w | w in init) + {x};
      if x in prefix.listeners {
        RemoveEntryPreserves(prefix, x);
      }
    }
  }

  /** Under the corrected purge, any number of enumerations before it remove exactly the dead listeners. */
  lemma RepeatedEnumerationsPurgeCleanly(t: Table, q1: seq<WeakRef>, q2: seq<WeakRef>, alive: set<Obj>)
    requires TableValid(t)
    requires (set w | w in q1) == DeadListeners(t, alive) && (set w | w in q2) == DeadListeners(t, alive)
    ensures PurgeSkippingAbsent(t, q1 + q2).listeners.Keys == t.listeners.Keys - DeadListeners(t, alive)
  {
    PurgeSkippingAbsentSpec(t, q1 + q2);
    assert (set w | w in q1 + q2) == (set w | w in q1) + (set w | w in q2);
  }
}

/**
 * `WeakReferenceKey`: a weak reference meant to be used as a dictionary key.
 * Its hash code is the target's hash code, read once at construction and
 * never again; its equality compares the current targets.
 */
module WeakReferenceKey {
  import opened Wrappers
  import opened Objects

  /** The argument of `Equals(object)`: null, another key, or any other object. */
  datatype Operand =
    | NullOperand
    | KeyOperand(key: WeakReferenceKey)
    | OtherOperand(obj: Obj)

  class WeakReferenceKey {
    const referent: Obj?
    const hashCode: int

    /** Construction over a non-null target (`Create` covers `null`). */
    constructor (target: Obj)
      ensures referent == target && hashCode == target.hash
    {
      referent := target;
      hashCode := target.hash;
    }

    /** The state every constructed key is in: the frozen hash is its referent's. */
    ghost predicate Valid() {
      referent != null && hashCode == referent.hash
    }

    /** `WeakReference.Target`. */
    function Target(alive: set<Obj>): Obj? {
      if referent != null && referent in alive then referent else null
    }

    /** `GetHashCode()`: the value captured at construction, whatever is alive now. */
    function GetHashCode(): int {
      hashCode
    }

    /** `Equals(WeakReferenceKey other)`: the current targets are the same reference. */
    predicate EqualsKey(other: WeakReferenceKey, alive: set<Obj>) {
      Target(alive) == other.Target(alive)
    }

    /** `Equals(object obj)`. */
    predicate Equals(obj: Operand, alive: set<Obj>) {
      match obj
      case NullOperand => false
      case OtherOperand(_) => false
      case KeyOperand(other) => other == this || EqualsKey(other, alive)
    }

    /**
     * The equality `GetHashCode` calls for: a key whose target is gone is
     * equal to itself only.
     */
    predicate EqualsCorrected(obj: Operand, alive: set<Obj>) {
      match obj
      case NullOperand => false
      case OtherOperand(_) => false
      case KeyOperand(other) => other == this || (Target(alive) != null && EqualsKey(other, alive))
    }
  }

  /**
   * `new WeakReferenceKey(target)`: with a null target the constructor fails
   * on `target.GetHashCode()`, a null dereference rather than an argument check.
   */
  method Create(target: Obj?) returns (r: Result<WeakReferenceKey, Exception>)
    ensures target == null ==> r == Failure(NullReferenceException)
    ensures target != null ==>
      r.Success? && fresh(r.value) && r.value.Valid() && r.value.referent == target
  {
    if target == null {
      return Failure(NullReferenceException);
    }
    var key := new WeakReferenceKey(target);
    return Success(key);
  }

  /** Equality is reflexive through the reference check, even once the target is gone. */
  lemma EqualsReflexive(k: WeakReferenceKey, alive: set<Obj>)
    ensures k.Equals(KeyOperand(k), alive)
  {
  }

  /** `null` and objects of another run-time type are never equal to a key. */
  lemma EqualsRejectsNullAndOtherTypes(k: WeakReferenceKey, o: Obj, alive: set<Obj>)
    ensures !k.Equals(NullOperand, alive) && !k.Equals(OtherOperand(o), alive)
  {
  }

  /** Two keys are equal iff their current targets are the same reference; the relation is symmetric. */
  lemma EqualsIffSameTarget(a: WeakReferenceKey, b: WeakReferenceKey, alive: set<Obj>)
    ensures a.Equals(KeyOperand(b), alive) <==> a.Target(alive) == b.Target(alive)
    ensures a.Equals(KeyOperand(b), alive) <==> b.Equals(KeyOperand(a), alive)
  {
  }

  /** Two keys whose targets are both gone compare equal (`null == null`). */
  lemma DeadKeysAreEqual(a: WeakReferenceKey, b: WeakReferenceKey, alive: set<Obj>)
    requires a.Target(alive) == null && b.Target(alive) == null
    ensures a.Equals(KeyOperand(b), alive)
  {
  }

  /** Keys equal while their targets are alive carry equal hash codes. */
  lemma LiveEqualKeysShareHash(a: WeakReferenceKey, b: WeakReferenceKey, alive: set<Obj>)
    requires a.Valid() && b.Valid()
    requires a.Target(alive) != null
    requires a.Equals(KeyOperand(b), alive)
    ensures a.GetHashCode() == b.GetHashCode()
  {
  }

  /**
   * Two keys to different targets with different hash codes, once both targets
   * are collected: `Equals` holds and the hash codes differ.
   */
  method DeadKeysBreakHashContract() returns (a: WeakReferenceKey, b: WeakReferenceKey)
    ensures a.Equals(KeyOperand(b), {}) && a.GetHashCode() != b.GetHashCode()
  {
    var first := new Obj(1, OtherType);
    var second := new Obj(2, OtherType);
    a := new WeakReferenceKey(first);
    b := new WeakReferenceKey(second);
  }

  /** Under the corrected equality, equal keys always have equal hash codes. */
  lemma CorrectedEqualsRespectsHash(a: WeakReferenceKey, b: WeakReferenceKey, alive: set<Obj>)
    requires a.Valid() && b.Valid()
    ensures a.EqualsCorrected(KeyOperand(b), alive) ==> a.GetHashCode() == b.GetHashCode()
    ensures a.EqualsCorrected(KeyOperand(b), alive) <==> b.EqualsCorrected(KeyOperand(a), alive)
    ensures a.EqualsCorrected(KeyOperand(a), alive)
  {
  }
}

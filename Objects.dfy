/**
 * Objects, weak references and garbage collection.
 *
 * An object of the managed heap is a Dafny object of class `Obj`: reference
 * equality in Dafny is reference equality (`==`, `ReferenceEquals`) in .NET.
 * Its `GetHashCode()` is the constant `hash` (a stable hash, as the default
 * identity hash is). What the code asks of an object's run-time type (`is
 * INestedMarkupExtension`, `GetType() == typeof(WeakReference)`) is the
 * constant `runtimeType`.
 *
 * Garbage collection is not modelled: every operation that reads
 * `WeakReference.Target` receives the set `alive` of objects not yet
 * collected, and `Target(alive)` is `null` exactly when the referent is not in
 * it.
 */
module Objects {
  import opened Wrappers

  /** The facts about an object's run-time type that the modelled code tests. */
  datatype RuntimeType =
    | WeakReferenceType       // exactly System.WeakReference
    | WeakReferenceSubtype    // a class derived from WeakReference
    | NestedExtensionType     // implements INestedMarkupExtension
    | OtherType

  class Obj {
    const hash: int
    const runtimeType: RuntimeType

    constructor (hash: int, runtimeType: RuntimeType)
      ensures this.hash == hash && this.runtimeType == runtimeType
    {
      this.hash := hash;
      this.runtimeType := runtimeType;
    }

    /** `this is INestedMarkupExtension`. */
    predicate IsNestedExtension() {
      runtimeType == NestedExtensionType
    }
  }

  /** A System.WeakReference: a handle whose identity is its own reference. */
  class WeakRef {
    const referent: Obj?

    constructor (target: Obj?)
      ensures referent == target
    {
      referent := target;
    }

    /** `WeakReference.Target`: the referent while it is alive, else `null`. */
    function Target(alive: set<Obj>): Obj? {
      if referent != null && referent in alive then referent else null
    }
  }

  /** The .NET exceptions that the modelled code throws. */
  datatype Exception =
    | ArgumentNullException(paramName: string, message: string)
    | ArgumentException(argumentName: Option<string>, message: string)
    | InvalidOperationException(message: string)
    | KeyNotFoundException
    | NullReferenceException
    | GeneralException(message: string)   // System.Exception
}

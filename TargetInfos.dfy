/**
 * `TargetInfo`: what a markup extension knows about one of its targets, the
 * target object, the target property, the property's type and an index.
 * The fields are never changed after construction, so a `TargetInfo` is a
 * value here; its `Equals` compares object and property by reference and
 * ignores the property type.
 */
module TargetInfos {
  import opened Objects

  datatype TargetInfo = TargetInfo(
    targetObject: Obj?,
    targetProperty: Obj?,
    targetPropertyType: Obj?,
    targetPropertyIndex: int)
  {
    /** `IsEndpoint`: the target object is not itself a nested markup extension. */
    predicate IsEndpoint() {
      !(targetObject != null && targetObject.IsNestedExtension())
    }

    /** `Equals(object)`. */
    predicate Equals(obj: InfoOperand) {
      match obj
      case Info(ti) =>
        if ti.targetObject != targetObject then false
        else if ti.targetProperty != targetProperty then false
        else ti.targetPropertyIndex == targetPropertyIndex
      case _ => false
    }

    /**
     * `GetHashCode()`: the hash of the triple (object, property, index), built
     * as `Tuple<object, object, int>` builds it: `combine` is the tuple's hash
     * combiner, applied to the components' hash codes (`0` for `null`).
     */
    function GetHashCode(combine: (int, int, int) -> int): int {
      combine(HashOf(targetObject), HashOf(targetProperty), targetPropertyIndex)
    }
  }

  /** The argument of `Equals(object)`. */
  datatype InfoOperand =
    | NullOperand
    | Info(info: TargetInfo)
    | OtherOperand(obj: Obj)

  /** The hash code a tuple takes for a reference component. */
  function HashOf(o: Obj?): int {
    if o == null then 0 else o.hash
  }

  /** `Equals` holds exactly for a `TargetInfo` with the same object, property and index. */
  lemma EqualsIffSameTriple(a: TargetInfo, obj: InfoOperand)
    ensures a.Equals(obj) <==>
      (obj.Info? && obj.info.targetObject == a.targetObject
       && obj.info.targetProperty == a.targetProperty
       && obj.info.targetPropertyIndex == a.targetPropertyIndex)
  {
  }

  /** The property type plays no part in equality. */
  lemma EqualsIgnoresPropertyType(a: TargetInfo, t: Obj?)
    ensures a.Equals(Info(a.(targetPropertyType := t)))
  {
  }

  /** `Equals` is reflexive and symmetric. */
  lemma EqualsReflexiveSymmetric(a: TargetInfo, b: TargetInfo)
    ensures a.Equals(Info(a))
    ensures a.Equals(Info(b)) <==> b.Equals(Info(a))
  {
  }

  /** Equal infos have equal hash codes, whatever the tuple's combiner. */
  lemma EqualInfosHashEqually(a: TargetInfo, b: TargetInfo, combine: (int, int, int) -> int)
    requires a.Equals(Info(b))
    ensures a.GetHashCode(combine) == b.GetHashCode(combine)
  {
  }

  /** An info is an endpoint exactly when its target object is not a nested markup extension. */
  lemma EndpointIffNotNested(a: TargetInfo)
    ensures a.IsEndpoint() <==> (a.targetObject == null || a.targetObject.runtimeType != NestedExtensionType)
  {
  }
}

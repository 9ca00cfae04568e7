/**
 * `TargetPath`: the path from a markup extension down to an endpoint, as a
 * stack of `TargetInfo` steps over a fixed endpoint.
 */
module TargetPaths {
  import opened Wrappers
  import opened Objects
  import opened TargetInfos

  const NotEndpointMessage := "A path endpoint cannot be another INestedMarkupExtension."

  /**
   * What one `GetNextStep` returns and leaves: the top of the stack (its
   * last element) and the rest, or the endpoint and the empty stack.
   */
  function Pop(path: seq<TargetInfo>, endPoint: TargetInfo): (r: (TargetInfo, seq<TargetInfo>))
    ensures path == [] ==> r == (endPoint, [])
    ensures path != [] ==> path == r.1 + [r.0]
  {
    if |path| > 0 then (path[|path| - 1], path[..|path| - 1]) else (endPoint, path)
  }

  /** The results of `n` successive `GetNextStep` calls. */
  function Drain(path: seq<TargetInfo>, endPoint: TargetInfo, n: nat): seq<TargetInfo>
    decreases n
  {
    if n == 0 then [] else
      var (step, rest) := Pop(path, endPoint);
      [step] + Drain(rest, endPoint, n - 1)
  }

  function Reversed<T>(s: seq<T>): (r: seq<T>)
    ensures |r| == |s|
  {
    if s == [] then [] else [s[|s| - 1]] + Reversed(s[..|s| - 1])
  }

  function Repeat<T>(x: T, n: nat): (r: seq<T>)
    ensures |r| == n && forall i :: 0 <= i < n ==> r[i] == x
  {
    if n == 0 then [] else [x] + Repeat(x, n - 1)
  }

  /** `AddStep(x)` then `GetNextStep()` returns `x` and restores the stack. */
  lemma PushThenPop(path: seq<TargetInfo>, x: TargetInfo, endPoint: TargetInfo)
    ensures Pop(path + [x], endPoint) == (x, path)
  {
    assert (path + [x])[..|path|] == path;
  }

  /** Steps pushed onto a path come back in reverse order (last in, first out). */
  lemma {:induction false} DrainIsLifo(path: seq<TargetInfo>, steps: seq<TargetInfo>, endPoint: TargetInfo)
    ensures Drain(path + steps, endPoint, |steps|) == Reversed(steps)
    decreases |steps|
  {
    if steps != [] {
      var init := steps[..|steps| - 1];
      var x := steps[|steps| - 1];
      assert path + steps == (path + init) + [x];
      PushThenPop(path + init, x, endPoint);
      DrainIsLifo(path, init, endPoint);
    }
  }

  /** Once the stack is empty, every further step is the endpoint. */
  lemma {:induction false} DrainEmpty(endPoint: TargetInfo, n: nat)
    ensures Drain([], endPoint, n) == Repeat(endPoint, n)
  {
    if n > 0 {
      DrainEmpty(endPoint, n - 1);
    }
  }

  class TargetPath {
    /** `Path`: the steps, most recent last. */
    var path: seq<TargetInfo>
    /** `EndPoint`: set by the constructor, never changed after. */
    const endPoint: TargetInfo

    constructor (endPoint: TargetInfo)
      requires endPoint.IsEndpoint()
      ensures this.endPoint == endPoint && path == []
    {
      this.endPoint := endPoint;
      path := [];
    }

    ghost predicate Valid()
      reads this
    {
      endPoint.IsEndpoint()
    }

    /** `AddStep`: pushes `info`. */
    method AddStep(info: TargetInfo)
      modifies this
      ensures path == old(path) + [info]
    {
      path := path + [info];
    }

    /** `GetNextStep`: pops the most recent step, or returns the endpoint and changes nothing. */
    method GetNextStep() returns (r: TargetInfo)
      modifies this
      ensures (r, path) == Pop(old(path), endPoint)
      ensures r == old(ShowNextStep())
    {
      if |path| > 0 {
        r := path[|path| - 1];
        path := path[..|path| - 1];
      } else {
        r := endPoint;
      }
    }

    /** `ShowNextStep`: what `GetNextStep` would return, without popping. */
    function ShowNextStep(): (r: TargetInfo)
      reads this
      ensures r == Pop(path, endPoint).0
      ensures path == [] ==> r == endPoint
      ensures path != [] ==> r in path
    {
      if |path| > 0 then path[|path| - 1] else endPoint
    }
  }

  /** `new TargetPath(endPoint)`: refuses a non-endpoint with `ArgumentException`. */
  method Create(endPoint: TargetInfo) returns (r: Result<TargetPath, Exception>)
    ensures !endPoint.IsEndpoint() ==> r == Failure(ArgumentException(None, NotEndpointMessage))
    ensures endPoint.IsEndpoint() ==>
      r.Success? && fresh(r.value) && r.value.Valid() && r.value.endPoint == endPoint && r.value.path == []
  {
    if !endPoint.IsEndpoint() {
      return Failure(ArgumentException(None, NotEndpointMessage));
    }
    var p := new TargetPath(endPoint);
    return Success(p);
  }
}

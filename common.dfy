/** Vocabulary shared by the command and the cleaner models: optional values,
    the ways a PHP method can end, and running a list of steps any of which
    may throw an exception that ends the run. */
module Common {

  datatype Option<+T> = None | Some(value: T)

  /** How a PHP method ends: an explicit `return FALSE` or `return TRUE`,
      falling off the end (the caller sees NULL), or an exception escaping it. */
  datatype Exit = ReturnedFalse | ReturnedTrue | ReturnedNull | Threw

  /** No step of `steps` throws. */
  predicate NoneThrow<T(==)>(steps: seq<T>, throwing: set<T>)
  {
    forall i :: 0 <= i < |steps| ==> steps[i] !in throwing
  }

  /** Position of the first step that throws, or |steps| when none does. */
  function FirstThrowing<T(==)>(steps: seq<T>, throwing: set<T>): (k: nat)
    ensures k <= |steps|
    ensures forall i :: 0 <= i < k ==> steps[i] !in throwing
    ensures k < |steps| ==> steps[k] in throwing
    ensures k == |steps| <==> NoneThrow(steps, throwing)
  {
    if steps == [] then 0
    else if steps[0] in throwing then 0
    else 1 + FirstThrowing(steps[1..], throwing)
  }

  /** The steps that get started when `steps` run in order and the first one
      that throws ends the run (that step is itself started). */
  function Attempted<T(==)>(steps: seq<T>, throwing: set<T>): (a: seq<T>)
    ensures a <= steps
    ensures NoneThrow(steps, throwing) ==> a == steps
    ensures !NoneThrow(steps, throwing) ==>
              |a| > 0 && a[|a| - 1] in throwing && NoneThrow(a[..|a| - 1], throwing)
  {
    var k := FirstThrowing(steps, throwing);
    if k < |steps| then steps[..k + 1] else steps
  }

  /** Whatever the throwing steps, the attempted prefix is determined by where
      the first throwing step sits: any prefix of `steps` that ends at a
      throwing step and has no earlier throwing step is the attempted one. */
  lemma AttemptedUnique<T>(steps: seq<T>, throwing: set<T>, p: seq<T>)
    requires p <= steps && |p| > 0
    requires p[|p| - 1] in throwing && NoneThrow(p[..|p| - 1], throwing)
    ensures Attempted(steps, throwing) == p
  {
    assert steps[|p| - 1] == p[|p| - 1];
  }
}

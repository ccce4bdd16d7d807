/**
 * The two shapes of pass the parser makes, stated once over an arbitrary
 * step so that what they say about order and errors does not depend on the
 * text handling inside the step:
 *
 *  - `Fold`: a left-to-right pass over the lines of a block, threading a
 *    record through; the first step that fails ends the pass with its error
 *    (a `std::stoi` that throws).
 *  - `MapAll`: a pass over the blocks, each scanned on its own; the first
 *    block that fails ends the pass.
 *
 * `Collect` lists the values a classifier picks out of a sequence, in order.
 */
module Scan {
  import opened Wrappers

  /** Applies `step` to the items in order, from `init`; the first error ends the pass. */
  function Fold<S, X, E>(items: seq<X>, init: S, step: (S, X) -> Result<S, E>): Result<S, E>
    decreases |items|
  {
    if items == [] then Ok(init)
    else
      match Fold(items[..|items| - 1], init, step)
      case Err(e) => Err(e)
      case Ok(s) => step(s, items[|items| - 1])
  }

  /** One more item: the pass continues from where it stood, or keeps its error. */
  lemma FoldSnoc<S, X, E>(items: seq<X>, x: X, init: S, step: (S, X) -> Result<S, E>)
    ensures Fold(items + [x], init, step) ==
      match Fold(items, init, step)
      case Err(e) => Err(e)
      case Ok(s) => step(s, x)
  {
    assert (items + [x])[..|items|] == items;
  }

  /** The pass over the first `k + 1` items continues the pass over the first `k`. */
  lemma FoldStep<S, X, E>(items: seq<X>, k: nat, init: S, step: (S, X) -> Result<S, E>)
    requires k < |items|
    ensures Fold(items[..k + 1], init, step) ==
      match Fold(items[..k], init, step)
      case Err(e) => Err(e)
      case Ok(s) => step(s, items[k])
  {
    assert items[..k + 1][..k] == items[..k];
  }

  /** Once a prefix has failed, the whole pass fails with that error. */
  lemma {:induction false} FoldErrorStays<S, X, E>(items: seq<X>, k: nat, init: S, step: (S, X) -> Result<S, E>)
    requires k <= |items| && Fold(items[..k], init, step).Err?
    ensures Fold(items, init, step) == Fold(items[..k], init, step)
    decreases |items| - k
  {
    if k < |items| {
      FoldStep(items, k, init, step);
      FoldErrorStays(items, k + 1, init, step);
    } else {
      assert items[..k] == items;
    }
  }

  /** The first step that fails ends the whole pass with its error. */
  lemma FoldFailsAt<S, X, E>(items: seq<X>, k: nat, init: S, step: (S, X) -> Result<S, E>)
    requires k < |items| && Fold(items[..k], init, step).Ok?
    requires step(Fold(items[..k], init, step).value, items[k]).Err?
    ensures Fold(items, init, step) == step(Fold(items[..k], init, step).value, items[k])
  {
    FoldStep(items, k, init, step);
    FoldErrorStays(items, k + 1, init, step);
  }

  /** A property of the state that every successful step preserves holds after a successful pass. */
  lemma {:induction false} FoldKeeps<S(!new), X(!new), E>(items: seq<X>, init: S, step: (S, X) -> Result<S, E>, inv: S -> bool)
    requires inv(init)
    requires forall s, x :: inv(s) && step(s, x).Ok? ==> inv(step(s, x).value)
    ensures Fold(items, init, step).Ok? ==> inv(Fold(items, init, step).value)
    decreases |items|
  {
    if items != [] {
      var prefix := items[..|items| - 1];
      FoldKeeps(prefix, init, step, inv);
      if Fold(prefix, init, step).Ok? {
        var s := Fold(prefix, init, step).value;
        assert inv(s) && step(s, items[|items| - 1]).Ok? ==> inv(step(s, items[|items| - 1]).value);
      }
    }
  }

  /** The value `o` holds, as a sequence of zero or one elements. */
  function Found<T>(o: Option<T>): seq<T> {
    match o
    case None => []
    case Some(v) => [v]
  }

  /** The values `pick` finds in the items, in item order. */
  function Collect<X, T>(items: seq<X>, pick: X -> Option<T>): seq<T>
    decreases |items|
  {
    if items == [] then []
    else Collect(items[..|items| - 1], pick) + Found(pick(items[|items| - 1]))
  }

  /** A value is collected exactly when some item yields it. */
  lemma {:induction false} CollectMembers<X, T>(items: seq<X>, pick: X -> Option<T>, v: T)
    ensures v in Collect(items, pick) <==> exists j :: 0 <= j < |items| && pick(items[j]) == Some(v)
    decreases |items|
  {
    if items != [] {
      var n := |items|;
      var prefix := items[..n - 1];
      CollectMembers(prefix, pick, v);
      if exists j :: 0 <= j < n && pick(items[j]) == Some(v) {
        var j :| 0 <= j < n && pick(items[j]) == Some(v);
        if j < n - 1 {
          assert pick(prefix[j]) == Some(v);
        }
      }
      if exists j :: 0 <= j < n - 1 && pick(prefix[j]) == Some(v) {
        var j :| 0 <= j < n - 1 && pick(prefix[j]) == Some(v);
        assert items[j] == prefix[j];
      }
    }
  }

  /**
   * A pass whose every successful step adds to `proj` of the state exactly
   * what `pick` finds in the item, started from an empty `proj`, ends with
   * `proj` holding everything `pick` finds in the items.
   */
  lemma {:induction false} FoldCollects<S(!new), X(!new), E, T>(items: seq<X>, init: S, step: (S, X) -> Result<S, E>,
                                                  proj: S -> seq<T>, pick: X -> Option<T>)
    requires proj(init) == []
    requires forall s, x :: step(s, x).Ok? ==> proj(step(s, x).value) == proj(s) + Found(pick(x))
    ensures Fold(items, init, step).Ok? ==> proj(Fold(items, init, step).value) == Collect(items, pick)
    decreases |items|
  {
    if items != [] {
      var prefix := items[..|items| - 1];
      FoldCollects(prefix, init, step, proj, pick);
      if Fold(prefix, init, step).Ok? {
        var s := Fold(prefix, init, step).value;
        var x := items[|items| - 1];
        assert step(s, x).Ok? ==> proj(step(s, x).value) == proj(s) + Found(pick(x));
      }
    }
  }

  /**
   * `f` applied to every item: all the values when no item fails, else the
   * error of the first item that fails.
   */
  function MapAll<X, T, E>(items: seq<X>, f: X -> Result<T, E>): (r: Result<seq<T>, E>)
    ensures r.Ok? ==> |r.value| == |items|
    ensures r.Ok? ==> forall i :: 0 <= i < |items| ==> f(items[i]) == Ok(r.value[i])
    ensures r.Err? ==> exists i :: 0 <= i < |items| && f(items[i]) == Err(r.error) && NoneFailBefore(items, f, i)
    decreases |items|
  {
    if items == [] then Ok([])
    else
      var prefix := items[..|items| - 1];
      assert forall i :: 0 <= i < |prefix| ==> prefix[i] == items[i];
      match MapAll(prefix, f)
      case Err(e) =>
        assert exists i :: 0 <= i < |prefix| && f(items[i]) == Err(e) && NoneFailBefore(items, f, i);
        Err(e)
      case Ok(vs) =>
        match f(items[|items| - 1])
        case Err(e) => Err(e)
        case Ok(v) => Ok(vs + [v])
  }

  /** No item before the `i`-th fails. */
  predicate NoneFailBefore<X, T, E>(items: seq<X>, f: X -> Result<T, E>, i: int)
    requires i <= |items|
  {
    forall k :: 0 <= k < i ==> f(items[k]).Ok?
  }

  /** The pass over the first `k + 1` items continues the pass over the first `k`. */
  lemma MapAllStep<X, T, E>(items: seq<X>, k: nat, f: X -> Result<T, E>)
    requires k < |items|
    ensures MapAll(items[..k + 1], f) ==
      match MapAll(items[..k], f)
      case Err(e) => Err(e)
      case Ok(vs) => (match f(items[k]) case Err(e) => Err(e) case Ok(v) => Ok(vs + [v]))
  {
    assert items[..k + 1][..k] == items[..k];
  }

  /** Once a prefix has failed, the whole pass fails with that error. */
  lemma {:induction false} MapAllErrorStays<X, T, E>(items: seq<X>, k: nat, f: X -> Result<T, E>)
    requires k <= |items| && MapAll(items[..k], f).Err?
    ensures MapAll(items, f) == MapAll(items[..k], f)
    decreases |items| - k
  {
    if k < |items| {
      MapAllStep(items, k, f);
      MapAllErrorStays(items, k + 1, f);
    } else {
      assert items[..k] == items;
    }
  }

  /** The first item that fails ends the whole pass with its error. */
  lemma MapAllFailsAt<X, T, E>(items: seq<X>, k: nat, f: X -> Result<T, E>)
    requires k < |items| && MapAll(items[..k], f).Ok? && f(items[k]).Err?
    ensures MapAll(items, f) == Err(f(items[k]).error)
  {
    MapAllStep(items, k, f);
    MapAllErrorStays(items, k + 1, f);
  }
}

/**
 * Worked examples of the socket-grouping rule, as written and as intended,
 * over the physical ids of a few blocks that carry one id each.
 *
 * The examples take their ids as parameters pinned by `requires` rather
 * than writing the numbers into the sequences: on a literal sequence the
 * verifier unfolds the grouping functions in full, which costs far more than
 * the step-by-step proofs below.
 */
module GroupingExamples {
  import opened Grouping

  /** A block with the single id `x` emits against the counter exactly when `x` differs from it. */
  lemma EmitsOne(x: int, tracker: int)
    ensures Emits([x], tracker) <==> x != tracker
  {
    if x != tracker { assert [x][0] != tracker; }
  }

  /** One more single-id block under the rule as written: it emits when its id is not the counter. */
  lemma StepAsWritten(idss: seq<seq<int>>, x: int, g: seq<nat>)
    requires EmittingBlocks(idss) == g
    ensures x != |g| - 1 ==> EmittingBlocks(idss + [[x]]) == g + [|idss|]
    ensures x == |g| - 1 ==> EmittingBlocks(idss + [[x]]) == g
  {
    EmittingBlocksSnoc(idss, [x]);
    EmitsOne(x, |g| - 1);
  }

  /** One more single-id block under the intended rule: it emits when its id is new. */
  lemma StepDistinct(idss: seq<seq<int>>, x: int, g: seq<nat>, seen: set<int>)
    requires EmittingBlocksDistinct(idss) == g && Seen(idss) == seen
    ensures x !in seen ==> EmittingBlocksDistinct(idss + [[x]]) == g + [|idss|]
    ensures x in seen ==> EmittingBlocksDistinct(idss + [[x]]) == g
    ensures Seen(idss + [[x]]) == seen + {x}
  {
    DistinctSnoc(idss, [x]);
    IntroducesOne(x, seen);
    SeenSnoc(idss, [x]);
    assert Elems([x]) == {x};
  }

  /** A sequence display of two, three or four elements is its prefix with the last one appended. */
  lemma Snoc2<T>(a: T, b: T)
    ensures [a] + [b] == [a, b]
  {
  }

  lemma Snoc3<T>(a: T, b: T, c: T)
    ensures [a, b] + [c] == [a, b, c]
  {
  }

  lemma Snoc4<T>(a: T, b: T, c: T, d: T)
    ensures [a, b, c] + [d] == [a, b, c, d]
  {
  }

  /** Packages 0 and 1, each listed twice in a row: two sockets, from the first and third block. */
  lemma SequentialIds(x: int, y: int)
    requires x == 0 && y == 1
    ensures EmittingBlocks([[x], [x], [y], [y]]) == [0, 2]
  {
    var p1: seq<seq<int>> := [[x]];
    var p2: seq<seq<int>> := [[x], [x]];
    var p3: seq<seq<int>> := [[x], [x], [y]];
    var g1: seq<nat> := [0];
    var g3: seq<nat> := [0, 2];
    Snoc2([x], [x]);
    Snoc3([x], [x], [y]);
    Snoc4([x], [x], [y], [y]);
    Snoc2(0, 2);
    StepAsWritten([], x, []);
    assert [] + [[x]] == p1;
    StepAsWritten(p1, x, g1);
    StepAsWritten(p2, y, g1);
    StepAsWritten(p3, y, g3);
  }

  /** Package 0 listed twice: one socket. */
  lemma SharedId(x: int)
    requires x == 0
    ensures EmittingBlocks([[x], [x]]) == [0]
  {
    var p1: seq<seq<int>> := [[x]];
    var g1: seq<nat> := [0];
    Snoc2([x], [x]);
    StepAsWritten([], x, []);
    assert [] + [[x]] == p1;
    StepAsWritten(p1, x, g1);
  }

  /**
   * Packages 0 and 1 interleaved (ids 0,1,0,1): the rule as written emits
   * four sockets, because each id is compared with the emission counter and
   * not with the ids seen so far.
   */
  lemma InterleavedIds(x: int, y: int)
    requires x == 0 && y == 1
    ensures EmittingBlocks([[x], [y], [x], [y]]) == [0, 1, 2, 3]
  {
    var p1: seq<seq<int>> := [[x]];
    var p2: seq<seq<int>> := [[x], [y]];
    var p3: seq<seq<int>> := [[x], [y], [x]];
    var g1: seq<nat> := [0];
    var g2: seq<nat> := [0, 1];
    var g3: seq<nat> := [0, 1, 2];
    Snoc2([x], [y]);
    Snoc3([x], [y], [x]);
    Snoc4([x], [y], [x], [y]);
    Snoc2(0, 1);
    Snoc3(0, 1, 2);
    Snoc4(0, 1, 2, 3);
    StepAsWritten([], x, []);
    assert [] + [[x]] == p1;
    StepAsWritten(p1, y, g1);
    StepAsWritten(p2, x, g2);
    StepAsWritten(p3, y, g3);
  }

  /** The same interleaved ids under the intended rule: two sockets, from the first two blocks. */
  lemma InterleavedIdsDistinct(x: int, y: int)
    requires x == 0 && y == 1
    ensures EmittingBlocksDistinct([[x], [y], [x], [y]]) == [0, 1]
  {
    var p1: seq<seq<int>> := [[x]];
    var p2: seq<seq<int>> := [[x], [y]];
    var p3: seq<seq<int>> := [[x], [y], [x]];
    var g1: seq<nat> := [0];
    var g2: seq<nat> := [0, 1];
    var s0: set<int> := {};
    var s1 := s0 + {x};
    var s2 := s1 + {y};
    var s3 := s2 + {x};
    assert x !in s0 && y !in s1 && x in s2 && y in s3;
    Snoc2([x], [y]);
    Snoc3([x], [y], [x]);
    Snoc4([x], [y], [x], [y]);
    Snoc2(0, 1);
    StepDistinct([], x, [], s0);
    assert [] + [[x]] == p1;
    StepDistinct(p1, y, g1, s1);
    StepDistinct(p2, x, g2, s2);
    StepDistinct(p3, y, g2, s3);
  }

  /**
   * A lone package whose id is neither 0 nor -1, listed twice: two sockets
   * as written (the second block's id differs from the counter, now 0), one
   * intended.
   */
  lemma LonePackageNotZero(x: int)
    requires x != 0 && x != -1
    ensures EmittingBlocks([[x], [x]]) == [0, 1]
    ensures EmittingBlocksDistinct([[x], [x]]) == [0]
  {
    var p1: seq<seq<int>> := [[x]];
    var g1: seq<nat> := [0];
    Snoc2([x], [x]);
    Snoc2(0, 1);
    StepAsWritten([], x, []);
    assert [] + [[x]] == p1;
    StepAsWritten(p1, x, g1);
    var s0: set<int> := {};
    var s1 := s0 + {x};
    assert x !in s0 && x in s1;
    StepDistinct([], x, [], s0);
    StepDistinct(p1, x, g1, s1);
  }
}

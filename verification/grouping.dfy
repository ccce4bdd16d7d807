/**
 * The rule that decides which `/proc/cpuinfo` blocks become sockets, stated
 * over what matters to it: the `physical id` values each block carries, in
 * block order.
 *
 * As written, the parser keeps one counter, `physical_id`, that starts at -1
 * and is incremented only when a socket is emitted, so it always holds the id
 * of the last emitted socket (or -1). A block emits when one of its
 * `physical id` values differs from that counter. `EmittingBlocks` is that
 * rule. `EmittingBlocksDistinct` is the rule evidently intended (one socket
 * per distinct package id, in first-appearance order); the two agree on the
 * ids a kernel usually prints for non-interleaved packages numbered from 0,
 * and can differ otherwise: ids 0, 1, 0, 1 (interleaved) or 5, 5 (a lone
 * package not numbered 0) give four and two sockets as written, two and one
 * as intended. Ids 0, 2 give the same blocks under both.
 */
module Grouping {

  /** A block with physical ids `ids` emits against `tracker` when one of them differs from it. */
  predicate Emits(ids: seq<int>, tracker: int) {
    exists i :: 0 <= i < |ids| && ids[i] != tracker
  }

  /**
   * The indices of the blocks that emit a socket, in order. The socket
   * emitted by block `g[j]` gets id `j`, so before a block the counter is
   * the number of sockets emitted so far, minus one.
   */
  function EmittingBlocks(idss: seq<seq<int>>): (g: seq<nat>)
    ensures forall j :: 0 <= j < |g| ==> g[j] < |idss|
    ensures forall j, k :: 0 <= j < k < |g| ==> g[j] < g[k]
    ensures |g| <= |idss|
    decreases |idss|
  {
    if idss == [] then []
    else
      var g := EmittingBlocks(idss[..|idss| - 1]);
      if Emits(idss[|idss| - 1], |g| - 1) then g + [|idss| - 1] else g
  }

  /**
   * The sockets emitted before block `i` are exactly the first ones emitted
   * overall: `EmittingBlocks` of a prefix is a prefix of `EmittingBlocks`.
   */
  lemma {:induction false} EmittingBlocksPrefix(idss: seq<seq<int>>, i: nat)
    requires i <= |idss|
    ensures var g := EmittingBlocks(idss);
      var h := EmittingBlocks(idss[..i]);
      |h| <= |g| && h == g[..|h|] && (forall j :: |h| <= j < |g| ==> g[j] >= i)
    decreases |idss| - i
  {
    if i < |idss| {
      var n := |idss|;
      EmittingBlocksPrefix(idss[..n - 1], i);
      assert idss[..n - 1][..i] == idss[..i];
    } else {
      assert idss[..i] == idss;
    }
  }

  /**
   * When a block emits: block `i` emits exactly when one of its physical
   * ids differs from the id of the last socket emitted before it, or from
   * -1 when none was.
   */
  lemma {:induction false} EmitsWhen(idss: seq<seq<int>>, i: nat)
    requires i < |idss|
    ensures i in EmittingBlocks(idss) <==> Emits(idss[i], |EmittingBlocks(idss[..i])| - 1)
  {
    EmittingBlocksPrefix(idss, i);
    EmittingBlocksPrefix(idss, i + 1);
    var g := EmittingBlocks(idss);
    var h := EmittingBlocks(idss[..i]);
    var h' := EmittingBlocks(idss[..i + 1]);
    assert idss[..i + 1][..i] == idss[..i];
    assert idss[..i + 1][i] == idss[i];
    assert h' == if Emits(idss[i], |h| - 1) then h + [i] else h;
    if i in g {
      var j :| 0 <= j < |g| && g[j] == i;
      if j >= |h'| {
        assert g[j] >= i + 1;
      }
    }
    if Emits(idss[i], |h| - 1) {
      assert h'[|h|] == i && g[|h|] == i;
    }
  }

  /** A block without any physical id never emits. */
  lemma NoPhysicalIdNoSocket(idss: seq<seq<int>>, i: nat)
    requires i < |idss| && idss[i] == []
    ensures i !in EmittingBlocks(idss)
  {
    EmitsWhen(idss, i);
  }

  // ---------------------------------------------------------------------------
  // Packages numbered 0, 1, 2, ... and listed without interleaving

  /** Every block carries exactly one physical id. */
  predicate OnePhysicalIdEach(idss: seq<seq<int>>) {
    forall i :: 0 <= i < |idss| ==> |idss[i]| == 1
  }

  /**
   * The ids start at 0 and each block repeats its predecessor's id or takes
   * the next one: packages in order, not interleaved.
   */
  predicate Contiguous(idss: seq<seq<int>>) {
    OnePhysicalIdEach(idss) &&
    (|idss| > 0 ==> idss[0][0] == 0) &&
    forall i :: 0 < i < |idss| ==> idss[i][0] == idss[i - 1][0] || idss[i][0] == idss[i - 1][0] + 1
  }

  /**
   * On contiguous ids the rule gives one socket per package: a block emits
   * exactly when its id differs from the previous block's, and the number of
   * sockets is the last id plus one.
   */
  lemma {:induction false} ContiguousGrouping(idss: seq<seq<int>>)
    requires Contiguous(idss) && |idss| > 0
    ensures |EmittingBlocks(idss)| == idss[|idss| - 1][0] + 1
    ensures EmitsAtChanges(idss)
    decreases |idss|
  {
    var n := |idss|;
    if n == 1 {
      assert idss[..0] == [];
      assert Emits(idss[0], -1) by { assert idss[0][0] != -1; }
      assert EmittingBlocks(idss) == [0];
    } else {
      ContiguousPrefix(idss);
      ContiguousGrouping(idss[..n - 1]);
      ContiguousGroupingStep(idss);
    }
  }

  /** Every block emits exactly when it is the first or its id differs from the previous block's. */
  predicate EmitsAtChanges(idss: seq<seq<int>>)
    requires OnePhysicalIdEach(idss)
  {
    forall i | 0 <= i < |idss| :: EmitsAtChange(idss, i)
  }

  /** Block `i` emits exactly when it is the first or its id differs from the previous block's. */
  predicate EmitsAtChange(idss: seq<seq<int>>, i: int)
    requires OnePhysicalIdEach(idss) && 0 <= i < |idss|
  {
    i in EmittingBlocks(idss) <==> i == 0 || idss[i][0] != idss[i - 1][0]
  }

  /** A contiguous sequence of blocks is its contiguous prefix plus a last block one id long. */
  lemma ContiguousPrefix(idss: seq<seq<int>>)
    requires Contiguous(idss) && |idss| > 1
    ensures Contiguous(idss[..|idss| - 1])
    ensures idss == idss[..|idss| - 1] + [idss[|idss| - 1]]
    ensures idss[|idss| - 1] == [idss[|idss| - 1][0]]
    ensures var u := idss[|idss| - 2][0]; idss[|idss| - 1][0] == u || idss[|idss| - 1][0] == u + 1
  {
    var p := idss[..|idss| - 1];
    assert forall i :: 0 <= i < |p| ==> p[i] == idss[i];
  }

  /** The step of `ContiguousGrouping`: the last block, whose id repeats or follows the one before. */
  lemma ContiguousGroupingStep(idss: seq<seq<int>>)
    requires Contiguous(idss) && |idss| > 1
    requires var p := idss[..|idss| - 1];
      OnePhysicalIdEach(p) && |EmittingBlocks(p)| == p[|p| - 1][0] + 1 && EmitsAtChanges(p)
    ensures |EmittingBlocks(idss)| == idss[|idss| - 1][0] + 1
    ensures EmitsAtChanges(idss)
  {
    var n := |idss|;
    var p := idss[..n - 1];
    var last := idss[n - 1];
    var h := EmittingBlocks(p);
    var g := EmittingBlocks(idss);
    assert idss == p + [last];
    EmittingBlocksSnoc(p, last);
    assert last == [last[0]];
    assert Emits(last, |h| - 1) <==> last[0] != idss[n - 2][0] by {
      if last[0] != idss[n - 2][0] { assert last[0] != |h| - 1; }
    }
    forall i | 0 <= i < n
      ensures EmitsAtChange(idss, i)
    {
      if i < n - 1 {
        assert p[i] == idss[i];
        assert i > 0 ==> p[i - 1] == idss[i - 1];
        assert EmitsAtChange(p, i);
        assert i in g <==> i in h;
      } else {
        assert n - 1 !in h;
      }
    }
  }

  // ---------------------------------------------------------------------------
  // The evidently intended rule: one socket per distinct physical id

  /** Every physical id carried by some block. */
  function Seen(idss: seq<seq<int>>): set<int>
    decreases |idss|
  {
    if idss == [] then {}
    else Seen(idss[..|idss| - 1]) + Elems(idss[|idss| - 1])
  }

  function Elems(ids: seq<int>): set<int> {
    set v | v in ids
  }

  /** A block with physical ids `ids` is new when one of them is not in `seen`. */
  predicate Introduces(ids: seq<int>, seen: set<int>) {
    exists i :: 0 <= i < |ids| && ids[i] !in seen
  }

  lemma IntroducesOne(x: int, seen: set<int>)
    ensures Introduces([x], seen) <==> x !in seen
  {
    if x !in seen { assert [x][0] !in seen; }
  }

  /** A block emits when it carries a physical id no earlier block carried. */
  function EmittingBlocksDistinct(idss: seq<seq<int>>): (g: seq<nat>)
    ensures forall j :: 0 <= j < |g| ==> g[j] < |idss|
    ensures forall j, k :: 0 <= j < k < |g| ==> g[j] < g[k]
    decreases |idss|
  {
    if idss == [] then []
    else
      var p := idss[..|idss| - 1];
      var g := EmittingBlocksDistinct(p);
      if Introduces(idss[|idss| - 1], Seen(p)) then g + [|idss| - 1] else g
  }

  lemma SeenSnoc(idss: seq<seq<int>>, ids: seq<int>)
    ensures Seen(idss + [ids]) == Seen(idss) + Elems(ids)
  {
    assert (idss + [ids])[..|idss|] == idss;
  }

  lemma DistinctSnoc(idss: seq<seq<int>>, ids: seq<int>)
    ensures EmittingBlocksDistinct(idss + [ids]) ==
      if Introduces(ids, Seen(idss)) then EmittingBlocksDistinct(idss) + [|idss|]
      else EmittingBlocksDistinct(idss)
  {
    assert (idss + [ids])[..|idss|] == idss;
  }

  /**
   * With at most one physical id per block, the intended rule emits exactly
   * one socket per distinct id.
   */
  lemma {:induction false} DistinctCount(idss: seq<seq<int>>)
    requires forall i :: 0 <= i < |idss| ==> |idss[i]| <= 1
    ensures |EmittingBlocksDistinct(idss)| == |Seen(idss)|
    decreases |idss|
  {
    if idss != [] {
      var n := |idss|;
      var p := idss[..n - 1];
      var ids := idss[n - 1];
      assert idss == p + [ids];
      DistinctCount(p);
      SeenSnoc(p, ids);
      DistinctSnoc(p, ids);
      if |ids| == 0 {
        assert Elems(ids) == {};
        assert !Introduces(ids, Seen(p));
      } else {
        var x := ids[0];
        assert ids == [x];
        assert Elems(ids) == {x};
        IntroducesOne(x, Seen(p));
        if x in Seen(p) {
          assert Seen(p) + {x} == Seen(p);
        } else {
          assert |Seen(p) + {x}| == |Seen(p)| + 1;
        }
      }
    }
  }

  /**
   * Under the intended rule, a block with one physical id emits exactly when
   * that id has not appeared in any earlier block (first appearance).
   */
  lemma DistinctFirstAppearance(idss: seq<seq<int>>, i: nat)
    requires i < |idss| && |idss[i]| == 1
    ensures i in EmittingBlocksDistinct(idss) <==> idss[i][0] !in Seen(idss[..i])
  {
    DistinctPrefix(idss, i);
    DistinctPrefix(idss, i + 1);
    var g := EmittingBlocksDistinct(idss);
    var h := EmittingBlocksDistinct(idss[..i]);
    var h' := EmittingBlocksDistinct(idss[..i + 1]);
    var p := idss[..i];
    var ids := idss[i];
    var x := ids[0];
    assert idss[..i + 1] == p + [ids];
    DistinctSnoc(p, ids);
    assert ids == [x];
    var isNew := x !in Seen(p);
    IntroducesOne(x, Seen(p));
    assert h' == if isNew then h + [i] else h;
    if i in g {
      var j :| 0 <= j < |g| && g[j] == i;
      if j >= |h'| {
        assert g[j] >= i + 1;
      }
    }
    if isNew {
      assert h'[|h|] == i && g[|h|] == i;
    }
  }

  lemma {:induction false} DistinctPrefix(idss: seq<seq<int>>, i: nat)
    requires i <= |idss|
    ensures var g := EmittingBlocksDistinct(idss);
      var h := EmittingBlocksDistinct(idss[..i]);
      |h| <= |g| && h == g[..|h|] && (forall j :: |h| <= j < |g| ==> g[j] >= i)
    decreases |idss| - i
  {
    if i < |idss| {
      var n := |idss|;
      DistinctPrefix(idss[..n - 1], i);
      assert idss[..n - 1][..i] == idss[..i];
    } else {
      assert idss[..i] == idss;
    }
  }

  /** On contiguous ids, the ids seen are exactly 0 up to the last block's id. */
  lemma {:induction false} ContiguousSeen(idss: seq<seq<int>>)
    requires Contiguous(idss) && |idss| > 0
    ensures idss[|idss| - 1][0] >= 0
    ensures forall k :: k in Seen(idss) <==> 0 <= k <= idss[|idss| - 1][0]
    decreases |idss|
  {
    var n := |idss|;
    if n == 1 {
      var v := idss[0][0];
      assert idss == [] + [[v]] by { assert idss[0] == [v]; }
      SeenSnoc([], [v]);
      assert Elems([v]) == {v};
    } else {
      var p := idss[..n - 1];
      ContiguousPrefix(idss);
      ContiguousSeen(p);
      ContiguousSeenStep(p, idss[n - 1][0]);
    }
  }

  /** The step of `ContiguousSeen`: one more id, repeating or following the last one. */
  lemma ContiguousSeenStep(p: seq<seq<int>>, v: int)
    requires |p| > 0 && |p[|p| - 1]| > 0 && p[|p| - 1][0] >= 0
    requires v == p[|p| - 1][0] || v == p[|p| - 1][0] + 1
    requires forall k :: k in Seen(p) <==> 0 <= k <= p[|p| - 1][0]
    ensures forall k :: k in Seen(p + [[v]]) <==> 0 <= k <= v
  {
    SeenSnoc(p, [v]);
    assert Elems([v]) == {v};
  }

  /**
   * On contiguous ids the intended rule and the rule as written pick the
   * same blocks: correcting the rule changes nothing where the source works.
   */
  lemma {:induction false} RulesAgreeOnContiguous(idss: seq<seq<int>>)
    requires Contiguous(idss)
    ensures EmittingBlocksDistinct(idss) == EmittingBlocks(idss)
    decreases |idss|
  {
    var n := |idss|;
    if n > 0 {
      var p := idss[..n - 1];
      var v := idss[n - 1][0];
      assert idss == p + [[v]] by { assert idss[n - 1] == [v]; }
      assert Contiguous(p) by { assert forall i :: 0 <= i < n - 1 ==> p[i] == idss[i]; }
      RulesAgreeOnContiguous(p);
      assert Introduces([v], Seen(p)) <==> Emits([v], |EmittingBlocks(p)| - 1) by {
        if n == 1 {
          assert p == [];
          IntroducesOne(v, {});
          assert Emits([v], -1) by { assert [v][0] != -1; }
        } else {
          assert p[n - 2][0] == idss[n - 2][0];
          NextBlockAgrees(p, v);
        }
      }
      DistinctSnoc(p, [v]);
      EmittingBlocksSnoc(p, [v]);
    }
  }

  /** The step of `RulesAgreeOnContiguous`: both rules judge a next contiguous block alike. */
  lemma NextBlockAgrees(p: seq<seq<int>>, v: int)
    requires Contiguous(p) && |p| > 0
    requires v == p[|p| - 1][0] || v == p[|p| - 1][0] + 1
    ensures Introduces([v], Seen(p)) <==> Emits([v], |EmittingBlocks(p)| - 1)
  {
    var u := p[|p| - 1][0];
    ContiguousGrouping(p);
    ContiguousSeen(p);
    IntroducesOne(v, Seen(p));
    assert Introduces([v], Seen(p)) <==> v != u;
    assert Emits([v], u) <==> v != u by {
      if v != u { assert [v][0] != u; }
    }
  }

  /** One more block: it emits against the count of sockets so far. */
  lemma EmittingBlocksSnoc(idss: seq<seq<int>>, ids: seq<int>)
    ensures EmittingBlocks(idss + [ids]) ==
      if Emits(ids, |EmittingBlocks(idss)| - 1) then EmittingBlocks(idss) + [|idss|]
      else EmittingBlocks(idss)
  {
    assert (idss + [ids])[..|idss|] == idss;
  }

}

/**
 * `findBlockByTimestamp` (script.js:151-195): a binary search over block
 * heights for the block whose time is nearest a target time.
 *
 * At most `MaxIterations` heights are probed. The search keeps the
 * best block seen so far, returns at once on a probe within `Tolerance`
 * seconds of the target, moves left of a block newer than the target and
 * right of any other, and gives up, keeping its best block, when a fetch
 * fails.
 */
module Locator {
  import opened Wrappers
  import opened Chain

  const MaxIterations: nat := 20

  /** Five minutes: a probe this close to the target ends the search. */
  const Tolerance: nat := 300

  /** One fetched probe: the height asked for and the block the indexer returned. */
  datatype Probe = Probe(height: int, block: Block)

  /** The distance of a probe from the target time. */
  function Gap(p: Probe, target: int): nat {
    Diff(p.block.time, target)
  }

  /** The height probed in `[left, right]`: `Math.floor((left + right) / 2)`. */
  function Mid(left: int, right: int): int {
    (left + right) / 2
  }

  /** A probe this close to the target ends the search. */
  predicate IsHit(b: Block, target: int) {
    Diff(b.time, target) < Tolerance
  }

  /** The lower end of the range after probing `mid`: unchanged when the block is newer than the target. */
  function NextLeft(left: int, mid: int, b: Block, target: int): int {
    if b.time > target then left else mid + 1
  }

  /** The upper end of the range after probing `mid`: below `mid` when the block is newer than the target. */
  function NextRight(right: int, mid: int, b: Block, target: int): int {
    if b.time > target then mid - 1 else right
  }

  /**
   * The probes the search fetches, in order, starting from `[left, right]`
   * with `fuel` iterations left; a failed fetch ends the list.
   */
  function Trace(ix: Indexer, target: int, left: int, right: int, fuel: nat): seq<Probe>
    decreases fuel
  {
    if fuel == 0 || left > right then []
    else
      var mid := Mid(left, right);
      match ix.BlockAt(mid)
      case Err(_) => []
      case Ok(b) =>
        [Probe(mid, b)] +
          if IsHit(b, target) then []
          else Trace(ix, target, NextLeft(left, mid, b, target), NextRight(right, mid, b, target), fuel - 1)
  }

  /** The best block after a probe that fetched `b`: replaced only by a strictly closer block. */
  function Improve(best: Option<Block>, b: Block, target: int): Option<Block>
  {
    if best.None? || Diff(b.time, target) < Diff(best.value.time, target) then Some(b) else best
  }

  /**
   * The running best of the search over `probes`: a probe replaces the
   * best block only when it is strictly closer, so ties keep the earlier block.
   */
  function Best(probes: seq<Probe>, target: int): Option<Block>
  {
    if probes == [] then None
    else Improve(Best(probes[..|probes| - 1], target), probes[|probes| - 1].block, target)
  }

  lemma BestSnoc(probes: seq<Probe>, p: Probe, target: int)
    ensures Best(probes + [p], target) == Improve(Best(probes, target), p.block, target)
  {
    assert (probes + [p])[..|probes|] == probes;
  }

  /** What the search returns: the best block among the probes it makes. */
  function Locate(ix: Indexer, target: int, left: int, right: int): Option<Block>
  {
    Best(Trace(ix, target, left, right, MaxIterations), target)
  }

  /**
   * The search as a state machine: the range still open, the iterations
   * left and the best block so far, giving the block the search returns.
   */
  function Search(ix: Indexer, target: int, left: int, right: int, fuel: nat, best: Option<Block>): Option<Block>
    decreases fuel
  {
    if fuel == 0 || left > right then best
    else
      var mid := Mid(left, right);
      match ix.BlockAt(mid)
      case Err(_) => best
      case Ok(b) =>
        if IsHit(b, target) then Some(b)
        else Search(ix, target, NextLeft(left, mid, b, target), NextRight(right, mid, b, target), fuel - 1,
                    Improve(best, b, target))
  }

  /**
   * Running the search from a state whose best block is the best of the
   * probes made so far returns the best of all its probes.
   */
  lemma {:induction false} SearchFollowsTrace(ix: Indexer, target: int, left: int, right: int, fuel: nat, probes: seq<Probe>)
    requires Best(probes, target).Some? ==> Diff(Best(probes, target).value.time, target) >= Tolerance
    ensures Search(ix, target, left, right, fuel, Best(probes, target))
         == Best(probes + Trace(ix, target, left, right, fuel), target)
    decreases fuel
  {
    if fuel == 0 || left > right || ix.BlockAt(Mid(left, right)).Err? {
      assert probes + [] == probes;
    } else {
      var mid := Mid(left, right);
      var b := ix.BlockAt(mid).value;
      var p := Probe(mid, b);
      BestSnoc(probes, p, target);
      if !IsHit(b, target) {
        var rest := Trace(ix, target, NextLeft(left, mid, b, target), NextRight(right, mid, b, target), fuel - 1);
        assert probes + ([p] + rest) == (probes + [p]) + rest;
        SearchFollowsTrace(ix, target, NextLeft(left, mid, b, target), NextRight(right, mid, b, target), fuel - 1, probes + [p]);
      } else {
        assert Trace(ix, target, left, right, fuel) == [p];
      }
    }
  }

  /** The state machine started with no best block computes `Locate`. */
  lemma SearchIsLocate(ix: Indexer, target: int, left: int, right: int)
    ensures Search(ix, target, left, right, MaxIterations, None) == Locate(ix, target, left, right)
  {
    SearchFollowsTrace(ix, target, left, right, MaxIterations, []);
    assert [] + Trace(ix, target, left, right, MaxIterations) == Trace(ix, target, left, right, MaxIterations);
  }

  // ---------------------------------------------------------------------------
  // Properties of the probes
  // ---------------------------------------------------------------------------

  /** The search makes at most `fuel` probes, each at a height of the range it was given. */
  lemma {:induction false} TraceBounds(ix: Indexer, target: int, left: int, right: int, fuel: nat)
    ensures |Trace(ix, target, left, right, fuel)| <= fuel
    ensures forall k :: 0 <= k < |Trace(ix, target, left, right, fuel)| ==> left <= Trace(ix, target, left, right, fuel)[k].height <= right
    decreases fuel
  {
    if fuel > 0 && left <= right && ix.BlockAt(Mid(left, right)).Ok? {
      var mid := Mid(left, right);
      var b := ix.BlockAt(mid).value;
      if !IsHit(b, target) {
        TraceBounds(ix, target, NextLeft(left, mid, b, target), NextRight(right, mid, b, target), fuel - 1);
      }
    }
  }

  /**
   * Each probe narrows the range strictly: every later probe lies below a
   * block newer than the target and above any other block.
   */
  lemma {:induction false} TraceNarrows(ix: Indexer, target: int, left: int, right: int, fuel: nat)
    ensures forall i, j :: 0 <= i < j < |Trace(ix, target, left, right, fuel)| ==>
      if Trace(ix, target, left, right, fuel)[i].block.time > target then Trace(ix, target, left, right, fuel)[j].height < Trace(ix, target, left, right, fuel)[i].height
      else Trace(ix, target, left, right, fuel)[j].height > Trace(ix, target, left, right, fuel)[i].height
    decreases fuel
  {
    var t := Trace(ix, target, left, right, fuel);
    if fuel > 0 && left <= right && ix.BlockAt(Mid(left, right)).Ok? {
      var mid := Mid(left, right);
      var b := ix.BlockAt(mid).value;
      if !IsHit(b, target) {
        var l, r := NextLeft(left, mid, b, target), NextRight(right, mid, b, target);
        var rest := Trace(ix, target, l, r, fuel - 1);
        TraceNarrows(ix, target, l, r, fuel - 1);
        TraceBounds(ix, target, l, r, fuel - 1);
        assert t == [Probe(mid, b)] + rest;
        forall i, j | 0 <= i < j < |t|
          ensures if t[i].block.time > target then t[j].height < t[i].height else t[j].height > t[i].height
        {
          assert t[j] == rest[j - 1];
          if i > 0 {
            assert t[i] == rest[i - 1];
          }
        }
      }
    }
  }

  /** No height is probed twice. */
  lemma TraceHeightsDistinct(ix: Indexer, target: int, left: int, right: int, fuel: nat)
    ensures forall i, j :: 0 <= i < j < |Trace(ix, target, left, right, fuel)| ==> Trace(ix, target, left, right, fuel)[i].height != Trace(ix, target, left, right, fuel)[j].height
  {
    TraceNarrows(ix, target, left, right, fuel);
  }

  /** Only the last probe can be within the tolerance: a hit ends the search. */
  lemma {:induction false} TraceHitIsLast(ix: Indexer, target: int, left: int, right: int, fuel: nat)
    ensures forall k :: 0 <= k < |Trace(ix, target, left, right, fuel)| - 1 ==>
      !IsHit(Trace(ix, target, left, right, fuel)[k].block, target)
    decreases fuel
  {
    var t := Trace(ix, target, left, right, fuel);
    if fuel > 0 && left <= right && ix.BlockAt(Mid(left, right)).Ok? {
      var mid := Mid(left, right);
      var b := ix.BlockAt(mid).value;
      if !IsHit(b, target) {
        var l, r := NextLeft(left, mid, b, target), NextRight(right, mid, b, target);
        var rest := Trace(ix, target, l, r, fuel - 1);
        TraceHitIsLast(ix, target, l, r, fuel - 1);
        assert t == [Probe(mid, b)] + rest;
        forall k | 0 < k < |t| - 1 ensures !IsHit(t[k].block, target) {
          assert t[k] == rest[k - 1];
        }
      }
    }
  }

  /** `i` is the earliest of the probes whose distance to the target is smallest. */
  ghost predicate IsEarliestClosest(probes: seq<Probe>, target: int, i: int) {
    && 0 <= i < |probes|
    && (forall k :: 0 <= k < |probes| ==> Gap(probes[i], target) <= Gap(probes[k], target))
    && (forall k :: 0 <= k < i ==> Gap(probes[k], target) > Gap(probes[i], target))
  }

  /**
   * The running best is empty exactly when nothing was fetched, and is
   * otherwise the block of the earliest probe of minimal distance.
   */
  lemma {:induction false} BestIsEarliestClosest(probes: seq<Probe>, target: int) returns (i: int)
    ensures Best(probes, target).None? <==> probes == []
    ensures probes != [] ==> IsEarliestClosest(probes, target, i) && Best(probes, target) == Some(probes[i].block)
  {
    if probes == [] {
      return 0;
    }
    var n := |probes| - 1;
    var front := probes[..n];
    var last := probes[n];
    if front == [] {
      return 0;
    }
    var j := BestIsEarliestClosest(front, target);
    assert forall k :: 0 <= k < n ==> front[k] == probes[k];
    if Gap(last, target) < Gap(front[j], target) {
      i := n;
    } else {
      i := j;
    }
  }

  /** When the last probe is a hit, the search returns its block. */
  lemma TraceHitIsReturned(ix: Indexer, target: int, left: int, right: int, fuel: nat)
    requires var t := Trace(ix, target, left, right, fuel); t != [] && IsHit(t[|t| - 1].block, target)
    ensures var t := Trace(ix, target, left, right, fuel); Best(t, target) == Some(t[|t| - 1].block)
  {
    var t := Trace(ix, target, left, right, fuel);
    var n := |t| - 1;
    TraceHitIsLast(ix, target, left, right, fuel);
    var front := t[..n];
    assert t == front + [t[n]];
    BestSnoc(front, t[n], target);
    if front != [] {
      var j := BestIsEarliestClosest(front, target);
      assert front[j] == t[j];
    }
  }

  function Pow2(n: nat): nat {
    if n == 0 then 1 else 2 * Pow2(n - 1)
  }

  /** Every height of `[left, right]` can be fetched. */
  ghost predicate Fetchable(ix: Indexer, left: int, right: int) {
    forall h :: left <= h <= right ==> ix.BlockAt(h).Ok?
  }

  /** Block times do not decrease with height over `[left, right]`. */
  ghost predicate TimesIncrease(ix: Indexer, left: int, right: int) {
    forall h1, h2 :: left <= h1 <= h2 <= right && ix.BlockAt(h1).Ok? && ix.BlockAt(h2).Ok? ==>
      ix.BlockAt(h1).value.time <= ix.BlockAt(h2).value.time
  }

  /**
   * On a chain whose times grow with height, a range of fewer than
   * `2^fuel` heights that holds a block within the tolerance always ends
   * in a hit: the halving never loses that block.
   */
  lemma {:induction false} SearchFindsNearbyBlock(ix: Indexer, target: int, left: int, right: int, fuel: nat, h0: int)
    requires left <= h0 <= right && Fetchable(ix, left, right) && TimesIncrease(ix, left, right)
    requires IsHit(ix.BlockAt(h0).value, target)
    requires right - left + 1 < Pow2(fuel)
    ensures var t := Trace(ix, target, left, right, fuel); t != [] && IsHit(t[|t| - 1].block, target)
    decreases fuel
  {
    var mid := Mid(left, right);
    assert left <= mid <= right;
    var b := ix.BlockAt(mid).value;
    var b0 := ix.BlockAt(h0).value;
    var t := Trace(ix, target, left, right, fuel);
    if !IsHit(b, target) {
      var l, r := NextLeft(left, mid, b, target), NextRight(right, mid, b, target);
      var rest := Trace(ix, target, l, r, fuel - 1);
      assert t == [Probe(mid, b)] + rest;
      if b.time > target {
        assert mid <= h0 ==> b.time <= b0.time;
        assert l == left && r == mid - 1;
      } else {
        assert h0 <= mid ==> b0.time <= b.time;
        assert l == mid + 1 && r == right;
      }
      assert l <= h0 <= r;
      assert r - l + 1 < Pow2(fuel - 1);
      SearchFindsNearbyBlock(ix, target, l, r, fuel - 1, h0);
      assert t[|t| - 1] == rest[|rest| - 1];
    }
  }

  /**
   * With fewer than 2^20 heights to search, all of them fetchable and
   * their times growing with height, a block within five minutes of the
   * target is always found when one exists.
   */
  lemma LocateFindsNearbyBlock(ix: Indexer, target: int, left: int, right: int, h0: int)
    requires left <= h0 <= right && Fetchable(ix, left, right) && TimesIncrease(ix, left, right)
    requires IsHit(ix.BlockAt(h0).value, target)
    requires right - left + 1 < Pow2(MaxIterations)
    ensures Locate(ix, target, left, right).Some? && IsHit(Locate(ix, target, left, right).value, target)
  {
    SearchFindsNearbyBlock(ix, target, left, right, MaxIterations, h0);
    TraceHitIsReturned(ix, target, left, right, MaxIterations);
  }

  /** When heights answer with their own block, the located block lies in the searched range. */
  lemma LocateWithinRange(ix: Indexer, target: int, left: int, right: int)
    requires ix.HeightsAgree()
    ensures var r := Locate(ix, target, left, right); r.Some? ==> left <= r.value.height <= right
  {
    var t := Trace(ix, target, left, right, MaxIterations);
    TraceBounds(ix, target, left, right, MaxIterations);
    TraceProbesFetched(ix, target, left, right, MaxIterations);
    if t != [] {
      var i := BestIsEarliestClosest(t, target);
      assert ix.BlockAt(t[i].height) == Ok(t[i].block);
    }
  }

  /** Each probe holds the block the indexer returns for its height. */
  lemma {:induction false} TraceProbesFetched(ix: Indexer, target: int, left: int, right: int, fuel: nat)
    ensures forall k :: 0 <= k < |Trace(ix, target, left, right, fuel)| ==> ix.BlockAt(Trace(ix, target, left, right, fuel)[k].height) == Ok(Trace(ix, target, left, right, fuel)[k].block)
    decreases fuel
  {
    var t := Trace(ix, target, left, right, fuel);
    if fuel > 0 && left <= right && ix.BlockAt(Mid(left, right)).Ok? {
      var mid := Mid(left, right);
      var b := ix.BlockAt(mid).value;
      if !IsHit(b, target) {
        var l, r := NextLeft(left, mid, b, target), NextRight(right, mid, b, target);
        var rest := Trace(ix, target, l, r, fuel - 1);
        TraceProbesFetched(ix, target, l, r, fuel - 1);
        assert t == [Probe(mid, b)] + rest;
        forall k | 0 < k < |t| ensures ix.BlockAt(t[k].height) == Ok(t[k].block) {
          assert t[k] == rest[k - 1];
        }
      }
    }
  }

  /** `findBlockByTimestamp(baseUrl, target, {height: left}, {height: right})`. */
  method FindBlockByTimestamp(ix: Indexer, target: int, left0: int, right0: int) returns (found: Option<Block>)
    ensures found == Locate(ix, target, left0, right0)
  {
    SearchIsLocate(ix, target, left0, right0);
    var left, right := left0, right0;
    var bestBlock: Option<Block> := None;
    var i := 0;
    while i < MaxIterations && left <= right
      invariant 0 <= i <= MaxIterations
      invariant Search(ix, target, left0, right0, MaxIterations, None)
             == Search(ix, target, left, right, MaxIterations - i, bestBlock)
    {
      var mid := (left + right) / 2;
      var fetched := ix.BlockAt(mid);
      if fetched.Err? {
        break;
      }
      var block := fetched.value;
      var diff := Diff(block.time, target);
      if bestBlock.None? || diff < Diff(bestBlock.value.time, target) {
        bestBlock := Some(block);
      }
      if diff < Tolerance {
        return Some(block);
      }
      if block.time > target {
        right := mid - 1;
      } else {
        left := mid + 1;
      }
      i := i + 1;
    }
    found := bestBlock;
  }
}

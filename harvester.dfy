/**
 * Gathering recent transaction hashes (script.js:233-297).
 *
 * Without dates the harvester follows `previous_block` links back from the
 * latest block until it holds `limit` hashes or reaches the first block.
 * With dates it resolves a block range and walks heights downward, skipping
 * empty heights and blocks newer than the end date, and stopping at the
 * first block older than the start date. Either way the list is cut to
 * `limit` items. A failed request ends the whole harvest with an error.
 */
module Harvester {
  import opened Wrappers
  import opened Chain
  import opened Locator
  import opened DateRange

  /** A transaction hash tagged with the time of its block. */
  datatype TxTime = TxTime(hash: string, blockTime: int)

  /** The hashes of one block, each tagged with the block's time. */
  function Tagged(hashes: seq<string>, time: int): seq<TxTime>
  {
    seq(|hashes|, k requires 0 <= k < |hashes| => TxTime(hashes[k], time))
  }

  /** `txs.slice(0, limit)`. */
  function Truncate(txs: seq<TxTime>, limit: nat): (r: seq<TxTime>)
    ensures |r| == if |txs| < limit then |txs| else limit
    ensures r <= txs
  {
    if |txs| <= limit then txs else txs[..limit]
  }

  // ---------------------------------------------------------------------------
  // Height walk (date filters)
  // ---------------------------------------------------------------------------

  /** `time` lies between the start and the optional end of the dates. */
  predicate InWindow(time: int, fromTime: int, toTime: Option<int>) {
    fromTime <= time && (toTime.Some? ==> time <= toTime.value)
  }

  /** `item` is a transaction listed at height `h`, tagged with that block's time. */
  ghost predicate FromHeight(ix: Indexer, h: int, item: TxTime) {
    && ix.TxsAt(h).Ok? && item.hash in ix.TxsAt(h).value
    && ix.BlockAt(h).Ok? && ix.BlockAt(h).value.time == item.blockTime
  }

  /**
   * The walk from height `h` down to `startHeight` with `acc` collected so
   * far: it stops once `limit` items are held, skips empty heights before
   * fetching their block, skips blocks newer than `toTime`, stops at the
   * first block older than `fromTime`, and keeps every other block's hashes.
   */
  function HeightWalk(ix: Indexer, h: int, startHeight: int, fromTime: int, toTime: Option<int>,
                      limit: nat, acc: seq<TxTime>): Result<seq<TxTime>>
    decreases if h < startHeight then 0 else h - startHeight + 1
  {
    if h < startHeight || |acc| >= limit then Ok(acc)
    else
      match ix.TxsAt(h)
      case Err(e) => Err(e)
      case Ok(hashes) =>
        if hashes == [] then HeightWalk(ix, h - 1, startHeight, fromTime, toTime, limit, acc)
        else
          match ix.BlockAt(h)
          case Err(e) => Err(e)
          case Ok(b) =>
            if toTime.Some? && b.time > toTime.value then
              HeightWalk(ix, h - 1, startHeight, fromTime, toTime, limit, acc)
            else if b.time < fromTime then Ok(acc)
            else HeightWalk(ix, h - 1, startHeight, fromTime, toTime, limit, acc + Tagged(hashes, b.time))
  }

  /** Height `h` holds transactions in a block older than the start date: the walk ends there. */
  ghost predicate EndsWalk(ix: Indexer, h: int, fromTime: int, toTime: Option<int>) {
    && ix.TxsAt(h).Ok? && ix.TxsAt(h).value != []
    && ix.BlockAt(h).Ok?
    && !(toTime.Some? && ix.BlockAt(h).value.time > toTime.value)
    && ix.BlockAt(h).value.time < fromTime
  }

  /**
   * The heights whose transactions the walk from `h` requests, in order:
   * none once the range is done or `limit` items are held; otherwise `h`,
   * followed by the heights below it unless the request for `h` or its
   * block failed or its block is older than the start date.
   */
  ghost function Visited(ix: Indexer, h: int, startHeight: int, fromTime: int, toTime: Option<int>,
                         limit: nat, acc: seq<TxTime>): seq<int>
    decreases if h < startHeight then 0 else h - startHeight + 1
  {
    if h < startHeight || |acc| >= limit then []
    else
      match ix.TxsAt(h)
      case Err(_) => [h]
      case Ok(hashes) =>
        if hashes == [] then [h] + Visited(ix, h - 1, startHeight, fromTime, toTime, limit, acc)
        else
          match ix.BlockAt(h)
          case Err(_) => [h]
          case Ok(b) =>
            if toTime.Some? && b.time > toTime.value then
              [h] + Visited(ix, h - 1, startHeight, fromTime, toTime, limit, acc)
            else if b.time < fromTime then [h]
            else [h] + Visited(ix, h - 1, startHeight, fromTime, toTime, limit, acc + Tagged(hashes, b.time))
  }

  /**
   * The walk requests `h` and then each height below it in turn, never one
   * below `startHeight`, and only the last height it requests can hold a
   * block older than the start date.
   */
  lemma {:induction false} VisitedDescends(ix: Indexer, h: int, startHeight: int, fromTime: int, toTime: Option<int>,
                                           limit: nat, acc: seq<TxTime>)
    ensures forall k :: 0 <= k < |Visited(ix, h, startHeight, fromTime, toTime, limit, acc)| ==>
      Visited(ix, h, startHeight, fromTime, toTime, limit, acc)[k] == h - k &&
      startHeight <= Visited(ix, h, startHeight, fromTime, toTime, limit, acc)[k]
    ensures forall k :: 0 <= k < |Visited(ix, h, startHeight, fromTime, toTime, limit, acc)| - 1 ==>
      !EndsWalk(ix, Visited(ix, h, startHeight, fromTime, toTime, limit, acc)[k], fromTime, toTime)
    decreases if h < startHeight then 0 else h - startHeight + 1
  {
    var v := Visited(ix, h, startHeight, fromTime, toTime, limit, acc);
    if h >= startHeight && |acc| < limit && ix.TxsAt(h).Ok? {
      var hashes := ix.TxsAt(h).value;
      var b := ix.BlockAt(h);
      var skips := hashes == [] || (b.Ok? && toTime.Some? && b.value.time > toTime.value);
      var keeps := hashes != [] && b.Ok? && !(toTime.Some? && b.value.time > toTime.value) && b.value.time >= fromTime;
      if skips || keeps {
        var next := if keeps then acc + Tagged(hashes, b.value.time) else acc;
        var rest := Visited(ix, h - 1, startHeight, fromTime, toTime, limit, next);
        assert v == [h] + rest;
        VisitedDescends(ix, h - 1, startHeight, fromTime, toTime, limit, next);
        assert !EndsWalk(ix, h, fromTime, toTime);
        forall k | 1 <= k < |v|
          ensures v[k] == h - k && startHeight <= v[k]
          ensures k < |v| - 1 ==> !EndsWalk(ix, v[k], fromTime, toTime)
        {
          assert v[k] == rest[k - 1];
        }
      }
    }
  }

  /**
   * The walk stops early only for a reason: when it answers with fewer
   * than `limit` items and the last height it requested does not hold a
   * block older than the start date, it requested every height from `h`
   * down to `startHeight`.
   */
  lemma {:induction false} VisitedCoversRange(ix: Indexer, h: int, startHeight: int, fromTime: int, toTime: Option<int>,
                                              limit: nat, acc: seq<TxTime>)
    ensures HeightWalk(ix, h, startHeight, fromTime, toTime, limit, acc).Ok? &&
            |HeightWalk(ix, h, startHeight, fromTime, toTime, limit, acc).value| < limit &&
            (|Visited(ix, h, startHeight, fromTime, toTime, limit, acc)| == 0 ||
             !EndsWalk(ix, Visited(ix, h, startHeight, fromTime, toTime, limit, acc)
                             [|Visited(ix, h, startHeight, fromTime, toTime, limit, acc)| - 1], fromTime, toTime))
            ==> |Visited(ix, h, startHeight, fromTime, toTime, limit, acc)| == if h < startHeight then 0 else h - startHeight + 1
    decreases if h < startHeight then 0 else h - startHeight + 1
  {
    var v := Visited(ix, h, startHeight, fromTime, toTime, limit, acc);
    if h >= startHeight && |acc| < limit && ix.TxsAt(h).Ok? {
      var hashes := ix.TxsAt(h).value;
      var b := ix.BlockAt(h);
      var skips := hashes == [] || (b.Ok? && toTime.Some? && b.value.time > toTime.value);
      var keeps := hashes != [] && b.Ok? && !(toTime.Some? && b.value.time > toTime.value) && b.value.time >= fromTime;
      if skips || keeps {
        var next := if keeps then acc + Tagged(hashes, b.value.time) else acc;
        var rest := Visited(ix, h - 1, startHeight, fromTime, toTime, limit, next);
        assert v == [h] + rest;
        assert HeightWalk(ix, h, startHeight, fromTime, toTime, limit, acc)
            == HeightWalk(ix, h - 1, startHeight, fromTime, toTime, limit, next);
        assert !EndsWalk(ix, h, fromTime, toTime);
        if rest != [] {
          assert v[|v| - 1] == rest[|rest| - 1];
        }
        VisitedCoversRange(ix, h - 1, startHeight, fromTime, toTime, limit, next);
      }
    }
  }

  /**
   * The loop of script.js:252-274. `visited` lists the heights whose
   * transactions were requested: `endHeight` and downward one by one, none
   * below `startHeight`, and only the last may hold a block older than the
   * start date.
   */
  method WalkHeights(ix: Indexer, endHeight: int, startHeight: int, fromTime: int, toTime: Option<int>, limit: nat)
    returns (r: Result<seq<TxTime>>, ghost visited: seq<int>)
    ensures r == HeightWalk(ix, endHeight, startHeight, fromTime, toTime, limit, [])
    ensures visited == Visited(ix, endHeight, startHeight, fromTime, toTime, limit, [])
    ensures forall k :: 0 <= k < |visited| ==> visited[k] == endHeight - k && startHeight <= visited[k]
    ensures forall k :: 0 <= k < |visited| - 1 ==> !EndsWalk(ix, visited[k], fromTime, toTime)
  {
    VisitedDescends(ix, endHeight, startHeight, fromTime, toTime, limit, []);
    var txs: seq<TxTime> := [];
    var h := endHeight;
    visited := [];
    while h >= startHeight
      invariant HeightWalk(ix, endHeight, startHeight, fromTime, toTime, limit, [])
             == HeightWalk(ix, h, startHeight, fromTime, toTime, limit, txs)
      invariant Visited(ix, endHeight, startHeight, fromTime, toTime, limit, [])
             == visited + Visited(ix, h, startHeight, fromTime, toTime, limit, txs)
      decreases h - startHeight + 1
    {
      if |txs| >= limit {
        break;
      }
      ghost var before := visited;
      visited := visited + [h];
      var blockTxs := ix.TxsAt(h);
      if blockTxs.Err? {
        return Err(blockTxs.reason), visited;
      }
      if |blockTxs.value| == 0 {
        assert before + ([h] + Visited(ix, h - 1, startHeight, fromTime, toTime, limit, txs))
            == visited + Visited(ix, h - 1, startHeight, fromTime, toTime, limit, txs);
        h := h - 1;
        continue;
      }
      var block := ix.BlockAt(h);
      if block.Err? {
        return Err(block.reason), visited;
      }
      if toTime.Some? && block.value.time > toTime.value {
        assert before + ([h] + Visited(ix, h - 1, startHeight, fromTime, toTime, limit, txs))
            == visited + Visited(ix, h - 1, startHeight, fromTime, toTime, limit, txs);
        h := h - 1;
        continue;
      }
      if block.value.time < fromTime {
        break;
      }
      var next := txs + Tagged(blockTxs.value, block.value.time);
      assert before + ([h] + Visited(ix, h - 1, startHeight, fromTime, toTime, limit, next))
          == visited + Visited(ix, h - 1, startHeight, fromTime, toTime, limit, next);
      txs := next;
      h := h - 1;
    }
    r := Ok(txs);
  }

  /** The walk only ever appends to what it already holds. */
  lemma {:induction false} HeightWalkExtends(ix: Indexer, h: int, startHeight: int, fromTime: int, toTime: Option<int>,
                                             limit: nat, acc: seq<TxTime>)
    ensures var r := HeightWalk(ix, h, startHeight, fromTime, toTime, limit, acc); r.Ok? ==> acc <= r.value
    decreases if h < startHeight then 0 else h - startHeight + 1
  {
    if h >= startHeight && |acc| < limit && ix.TxsAt(h).Ok? {
      var hashes := ix.TxsAt(h).value;
      if hashes == [] {
        HeightWalkExtends(ix, h - 1, startHeight, fromTime, toTime, limit, acc);
      } else if ix.BlockAt(h).Ok? {
        var b := ix.BlockAt(h).value;
        if toTime.Some? && b.time > toTime.value {
          HeightWalkExtends(ix, h - 1, startHeight, fromTime, toTime, limit, acc);
        } else if b.time >= fromTime {
          var acc' := acc + Tagged(hashes, b.time);
          HeightWalkExtends(ix, h - 1, startHeight, fromTime, toTime, limit, acc');
        }
      }
    }
  }

  /**
   * Every item the walk adds is a transaction of some height between
   * `startHeight` and `h`, tagged with its block's time, and that time
   * lies within the dates.
   */
  lemma {:induction false} HeightWalkItems(ix: Indexer, h: int, startHeight: int, fromTime: int, toTime: Option<int>,
                                           limit: nat, acc: seq<TxTime>)
    ensures HeightWalk(ix, h, startHeight, fromTime, toTime, limit, acc).Ok? ==>
      forall k :: |acc| <= k < |HeightWalk(ix, h, startHeight, fromTime, toTime, limit, acc).value| ==>
        InWindow(HeightWalk(ix, h, startHeight, fromTime, toTime, limit, acc).value[k].blockTime, fromTime, toTime) &&
        exists hh :: startHeight <= hh <= h &&
          FromHeight(ix, hh, HeightWalk(ix, h, startHeight, fromTime, toTime, limit, acc).value[k])
    decreases if h < startHeight then 0 else h - startHeight + 1
  {
    var r := HeightWalk(ix, h, startHeight, fromTime, toTime, limit, acc);
    if h >= startHeight && |acc| < limit && ix.TxsAt(h).Ok? {
      var hashes := ix.TxsAt(h).value;
      var b := ix.BlockAt(h);
      var skips := hashes == [] || (b.Ok? && toTime.Some? && b.value.time > toTime.value);
      var keeps := hashes != [] && b.Ok? && !(toTime.Some? && b.value.time > toTime.value) && b.value.time >= fromTime;
      if skips || keeps {
        var next := if keeps then acc + Tagged(hashes, b.value.time) else acc;
        assert r == HeightWalk(ix, h - 1, startHeight, fromTime, toTime, limit, next);
        HeightWalkItems(ix, h - 1, startHeight, fromTime, toTime, limit, next);
        HeightWalkExtends(ix, h - 1, startHeight, fromTime, toTime, limit, next);
        if r.Ok? {
          forall k | |acc| <= k < |r.value|
            ensures InWindow(r.value[k].blockTime, fromTime, toTime)
            ensures exists hh :: startHeight <= hh <= h && FromHeight(ix, hh, r.value[k])
          {
            if k < |next| {
              var mine := Tagged(hashes, b.value.time);
              assert r.value[k] == next[k] == mine[k - |acc|];
              assert mine[k - |acc|].hash == hashes[k - |acc|];
              assert FromHeight(ix, h, r.value[k]);
            } else {
              var hh :| startHeight <= hh <= h - 1 && FromHeight(ix, hh, r.value[k]);
            }
          }
        }
      }
    }
  }

  /**
   * On a chain whose block times grow with height, the walk lists the
   * transactions it adds newest block first.
   */
  lemma {:induction false} HeightWalkNewestFirst(ix: Indexer, h: int, startHeight: int, fromTime: int, toTime: Option<int>,
                                                 limit: nat, acc: seq<TxTime>)
    requires TimesIncrease(ix, startHeight, h)
    ensures var r := HeightWalk(ix, h, startHeight, fromTime, toTime, limit, acc);
      r.Ok? ==> forall i, j :: |acc| <= i < j < |r.value| ==> r.value[i].blockTime >= r.value[j].blockTime
    decreases if h < startHeight then 0 else h - startHeight + 1
  {
    var r := HeightWalk(ix, h, startHeight, fromTime, toTime, limit, acc);
    if h >= startHeight && |acc| < limit && ix.TxsAt(h).Ok? {
      var hashes := ix.TxsAt(h).value;
      if hashes == [] {
        HeightWalkNewestFirst(ix, h - 1, startHeight, fromTime, toTime, limit, acc);
      } else if ix.BlockAt(h).Ok? {
        var b := ix.BlockAt(h).value;
        if toTime.Some? && b.time > toTime.value {
          HeightWalkNewestFirst(ix, h - 1, startHeight, fromTime, toTime, limit, acc);
        } else if b.time >= fromTime {
          var mine := Tagged(hashes, b.time);
          var acc' := acc + mine;
          HeightWalkNewestFirst(ix, h - 1, startHeight, fromTime, toTime, limit, acc');
          HeightWalkItems(ix, h - 1, startHeight, fromTime, toTime, limit, acc');
          HeightWalkExtends(ix, h - 1, startHeight, fromTime, toTime, limit, acc');
          if r.Ok? {
            forall i, j | |acc| <= i < j < |r.value|
              ensures r.value[i].blockTime >= r.value[j].blockTime
            {
              if i < |acc'| {
                assert r.value[i] == acc'[i] == mine[i - |acc|];
                if j < |acc'| {
                  assert r.value[j] == acc'[j] == mine[j - |acc|];
                } else {
                  var hh :| startHeight <= hh <= h - 1 && FromHeight(ix, hh, r.value[j]);
                  assert ix.BlockAt(hh).value.time <= ix.BlockAt(h).value.time;
                }
              }
            }
          }
        }
      }
    }
  }

  /**
   * Unless a block older than the start date ends it or `limit` items are
   * reached, the walk skips nothing: every transaction of every height
   * between `startHeight` and `h` whose block lies within the dates is
   * returned, tagged with that block's time.
   */
  lemma {:induction false} HeightWalkComplete(ix: Indexer, h: int, startHeight: int, fromTime: int, toTime: Option<int>,
                                              limit: nat, acc: seq<TxTime>)
    requires forall hh :: startHeight <= hh <= h && ix.BlockAt(hh).Ok? ==> fromTime <= ix.BlockAt(hh).value.time
    ensures HeightWalk(ix, h, startHeight, fromTime, toTime, limit, acc).Ok? &&
            |HeightWalk(ix, h, startHeight, fromTime, toTime, limit, acc).value| < limit ==>
      forall hh, x :: startHeight <= hh <= h && ix.TxsAt(hh).Ok? && x in ix.TxsAt(hh).value &&
                      ix.BlockAt(hh).Ok? && InWindow(ix.BlockAt(hh).value.time, fromTime, toTime) ==>
        TxTime(x, ix.BlockAt(hh).value.time) in HeightWalk(ix, h, startHeight, fromTime, toTime, limit, acc).value
    decreases if h < startHeight then 0 else h - startHeight + 1
  {
    var r := HeightWalk(ix, h, startHeight, fromTime, toTime, limit, acc);
    if h >= startHeight && |acc| < limit && ix.TxsAt(h).Ok? {
      var hashes := ix.TxsAt(h).value;
      if hashes == [] {
        HeightWalkComplete(ix, h - 1, startHeight, fromTime, toTime, limit, acc);
      } else if ix.BlockAt(h).Ok? {
        var b := ix.BlockAt(h).value;
        if toTime.Some? && b.time > toTime.value {
          HeightWalkComplete(ix, h - 1, startHeight, fromTime, toTime, limit, acc);
        } else {
          var acc' := acc + Tagged(hashes, b.time);
          HeightWalkComplete(ix, h - 1, startHeight, fromTime, toTime, limit, acc');
          HeightWalkExtends(ix, h - 1, startHeight, fromTime, toTime, limit, acc');
          if r.Ok? && |r.value| < limit {
            forall x | x in hashes
              ensures TxTime(x, b.time) in r.value
            {
              var j :| 0 <= j < |hashes| && hashes[j] == x;
              assert acc'[|acc| + j] == TxTime(x, b.time);
              assert r.value[|acc| + j] == acc'[|acc| + j];
            }
          }
        }
      }
    }
  }

  // ---------------------------------------------------------------------------
  // Chain walk (no date filters)
  // ---------------------------------------------------------------------------

  /**
   * The loop of script.js:284-294 from `block` with `acc` collected: while
   * fewer than `limit` items are held, add the block's hashes and step to
   * its predecessor; stop at a block without one.
   */
  function ChainWalk(ix: Indexer, block: Block, limit: nat, acc: seq<TxTime>): Result<seq<TxTime>>
    requires ix.ChainLinked() && ix.Linked(block)
    decreases block.height
  {
    if |acc| >= limit then Ok(acc)
    else
      match ix.TxsOf(block.hash)
      case Err(e) => Err(e)
      case Ok(hashes) =>
        var acc' := acc + Tagged(hashes, block.time);
        match block.previousBlock
        case None => Ok(acc')
        case Some(p) =>
          match ix.BlockByHash(p)
          case Err(e) => Err(e)
          case Ok(prev) => ChainWalk(ix, prev, limit, acc')
  }

  /**
   * Every transaction from `block` back to the first block, block by
   * block, each tagged with its block's time: the reference the chain
   * walk is measured against.
   */
  function ChainTxs(ix: Indexer, block: Block): Result<seq<TxTime>>
    requires ix.ChainLinked() && ix.Linked(block)
    decreases block.height
  {
    match ix.TxsOf(block.hash)
    case Err(e) => Err(e)
    case Ok(hashes) =>
      var mine := Tagged(hashes, block.time);
      match block.previousBlock
      case None => Ok(mine)
      case Some(p) =>
        match ix.BlockByHash(p)
        case Err(e) => Err(e)
        case Ok(prev) =>
          match ChainTxs(ix, prev)
          case Err(e) => Err(e)
          case Ok(older) => Ok(mine + older)
  }

  /** What `fetchLatestTxHashesSimple` returns. */
  function RecentTxs(ix: Indexer, limit: nat): Result<seq<TxTime>>
    requires ix.ChainLinked()
  {
    match ix.Latest()
    case Err(e) => Err(e)
    case Ok(latest) =>
      match ChainWalk(ix, latest, limit, [])
      case Err(e) => Err(e)
      case Ok(txs) => Ok(Truncate(txs, limit))
  }

  /** `fetchLatestTxHashesSimple`. */
  method FetchLatestTxHashesSimple(ix: Indexer, limit: nat) returns (r: Result<seq<TxTime>>)
    requires ix.ChainLinked()
    ensures r == RecentTxs(ix, limit)
  {
    var latest := ix.Latest();
    if latest.Err? {
      return Err(latest.reason);
    }
    var block := latest.value;
    var txs: seq<TxTime> := [];
    while |txs| < limit
      invariant ix.Linked(block)
      invariant ChainWalk(ix, latest.value, limit, []) == ChainWalk(ix, block, limit, txs)
      decreases block.height
    {
      var blockTxs := ix.TxsOf(block.hash);
      if blockTxs.Err? {
        return Err(blockTxs.reason);
      }
      txs := txs + Tagged(blockTxs.value, block.time);
      if block.previousBlock.None? {
        break;
      }
      var prev := ix.BlockByHash(block.previousBlock.value);
      if prev.Err? {
        return Err(prev.reason);
      }
      block := prev.value;
    }
    r := Ok(Truncate(txs, limit));
  }

  /**
   * Where the whole chain back from `block` can be read, the chain walk
   * yields, once cut to `limit`, the first `limit` items of what has been
   * collected followed by that chain.
   */
  lemma {:induction false} ChainWalkIsPrefix(ix: Indexer, block: Block, limit: nat, acc: seq<TxTime>, all: seq<TxTime>)
    requires ix.ChainLinked() && ix.Linked(block)
    requires ChainTxs(ix, block) == Ok(all)
    ensures ChainWalk(ix, block, limit, acc).Ok?
    ensures Truncate(ChainWalk(ix, block, limit, acc).value, limit) == Truncate(acc + all, limit)
    decreases block.height
  {
    if |acc| >= limit {
      assert (acc + all)[..limit] == acc[..limit];
    } else {
      var mine := Tagged(ix.TxsOf(block.hash).value, block.time);
      var acc' := acc + mine;
      if block.previousBlock.Some? {
        var prev := ix.BlockByHash(block.previousBlock.value).value;
        var older := ChainTxs(ix, prev).value;
        ChainWalkIsPrefix(ix, prev, limit, acc', older);
        assert all == mine + older;
        assert acc' + older == acc + all;
      }
    }
  }

  /**
   * The recency walk returns the first `min(limit, total)` transactions
   * along the `previous_block` chain from the latest block.
   */
  lemma RecentTxsArePrefixOfChain(ix: Indexer, limit: nat, all: seq<TxTime>)
    requires ix.ChainLinked() && ix.Latest().Ok?
    requires ChainTxs(ix, ix.Latest().value) == Ok(all)
    ensures RecentTxs(ix, limit) == Ok(all[..if |all| < limit then |all| else limit])
  {
    ChainWalkIsPrefix(ix, ix.Latest().value, limit, [], all);
    assert [] + all == all;
    assert all[..|all|] == all;
  }

  // ---------------------------------------------------------------------------
  // fetchLatestTxHashes
  // ---------------------------------------------------------------------------

  /**
   * The height the dated walk starts from: `endBlock.height`, or the
   * latest block's height when the range has no end.
   */
  function EndHeight(ix: Indexer, range: BlockRange): int
    requires ix.Latest().Ok?
  {
    if range.endBlock.Some? then range.endBlock.value.height else ix.Latest().value.height
  }

  /**
   * The height the dated walk goes down to, as written: `startBlock.height`.
   * Without a start date that is the latest block's height.
   */
  function WalkFloorAsWritten(range: BlockRange): int {
    StartHeight(range.startBlock)
  }

  /**
   * The height the dated walk goes down to, corrected: without a start
   * date the walk may go down to genesis.
   */
  function WalkFloor(range: BlockRange, fromTime: int): int {
    if fromTime > 0 then StartHeight(range.startBlock) else GenesisHeight
  }

  /** What the date-filtered branch of `fetchLatestTxHashes` returns as written. */
  function DatedTxsAsWritten(ix: Indexer, limit: nat, fromTime: int, toTime: Option<int>): Result<seq<TxTime>>
  {
    match BlockRangeForDates(ix, fromTime, toTime)
    case Err(e) => Err(e)
    case Ok(range) =>
      match HeightWalk(ix, EndHeight(ix, range), WalkFloorAsWritten(range), fromTime, toTime, limit, [])
      case Err(e) => Err(e)
      case Ok(txs) => Ok(Truncate(txs, limit))
  }

  /** What the date-filtered branch of `fetchLatestTxHashes` returns with the corrected floor. */
  function DatedTxs(ix: Indexer, limit: nat, fromTime: int, toTime: Option<int>): Result<seq<TxTime>>
  {
    match BlockRangeForDates(ix, fromTime, toTime)
    case Err(e) => Err(e)
    case Ok(range) =>
      match HeightWalk(ix, EndHeight(ix, range), WalkFloor(range, fromTime), fromTime, toTime, limit, [])
      case Err(e) => Err(e)
      case Ok(txs) => Ok(Truncate(txs, limit))
  }

  /**
   * A two-block chain: block 1 at time 500 holding `t1`, block 2 (the
   * latest) at time 1000 holding `t2`.
   */
  function TwoBlocks(): Indexer {
    var b1 := Block(1, "b1", 500, None);
    var b2 := Block(2, "b2", 1000, Some("b1"));
    Indexer(Some(b2), map[1 := b1, 2 := b2], map[], map[1 := ["t1"], 2 := ["t2"]],
            map[], map[], map[], map[])
  }

  /**
   * With an end date only, as written, the walk starts at the end block
   * (height 1) and stops above the latest block's height (2), so `t1`,
   * which lies within the dates, is never returned.
   */
  lemma EndDateOnlyAsWrittenMissesBlocks()
    ensures FromHeight(TwoBlocks(), 1, TxTime("t1", 500)) && InWindow(500, 0, Some(600))
    ensures DatedTxsAsWritten(TwoBlocks(), 10, 0, Some(600)) == Ok([])
  {
    var ix := TwoBlocks();
    assert ix.BlockAt(1) == Ok(Block(1, "b1", 500, None));
    assert Trace(ix, 600, 1, 2, MaxIterations) == [Probe(1, Block(1, "b1", 500, None))];
    assert [Probe(1, Block(1, "b1", 500, None))][..0] == [];
    assert Locate(ix, 600, GenesisHeight, 2) == Some(Block(1, "b1", 500, None));
  }

  /** With the corrected floor the same query returns `t1`. */
  lemma EndDateOnlyCorrectedFindsBlock()
    ensures DatedTxs(TwoBlocks(), 10, 0, Some(600)) == Ok([TxTime("t1", 500)])
  {
    var ix := TwoBlocks();
    assert ix.BlockAt(1) == Ok(Block(1, "b1", 500, None));
    assert Trace(ix, 600, 1, 2, MaxIterations) == [Probe(1, Block(1, "b1", 500, None))];
    assert [Probe(1, Block(1, "b1", 500, None))][..0] == [];
    assert Locate(ix, 600, GenesisHeight, 2) == Some(Block(1, "b1", 500, None));
    var b1 := Block(1, "b1", 500, None);
    var b2 := Block(2, "b2", 1000, Some("b1"));
    assert BlockRangeForDates(ix, 0, Some(600)) == Ok(BlockRange(StartAt(b2), Some(b1)));
    assert ix.TxsAt(1) == Ok(["t1"]);
    assert [] + Tagged(["t1"], 500) == [TxTime("t1", 500)];
    assert HeightWalk(ix, 1, 1, 0, Some(600), 10, []) == HeightWalk(ix, 0, 1, 0, Some(600), 10, [TxTime("t1", 500)]);
  }

  /**
   * Without a start date the corrected walk covers every height from the
   * end of the range down to genesis: unless `limit` items came back,
   * each transaction there whose block is not after the end date is
   * returned.
   */
  lemma DatedTxsWithoutStartReachGenesis(ix: Indexer, limit: nat, toTime: Option<int>, h: int, x: string)
    requires forall hh :: ix.BlockAt(hh).Ok? ==> 0 <= ix.BlockAt(hh).value.time
    requires DatedTxs(ix, limit, 0, toTime).Ok? && |DatedTxs(ix, limit, 0, toTime).value| < limit
    requires GenesisHeight <= h <= EndHeight(ix, BlockRangeForDates(ix, 0, toTime).value)
    requires ix.TxsAt(h).Ok? && x in ix.TxsAt(h).value && ix.BlockAt(h).Ok?
    requires toTime.Some? ==> ix.BlockAt(h).value.time <= toTime.value
    ensures TxTime(x, ix.BlockAt(h).value.time) in DatedTxs(ix, limit, 0, toTime).value
  {
    var range := BlockRangeForDates(ix, 0, toTime).value;
    var endHeight := EndHeight(ix, range);
    HeightWalkComplete(ix, endHeight, GenesisHeight, 0, toTime, limit, []);
  }

  /**
   * `fetchLatestTxHashes(baseUrl, limit, dateFrom, dateTo)`, the dates
   * given in seconds. Without dates it is the recency walk. With dates it
   * is the height walk, going down to genesis when no start date is given;
   * every item lies within the dates, and at most `limit` items come back.
   */
  method FetchLatestTxHashes(ix: Indexer, limit: nat, dateFrom: Option<int>, dateTo: Option<int>)
    returns (r: Result<seq<TxTime>>)
    requires dateFrom.None? && dateTo.None? ==> ix.ChainLinked()
    ensures dateFrom.None? && dateTo.None? ==> r == RecentTxs(ix, limit)
    ensures dateFrom.Some? || dateTo.Some? ==> r == DatedTxs(ix, limit, dateFrom.GetOr(0), dateTo)
    ensures r.Ok? ==> |r.value| <= limit
    ensures (dateFrom.Some? || dateTo.Some?) && r.Ok? ==>
      forall k :: 0 <= k < |r.value| ==> InWindow(r.value[k].blockTime, dateFrom.GetOr(0), dateTo)
  {
    if dateFrom.None? && dateTo.None? {
      r := FetchLatestTxHashesSimple(ix, limit);
      return;
    }
    var fromTime := dateFrom.GetOr(0);
    var toTime := dateTo;
    var range := BlockRangeForDates(ix, fromTime, toTime);
    if range.Err? {
      return Err(range.reason);
    }
    var startHeight := if fromTime > 0 then StartHeight(range.value.startBlock) else GenesisHeight;
    var endHeight := if range.value.endBlock.Some? then range.value.endBlock.value.height
                     else ix.Latest().value.height;
    var walked, visited := WalkHeights(ix, endHeight, startHeight, fromTime, toTime, limit);
    if walked.Err? {
      return Err(walked.reason);
    }
    HeightWalkItems(ix, endHeight, startHeight, fromTime, toTime, limit, []);
    r := Ok(Truncate(walked.value, limit));
  }
}

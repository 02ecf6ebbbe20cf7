/**
 * `getBlockRangeForDates` (script.js:198-231): the blocks that bound a
 * date-filtered walk.
 *
 * Dates arrive already converted to UNIX seconds: `fromTime` is 0 when no
 * start date was given, `toTime` is absent when no end date was given.
 */
module DateRange {
  import opened Wrappers
  import opened Chain
  import opened Locator

  /** The genesis height the searches start from. */
  const GenesisHeight: int := 1

  /**
   * The start of the walk: a resolved block, or the `{height: 0}`
   * placeholder used when the start date found no block.
   */
  datatype StartBlock = StartAt(block: Block) | Earliest

  function StartHeight(s: StartBlock): nat {
    match s
    case StartAt(b) => b.height
    case Earliest => 0
  }

  /** `{startBlock, endBlock}`; an absent end means "up to the latest block". */
  datatype BlockRange = BlockRange(startBlock: StartBlock, endBlock: Option<Block>)

  /**
   * Resolves the range. Fails only when the latest block cannot be
   * fetched. Without an end date the end stays absent; an end date whose
   * search finds nothing leaves it absent too. Without a start date (or
   * with one at or before the epoch) the start is the latest block; a
   * start date whose search finds nothing becomes the `{height: 0}`
   * placeholder.
   */
  function BlockRangeForDates(ix: Indexer, fromTime: int, toTime: Option<int>): (r: Result<BlockRange>)
    ensures r.Err? <==> ix.Latest().Err?
    ensures r.Ok? && toTime.None? ==> r.value.endBlock.None?
    ensures r.Ok? && toTime.Some? ==>
      r.value.endBlock == Locate(ix, toTime.value, GenesisHeight, ix.Latest().value.height)
    ensures r.Ok? && fromTime <= 0 ==> r.value.startBlock == StartAt(ix.Latest().value)
    ensures r.Ok? && fromTime > 0 ==>
      match Locate(ix, fromTime, GenesisHeight, ix.Latest().value.height)
      case Some(b) => r.value.startBlock == StartAt(b)
      case None => r.value.startBlock == Earliest
  {
    match ix.Latest()
    case Err(e) => Err(e)
    case Ok(latest) =>
      var endHeight := latest.height;
      var endBlock :=
        if toTime.Some? then Locate(ix, toTime.value, GenesisHeight, endHeight) else None;
      var startBlock :=
        if fromTime > 0 then
          match Locate(ix, fromTime, GenesisHeight, endHeight)
          case Some(b) => StartAt(b)
          case None => Earliest
        else StartAt(latest);
      Ok(BlockRange(startBlock, endBlock))
  }

  /**
   * When heights answer with their own block, the start height of the walk
   * is at most the latest height (it is 0 for the placeholder start), and a
   * located start block and any end block lie between genesis and the
   * latest block.
   */
  lemma RangeWithinChain(ix: Indexer, fromTime: int, toTime: Option<int>)
    requires ix.HeightsAgree()
    ensures var r := BlockRangeForDates(ix, fromTime, toTime);
      r.Ok? ==>
        && StartHeight(r.value.startBlock) <= ix.Latest().value.height
        && (fromTime > 0 && r.value.startBlock.StartAt? ==>
              GenesisHeight <= r.value.startBlock.block.height <= ix.Latest().value.height)
        && (r.value.endBlock.Some? ==>
              GenesisHeight <= r.value.endBlock.value.height <= ix.Latest().value.height)
  {
    if ix.Latest().Ok? {
      var h := ix.Latest().value.height;
      LocateWithinRange(ix, fromTime, GenesisHeight, h);
      if toTime.Some? {
        LocateWithinRange(ix, toTime.value, GenesisHeight, h);
      }
    }
  }
}

/**
 * The blockchain indexer the harvester queries, as a read-only snapshot.
 *
 * Every endpoint the harvester calls becomes a lookup in a finite map; a
 * key the snapshot does not hold stands for a request that failed, so
 * each lookup returns a `Result`. One query runs
 * against one snapshot: asking twice for the latest block gives the same
 * block.
 */
module Chain {
  import opened Wrappers
  import opened Metadata

  /** A block header: height, hash, UNIX time in seconds, and the hash of its predecessor. */
  datatype Block = Block(height: nat, hash: string, time: int, previousBlock: Option<string>)

  /** One input or output of a transaction; either field may be missing. */
  datatype Utxo = Utxo(address: Option<string>, paymentCred: Option<string>)

  /** The inputs and outputs of a transaction; either list may be missing from the answer. */
  datatype TxUtxos = TxUtxos(inputs: Option<seq<Utxo>>, outputs: Option<seq<Utxo>>)

  /** One answer row of the label search endpoint. */
  datatype LabelEntry = LabelEntry(txHash: string, jsonMetadata: Json)

  const FetchFailed: string := "fetch failed"

  /** The largest page size the label endpoint accepts. */
  const MaxPageSize: int := 100

  datatype Indexer = Indexer(
    latest: Option<Block>,
    blocksByHeight: map<int, Block>,
    blocksByHash: map<string, Block>,
    txsAtHeight: map<int, seq<string>>,
    txsOfBlock: map<string, seq<string>>,
    metadataOf: map<string, seq<MetadataItem>>,
    utxosOf: map<string, TxUtxos>,
    labelled: map<string, seq<LabelEntry>>)
  {
    /** `/blocks/latest`. */
    function Latest(): Result<Block> {
      if latest.Some? then Ok(latest.value) else Err(FetchFailed)
    }

    /** `/blocks/{height}`. */
    function BlockAt(height: int): Result<Block> {
      if height in blocksByHeight then Ok(blocksByHeight[height]) else Err(FetchFailed)
    }

    /** `/blocks/{hash}`. */
    function BlockByHash(hash: string): Result<Block> {
      if hash in blocksByHash then Ok(blocksByHash[hash]) else Err(FetchFailed)
    }

    /** `/blocks/{height}/txs`. */
    function TxsAt(height: int): Result<seq<string>> {
      if height in txsAtHeight then Ok(txsAtHeight[height]) else Err(FetchFailed)
    }

    /** `/blocks/{hash}/txs`. */
    function TxsOf(hash: string): Result<seq<string>> {
      if hash in txsOfBlock then Ok(txsOfBlock[hash]) else Err(FetchFailed)
    }

    /** `/txs/{hash}/metadata`. */
    function MetadataOf(tx: string): Result<seq<MetadataItem>> {
      if tx in metadataOf then Ok(metadataOf[tx]) else Err(FetchFailed)
    }

    /** `/txs/{hash}/utxos`. */
    function UtxosOf(tx: string): Result<TxUtxos> {
      if tx in utxosOf then Ok(utxosOf[tx]) else Err(FetchFailed)
    }

    /**
     * `/metadata/txs/labels/{label}?count=..&page=..`: page `page` (from 1)
     * of `count` rows of the label's transactions, in the indexer's order.
     */
    function LabelPage(labelKey: string, count: int, page: int): (r: Result<seq<LabelEntry>>)
      ensures r.Ok? <==> labelKey in labelled && 1 <= count <= MaxPageSize && 1 <= page
      ensures r.Ok? ==> |r.value| <= count
    {
      if labelKey !in labelled || count < 1 || count > MaxPageSize || page < 1 then Err(FetchFailed)
      else
        var all := labelled[labelKey];
        var start := (page - 1) * count;
        if start >= |all| then Ok([])
        else if start + count <= |all| then Ok(all[start..start + count])
        else Ok(all[start..])
    }

    /** The block `b` points back to, when the snapshot holds it, is lower. */
    predicate Linked(b: Block) {
      b.previousBlock.Some? && b.previousBlock.value in blocksByHash ==>
        blocksByHash[b.previousBlock.value].height < b.height
    }

    /** Following `previous_block` from the latest block or any block always goes down in height. */
    predicate ChainLinked() {
      (latest.Some? ==> Linked(latest.value)) &&
      forall hash :: hash in blocksByHash ==> Linked(blocksByHash[hash])
    }

    /** `/blocks/{height}` answers with the block of that height. */
    predicate HeightsAgree() {
      forall h :: h in blocksByHeight ==> blocksByHeight[h].height == h
    }
  }

  /** Row `k` of page `page` is row `(page - 1) * count + k` of the label's transactions. */
  lemma LabelPageRows(ix: Indexer, labelKey: string, count: int, page: int)
    requires ix.LabelPage(labelKey, count, page).Ok?
    ensures forall k :: 0 <= k < |ix.LabelPage(labelKey, count, page).value| ==>
      (page - 1) * count + k < |ix.labelled[labelKey]| &&
      ix.LabelPage(labelKey, count, page).value[k] == ix.labelled[labelKey][(page - 1) * count + k]
  {
    var start := (page - 1) * count;
    var all := ix.labelled[labelKey];
    var rows := ix.LabelPage(labelKey, count, page).value;
    forall k | 0 <= k < |rows|
      ensures start + k < |all| && rows[k] == all[start + k]
    {
      if start + count <= |all| {
        assert rows == all[start..start + count];
      } else {
        assert rows == all[start..];
      }
    }
  }

  /** `Math.abs(a - b)`. */
  function Diff(a: int, b: int): (d: nat)
    ensures d == a - b || d == b - a
  {
    if a >= b then a - b else b - a
  }
}

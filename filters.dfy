/**
 * The filter pipeline of a non-label search (script.js:417-503): fetch
 * each harvested transaction's metadata and keep its non-blank records
 * (optionally of one label), narrow the records to those a pattern matches,
 * then keep the transactions whose inputs or outputs mention a wallet.
 *
 * A failed metadata fetch or a failed UTXO fetch drops that transaction
 * and the pipeline goes on. The pattern is an abstract predicate on text;
 * `None` stands for an empty pattern and for one that does not compile,
 * both of which leave the list as it is.
 */
module Filters {
  import opened Wrappers
  import opened Text
  import opened Metadata
  import opened Chain
  import opened FilterMaps
  import opened Harvester

  // ---------------------------------------------------------------------------
  // Metadata stage
  // ---------------------------------------------------------------------------

  /** A record with text left after trimming, of the wanted label when one is given. */
  predicate KeepsRecord(m: MetadataRecord, labelFilter: string) {
    Trim(m.text) != [] && (labelFilter != "" ==> m.labelId == labelFilter)
  }

  /** Extract an item, keeping it when `KeepsRecord` holds. */
  function KeepRecord(labelFilter: string): MetadataItem -> Option<MetadataRecord>
  {
    (item: MetadataItem) => if KeepsRecord(Extracted(item), labelFilter) then Some(Extracted(item)) else None
  }

  /** What one harvested transaction contributes to the results. */
  function ProcessTx(ix: Indexer, t: TxTime, labelFilter: string): Option<TxMetadata>
  {
    match ix.MetadataOf(t.hash)
    case Err(_) => None
    case Ok(items) =>
      var kept := FilterMap(items, KeepRecord(labelFilter));
      if kept == [] then None else Some(TxMetadata(t.hash, kept, Some(t.blockTime)))
  }

  function Process(ix: Indexer, labelFilter: string): TxTime -> Option<TxMetadata>
  {
    (t: TxTime) => ProcessTx(ix, t, labelFilter)
  }

  /**
   * A transaction yields an entry exactly when its metadata was fetched and
   * some item survives; the entry carries the transaction's hash and block
   * time, and its records are exactly the extracted items that survive.
   */
  lemma ProcessTxSpec(ix: Indexer, t: TxTime, labelFilter: string)
    ensures ProcessTx(ix, t, labelFilter).Some? <==>
      ix.MetadataOf(t.hash).Ok? &&
      exists k :: 0 <= k < |ix.MetadataOf(t.hash).value| &&
        KeepsRecord(Extracted(ix.MetadataOf(t.hash).value[k]), labelFilter)
    ensures ProcessTx(ix, t, labelFilter).Some? ==>
      && ProcessTx(ix, t, labelFilter).value.hash == t.hash
      && ProcessTx(ix, t, labelFilter).value.blockTime == Some(t.blockTime)
      && forall m :: m in ProcessTx(ix, t, labelFilter).value.metadata <==>
           KeepsRecord(m, labelFilter) &&
           exists k :: 0 <= k < |ix.MetadataOf(t.hash).value| && Extracted(ix.MetadataOf(t.hash).value[k]) == m
  {
    if ix.MetadataOf(t.hash).Ok? {
      var items := ix.MetadataOf(t.hash).value;
      var kept := FilterMap(items, KeepRecord(labelFilter));
      forall m
        ensures m in kept <==>
          (KeepsRecord(m, labelFilter) && exists k :: 0 <= k < |items| && Extracted(items[k]) == m)
      {
        FilterMapMembers(items, KeepRecord(labelFilter), m);
      }
      if kept == [] {
        forall k | 0 <= k < |items|
          ensures !KeepsRecord(Extracted(items[k]), labelFilter)
        {
          FilterMapMembers(items, KeepRecord(labelFilter), Extracted(items[k]));
        }
      } else {
        assert kept[0] in kept;
      }
    }
  }

  /** The metadata loop of script.js:417-456. */
  method CollectMetadata(ix: Indexer, txs: seq<TxTime>, labelFilter: string) returns (out: seq<TxMetadata>)
    ensures out == FilterMap(txs, Process(ix, labelFilter))
  {
    out := [];
    for i := 0 to |txs|
      invariant out == FilterMap(txs[..i], Process(ix, labelFilter))
    {
      FilterMapStep(txs, Process(ix, labelFilter), i);
      var hash := txs[i].hash;
      var metadataItems := ix.MetadataOf(hash);
      if metadataItems.Err? {
        continue;
      }
      if |metadataItems.value| > 0 {
        var processed := FilterMap(metadataItems.value, KeepRecord(labelFilter));
        if |processed| > 0 {
          out := out + [TxMetadata(hash, processed, Some(txs[i].blockTime))];
        }
      }
    }
    assert txs[..|txs|] == txs;
  }

  // ---------------------------------------------------------------------------
  // Pattern stage
  // ---------------------------------------------------------------------------

  /** Keeps a record whose text the pattern matches. */
  function Matching(matches: string -> bool): MetadataRecord -> Option<MetadataRecord>
  {
    (m: MetadataRecord) => if matches(m.text) then Some(m) else None
  }

  /** Narrows a transaction's records to the matching ones; drops it when none is left. */
  function NarrowTx(tx: TxMetadata, matches: string -> bool): Option<TxMetadata>
  {
    var kept := FilterMap(tx.metadata, Matching(matches));
    if kept == [] then None else Some(tx.(metadata := kept))
  }

  function RegexStep(pattern: Option<string -> bool>): TxMetadata -> Option<TxMetadata>
  {
    if pattern.None? then KeepAll() else (tx: TxMetadata) => NarrowTx(tx, pattern.value)
  }

  /** The pattern stage of script.js:462-472. */
  function RegexStage(txs: seq<TxMetadata>, pattern: Option<string -> bool>): seq<TxMetadata>
  {
    FilterMap(txs, RegexStep(pattern))
  }

  /** Narrowing keeps the hash and block time and exactly the matching records. */
  lemma NarrowTxSpec(tx: TxMetadata, matches: string -> bool)
    ensures NarrowTx(tx, matches).Some? <==> exists k :: 0 <= k < |tx.metadata| && matches(tx.metadata[k].text)
    ensures NarrowTx(tx, matches).Some? ==>
      && NarrowTx(tx, matches).value.hash == tx.hash
      && NarrowTx(tx, matches).value.blockTime == tx.blockTime
      && forall m :: m in NarrowTx(tx, matches).value.metadata <==> m in tx.metadata && matches(m.text)
  {
    var kept := FilterMap(tx.metadata, Matching(matches));
    forall m
      ensures m in kept <==> m in tx.metadata && matches(m.text)
    {
      FilterMapMembers(tx.metadata, Matching(matches), m);
    }
    if exists k :: 0 <= k < |tx.metadata| && matches(tx.metadata[k].text) {
      var k :| 0 <= k < |tx.metadata| && matches(tx.metadata[k].text);
      assert tx.metadata[k] in kept;
    }
    if kept != [] {
      assert kept[0] in kept;
    }
  }

  /** Applying the same pattern a second time changes nothing. */
  lemma {:induction false} RegexStageIdempotent(txs: seq<TxMetadata>, pattern: Option<string -> bool>)
    ensures RegexStage(RegexStage(txs, pattern), pattern) == RegexStage(txs, pattern)
  {
    if txs != [] {
      var init := txs[..|txs| - 1];
      var last := txs[|txs| - 1];
      RegexStageIdempotent(init, pattern);
      var mid := RegexStage(init, pattern);
      var once := RegexStep(pattern)(last);
      if once.Some? {
        assert (mid + [once.value])[..|mid|] == mid;
        if pattern.Some? {
          NarrowTwice(last, pattern.value);
        }
      }
    }
  }

  /** A narrowed transaction narrows to itself. */
  lemma NarrowTwice(tx: TxMetadata, matches: string -> bool)
    requires NarrowTx(tx, matches).Some?
    ensures NarrowTx(NarrowTx(tx, matches).value, matches) == NarrowTx(tx, matches)
  {
    var kept := FilterMap(tx.metadata, Matching(matches));
    FilterMapThen(tx.metadata, Matching(matches), Matching(matches));
    MatchingTwice(tx.metadata, matches);
  }

  lemma {:induction false} MatchingTwice(records: seq<MetadataRecord>, matches: string -> bool)
    ensures FilterMap(records, Then(Matching(matches), Matching(matches))) == FilterMap(records, Matching(matches))
  {
    if records != [] {
      MatchingTwice(records[..|records| - 1], matches);
    }
  }

  // ---------------------------------------------------------------------------
  // Wallet stage
  // ---------------------------------------------------------------------------

  /** A present, non-empty field whose lower-cased text contains the wallet. */
  predicate FieldHas(field: Option<string>, walletLower: string) {
    field.Some? && field.value != "" && Contains(ToLower(field.value), walletLower)
  }

  /** `(u.address && ...includes(w)) || (u.payment_cred && ...includes(w))`. */
  predicate UtxoHas(u: Utxo, walletLower: string) {
    FieldHas(u.address, walletLower) || FieldHas(u.paymentCred, walletLower)
  }

  /** `list?.some(...)`: a missing list mentions nothing. */
  predicate AnyHas(list: Option<seq<Utxo>>, walletLower: string) {
    list.Some? && exists k :: 0 <= k < |list.value| && UtxoHas(list.value[k], walletLower)
  }

  /** A transaction whose UTXOs were fetched and mention the wallet. */
  predicate HasWallet(ix: Indexer, hash: string, walletLower: string) {
    match ix.UtxosOf(hash)
    case Err(_) => false
    case Ok(d) => AnyHas(d.inputs, walletLower) || AnyHas(d.outputs, walletLower)
  }

  function WalletStep(ix: Indexer, wallet: string): TxMetadata -> Option<TxMetadata>
  {
    if wallet == "" then KeepAll() else Where((tx: TxMetadata) => HasWallet(ix, tx.hash, ToLower(wallet)))
  }

  /** The wallet loop of script.js:475-503; an empty wallet skips the stage. */
  method WalletStage(ix: Indexer, txs: seq<TxMetadata>, wallet: string) returns (out: seq<TxMetadata>)
    ensures out == FilterMap(txs, WalletStep(ix, wallet))
    ensures wallet == "" ==> out == txs
  {
    if wallet == "" {
      FilterMapKeepAll(txs);
      return txs;
    }
    var walletLower := ToLower(wallet);
    out := [];
    for i := 0 to |txs|
      invariant out == FilterMap(txs[..i], WalletStep(ix, wallet))
    {
      FilterMapStep(txs, WalletStep(ix, wallet), i);
      var txDetails := ix.UtxosOf(txs[i].hash);
      if txDetails.Err? {
        continue;
      }
      var hasWallet := AnyHas(txDetails.value.inputs, walletLower) || AnyHas(txDetails.value.outputs, walletLower);
      if hasWallet {
        out := out + [txs[i]];
      }
    }
    assert txs[..|txs|] == txs;
  }

  // ---------------------------------------------------------------------------
  // Whole pipeline
  // ---------------------------------------------------------------------------

  /** What one harvested transaction becomes after every stage. */
  function PipelineStep(ix: Indexer, labelFilter: string, pattern: Option<string -> bool>, wallet: string)
    : TxTime -> Option<TxMetadata>
  {
    Then(Then(Process(ix, labelFilter), RegexStep(pattern)), WalletStep(ix, wallet))
  }

  /** The metadata, pattern and wallet stages one after the other. */
  method FilterResults(ix: Indexer, txs: seq<TxTime>, labelFilter: string,
                       pattern: Option<string -> bool>, wallet: string)
    returns (out: seq<TxMetadata>)
    ensures out == FilterMap(txs, PipelineStep(ix, labelFilter, pattern, wallet))
  {
    var collected := CollectMetadata(ix, txs, labelFilter);
    var filtered := RegexStage(collected, pattern);
    out := WalletStage(ix, filtered, wallet);
    FilterMapThen(txs, Process(ix, labelFilter), RegexStep(pattern));
    FilterMapThen(txs, Then(Process(ix, labelFilter), RegexStep(pattern)), WalletStep(ix, wallet));
  }

  /** A record that every record-level stage keeps. */
  ghost predicate RecordPasses(m: MetadataRecord, labelFilter: string, pattern: Option<string -> bool>) {
    KeepsRecord(m, labelFilter) && (pattern.Some? ==> pattern.value(m.text))
  }

  /**
   * A harvested transaction `t` yields `e` from the pipeline exactly when
   * its metadata was fetched, some extracted item passes every record-level
   * stage, and (when a wallet is given) its UTXOs mention the wallet. Then
   * `e` has `t`'s hash and block time, and its records are exactly the
   * extracted items that pass.
   */
  lemma PipelineStepSpec(ix: Indexer, labelFilter: string, pattern: Option<string -> bool>, wallet: string, t: TxTime)
    ensures PipelineStep(ix, labelFilter, pattern, wallet)(t).Some? <==>
      && ix.MetadataOf(t.hash).Ok?
      && (exists k :: 0 <= k < |ix.MetadataOf(t.hash).value| &&
            RecordPasses(Extracted(ix.MetadataOf(t.hash).value[k]), labelFilter, pattern))
      && (wallet != "" ==> HasWallet(ix, t.hash, ToLower(wallet)))
    ensures PipelineStep(ix, labelFilter, pattern, wallet)(t).Some? ==>
      && PipelineStep(ix, labelFilter, pattern, wallet)(t).value.hash == t.hash
      && PipelineStep(ix, labelFilter, pattern, wallet)(t).value.blockTime == Some(t.blockTime)
      && forall m :: m in PipelineStep(ix, labelFilter, pattern, wallet)(t).value.metadata <==>
           RecordPasses(m, labelFilter, pattern) &&
           exists k :: 0 <= k < |ix.MetadataOf(t.hash).value| && Extracted(ix.MetadataOf(t.hash).value[k]) == m
  {
    ProcessTxSpec(ix, t, labelFilter);
    var p := ProcessTx(ix, t, labelFilter);
    if p.Some? && pattern.Some? {
      NarrowTxSpec(p.value, pattern.value);
      var items := ix.MetadataOf(t.hash).value;
      if exists k :: 0 <= k < |items| && RecordPasses(Extracted(items[k]), labelFilter, pattern) {
        var k :| 0 <= k < |items| && RecordPasses(Extracted(items[k]), labelFilter, pattern);
        assert Extracted(items[k]) in p.value.metadata;
      }
    }
  }

  /**
   * The pipeline's results are, in order, the entries of the harvested
   * transactions for which `PipelineStepSpec` holds, one per such
   * transaction: results `k1 < k2` come from transactions `i1 < i2`, and
   * no passing transaction is missing.
   */
  lemma PipelineKeepsOrder(ix: Indexer, txs: seq<TxTime>, labelFilter: string,
                           pattern: Option<string -> bool>, wallet: string)
    ensures var step := PipelineStep(ix, labelFilter, pattern, wallet);
      && |Origins(txs, step)| == |FilterMap(txs, step)|
      && (forall k :: 0 <= k < |Origins(txs, step)| ==>
            Origins(txs, step)[k] < |txs| && FilterMap(txs, step)[k].hash == txs[Origins(txs, step)[k]].hash)
      && (forall k1, k2 :: 0 <= k1 < k2 < |Origins(txs, step)| ==> Origins(txs, step)[k1] < Origins(txs, step)[k2])
      && (forall i :: 0 <= i < |txs| && step(txs[i]).Some? ==> i in Origins(txs, step))
  {
    var step := PipelineStep(ix, labelFilter, pattern, wallet);
    FilterMapOrigins(txs, step);
    forall k | 0 <= k < |Origins(txs, step)|
      ensures FilterMap(txs, step)[k].hash == txs[Origins(txs, step)[k]].hash
    {
      PipelineStepSpec(ix, labelFilter, pattern, wallet, txs[Origins(txs, step)[k]]);
    }
  }
}

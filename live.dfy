/**
 * The live refresh merge (script.js:505-519): the transactions of a new
 * run whose hashes the shown results do not hold yet are put in front of
 * them; when there are none the shown results stay as they are.
 */
module Live {
  import opened Wrappers
  import opened Metadata
  import opened FilterMaps

  datatype LiveOutcome =
    | NoNewTransactions
    | Added(newOnes: seq<TxMetadata>, combined: seq<TxMetadata>)

  /** The hashes of a result list: `new Set(previous.map(r => r.hash))`. */
  function HashesOf(txs: seq<TxMetadata>): set<string>
  {
    set k | 0 <= k < |txs| :: txs[k].hash
  }

  /** Keeps a transaction whose hash is not among `existing`. */
  function IsNew(existing: set<string>): TxMetadata -> bool
  {
    (t: TxMetadata) => t.hash !in existing
  }

  /** `previous` are the shown results (empty when nothing was shown), `incoming` the new run's. */
  function MergeLive(previous: seq<TxMetadata>, incoming: seq<TxMetadata>): LiveOutcome
  {
    var newOnes := FilterMap(incoming, Where(IsNew(HashesOf(previous))));
    if newOnes == [] then NoNewTransactions else Added(newOnes, newOnes + previous)
  }

  /** No two entries share a hash. */
  ghost predicate DistinctHashes(txs: seq<TxMetadata>) {
    forall i, j :: 0 <= i < j < |txs| ==> txs[i].hash != txs[j].hash
  }

  /**
   * Nothing is added exactly when every incoming hash is already shown.
   * Otherwise the shown results come last, unchanged, and the new entries
   * in front of them are exactly the incoming entries with unseen hashes.
   */
  lemma MergeLiveSpec(previous: seq<TxMetadata>, incoming: seq<TxMetadata>)
    ensures MergeLive(previous, incoming).NoNewTransactions? <==>
      forall k :: 0 <= k < |incoming| ==> incoming[k].hash in HashesOf(previous)
    ensures MergeLive(previous, incoming).Added? ==>
      && MergeLive(previous, incoming).newOnes != []
      && MergeLive(previous, incoming).combined == MergeLive(previous, incoming).newOnes + previous
      && forall t :: t in MergeLive(previous, incoming).newOnes <==>
           t in incoming && t.hash !in HashesOf(previous)
  {
    var keep := Where(IsNew(HashesOf(previous)));
    var newOnes := FilterMap(incoming, keep);
    forall t
      ensures t in newOnes <==> t in incoming && t.hash !in HashesOf(previous)
    {
      FilterMapMembers(incoming, keep, t);
    }
    if newOnes == [] {
      forall k | 0 <= k < |incoming|
        ensures incoming[k].hash in HashesOf(previous)
      {
        assert incoming[k] !in newOnes;
      }
    } else {
      assert newOnes[0] in newOnes;
    }
  }

  /** Merging the same run again into the merged results adds nothing. */
  lemma MergeLiveIdempotent(previous: seq<TxMetadata>, incoming: seq<TxMetadata>)
    requires MergeLive(previous, incoming).Added?
    ensures MergeLive(MergeLive(previous, incoming).combined, incoming) == NoNewTransactions
  {
    MergeLiveSpec(previous, incoming);
    var combined := MergeLive(previous, incoming).combined;
    var newOnes := MergeLive(previous, incoming).newOnes;
    forall k | 0 <= k < |incoming|
      ensures incoming[k].hash in HashesOf(combined)
    {
      if incoming[k].hash in HashesOf(previous) {
        var j :| 0 <= j < |previous| && previous[j].hash == incoming[k].hash;
        assert combined[|newOnes| + j] == previous[j];
      } else {
        assert incoming[k] in newOnes;
        var j :| 0 <= j < |newOnes| && newOnes[j] == incoming[k];
        assert combined[j] == newOnes[j];
      }
    }
    MergeLiveSpec(combined, incoming);
  }

  /**
   * When neither the shown results nor the new run repeat a hash, the
   * merged results do not either.
   */
  lemma MergeLiveKeepsHashesDistinct(previous: seq<TxMetadata>, incoming: seq<TxMetadata>)
    requires DistinctHashes(previous) && DistinctHashes(incoming)
    requires MergeLive(previous, incoming).Added?
    ensures DistinctHashes(MergeLive(previous, incoming).combined)
  {
    var keep := Where(IsNew(HashesOf(previous)));
    var newOnes := FilterMap(incoming, keep);
    var combined := newOnes + previous;
    FilterMapOrigins(incoming, keep);
    var o := Origins(incoming, keep);
    forall i, j | 0 <= i < j < |combined|
      ensures combined[i].hash != combined[j].hash
    {
      if j < |newOnes| {
        assert incoming[o[i]] == newOnes[i] && incoming[o[j]] == newOnes[j];
      } else if i < |newOnes| {
        assert keep(incoming[o[i]]) == Some(newOnes[i]);
        assert combined[j] == previous[j - |newOnes|];
        assert combined[j].hash in HashesOf(previous);
      }
    }
  }
}

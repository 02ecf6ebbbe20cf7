/**
 * Label search and its "Load more" pagination (script.js:318, 353-401,
 * 588-616). The page to ask for next and the label it belongs to are
 * module-level state: a search for a different label starts again at
 * page 1, and every page that arrives moves the page on by one.
 *
 * A search asks for pages of the clamped result limit; "Load more" reads
 * the limit field again without clamping it. The corrected `LoadMore`
 * clamps it the same way (see `SearchThenLoadMoreAsWritten`).
 */
module Labels {
  import opened Wrappers
  import opened Text
  import opened Metadata
  import opened Chain

  /** `Math.min(Math.max(parseInt(limit), 1), 50)`. */
  function ClampLimit(raw: int): (r: int)
    ensures 1 <= r <= 50
    ensures 1 <= raw <= 50 ==> r == raw
    ensures raw < 1 ==> r == 1
    ensures raw > 50 ==> r == 50
  {
    if raw < 1 then 1 else if raw > 50 then 50 else raw
  }

  /** Each row becomes one result with a single extracted record and no block time. */
  function LabelMatches(labelKey: string, entries: seq<LabelEntry>): seq<TxMetadata>
  {
    seq(|entries|, k requires 0 <= k < |entries| =>
      TxMetadata(entries[k].txHash, [Extracted(MetadataItem(labelKey, entries[k].jsonMetadata))], None))
  }

  /**
   * One result per row, in order, carrying the row's hash and one record:
   * the extraction of the row's JSON under the searched label. Unlike the
   * search pipeline, a record with no text is kept.
   */
  lemma LabelMatchesSpec(labelKey: string, entries: seq<LabelEntry>)
    ensures |LabelMatches(labelKey, entries)| == |entries|
    ensures forall k :: 0 <= k < |entries| ==>
      && LabelMatches(labelKey, entries)[k].hash == entries[k].txHash
      && LabelMatches(labelKey, entries)[k].blockTime.None?
      && LabelMatches(labelKey, entries)[k].metadata == [Extracted(MetadataItem(labelKey, entries[k].jsonMetadata))]
      && LabelMatches(labelKey, entries)[k].metadata[0].labelId == labelKey
      && (entries[k].jsonMetadata == JNull ==> LabelMatches(labelKey, entries)[k].metadata[0].text == "")
  {
    forall k | 0 <= k < |entries| && entries[k].jsonMetadata == JNull
      ensures LabelMatches(labelKey, entries)[k].metadata[0].text == ""
    {
      assert StringLeaves(JNull) == [];
    }
  }

  /** Label "5" with one row `{tx_hash: "abc", json_metadata: "hi"}`. */
  lemma LabelMatchesExample()
    ensures LabelMatches("5", [LabelEntry("abc", JString("hi"))])
         == [TxMetadata("abc", [MetadataRecord("5", "hi")], None)]
  {
    assert StringLeaves(JString("hi")) == ["hi"];
    assert Join(["hi"], Newline) == "hi";
  }

  /** Results of rows one after the other are the results of the joined rows. */
  lemma LabelMatchesAppend(labelKey: string, a: seq<LabelEntry>, b: seq<LabelEntry>)
    ensures LabelMatches(labelKey, a) + LabelMatches(labelKey, b) == LabelMatches(labelKey, a + b)
  {
  }

  /** Page `page` of `count` rows for a label, as results. */
  function LabelResults(ix: Indexer, labelKey: string, count: int, page: int): Result<seq<TxMetadata>>
  {
    match ix.LabelPage(labelKey, count, page)
    case Err(e) => Err(e)
    case Ok(rows) => Ok(LabelMatches(labelKey, rows))
  }

  /**
   * Two consecutive pages of the same size hold consecutive rows: pages 1
   * and 2 of `count` rows are the first `2 * count` rows (or all of them).
   */
  lemma FirstTwoPagesAreContiguous(ix: Indexer, labelKey: string, count: int)
    requires labelKey in ix.labelled && 1 <= count <= MaxPageSize
    ensures ix.LabelPage(labelKey, count, 1).Ok? && ix.LabelPage(labelKey, count, 2).Ok?
    ensures var all := ix.labelled[labelKey];
      ix.LabelPage(labelKey, count, 1).value + ix.LabelPage(labelKey, count, 2).value
        == all[..if 2 * count < |all| then 2 * count else |all|]
  {
    var all := ix.labelled[labelKey];
    var first := ix.LabelPage(labelKey, count, 1).value;
    var second := ix.LabelPage(labelKey, count, 2).value;
    if |all| <= count {
      assert first == all[..|all|];
    } else if |all| < 2 * count {
      assert first + second == all[..count] + all[count..];
      assert all[..count] + all[count..] == all;
    } else {
      assert first + second == all[..count] + all[count..2 * count];
      assert all[..count] + all[count..2 * count] == all[..2 * count];
    }
  }

  /** The page a search for `labelFilter` asks for, given the state before it. */
  function PageFor(currentLabel: Option<string>, labelPage: int, labelFilter: string): int
  {
    if currentLabel == Some(labelFilter) then labelPage else 1
  }

  /** `labelPage` and `currentLabel`. */
  class LabelPager {
    var currentLabel: Option<string>
    var labelPage: int

    constructor()
      ensures currentLabel.None? && labelPage == 1
    {
      currentLabel := None;
      labelPage := 1;
    }

    /**
     * The label branch of a search: a new label starts again at page 1;
     * the page is asked for with the clamped limit; a page that arrives
     * moves `labelPage` on by one, a failed request leaves it.
     */
    method Search(ix: Indexer, labelFilter: string, rawLimit: int) returns (r: Result<seq<TxMetadata>>)
      requires labelFilter != ""
      modifies this
      ensures currentLabel == Some(labelFilter)
      ensures r == LabelResults(ix, labelFilter, ClampLimit(rawLimit),
                                PageFor(old(currentLabel), old(labelPage), labelFilter))
      ensures labelPage == PageFor(old(currentLabel), old(labelPage), labelFilter) + (if r.Ok? then 1 else 0)
    {
      if currentLabel != Some(labelFilter) {
        currentLabel := Some(labelFilter);
        labelPage := 1;
      }
      var labelResults := ix.LabelPage(labelFilter, ClampLimit(rawLimit), labelPage);
      if labelResults.Err? {
        return Err(labelResults.reason);
      }
      labelPage := labelPage + 1;
      r := Ok(LabelMatches(labelFilter, labelResults.value));
    }

    /**
     * "Load more" as written: without a current label nothing happens;
     * otherwise page `labelPage` is asked for with the unclamped limit and
     * its results are appended to `shown`.
     */
    method LoadMoreAsWritten(ix: Indexer, rawLimit: int, shown: seq<TxMetadata>)
      returns (r: Option<Result<seq<TxMetadata>>>)
      modifies this
      ensures currentLabel == old(currentLabel)
      ensures old(currentLabel).None? ==> r.None? && labelPage == old(labelPage)
      ensures old(currentLabel).Some? ==>
        var page := LabelResults(ix, old(currentLabel).value, rawLimit, old(labelPage));
        && r == Some(if page.Ok? then Ok(shown + page.value) else Err(page.reason))
        && labelPage == old(labelPage) + (if page.Ok? then 1 else 0)
    {
      if currentLabel.None? {
        return None;
      }
      var labelResults := ix.LabelPage(currentLabel.value, rawLimit, labelPage);
      if labelResults.Err? {
        return Some(Err(labelResults.reason));
      }
      labelPage := labelPage + 1;
      var newTx := LabelMatches(currentLabel.value, labelResults.value);
      r := Some(Ok(shown + newTx));
    }

    /** "Load more" with the limit clamped as the search clamps it. */
    method LoadMore(ix: Indexer, rawLimit: int, shown: seq<TxMetadata>)
      returns (r: Option<Result<seq<TxMetadata>>>)
      modifies this
      ensures currentLabel == old(currentLabel)
      ensures old(currentLabel).None? ==> r.None? && labelPage == old(labelPage)
      ensures old(currentLabel).Some? ==>
        var page := LabelResults(ix, old(currentLabel).value, ClampLimit(rawLimit), old(labelPage));
        && r == Some(if page.Ok? then Ok(shown + page.value) else Err(page.reason))
        && labelPage == old(labelPage) + (if page.Ok? then 1 else 0)
    {
      if currentLabel.None? {
        return None;
      }
      var labelResults := ix.LabelPage(currentLabel.value, ClampLimit(rawLimit), labelPage);
      if labelResults.Err? {
        return Some(Err(labelResults.reason));
      }
      labelPage := labelPage + 1;
      var newTx := LabelMatches(currentLabel.value, labelResults.value);
      r := Some(Ok(shown + newTx));
    }
  }

  /**
   * A fresh page: a search for a label with a limit above 50 followed by
   * one "Load more", as written. The search shows rows 0-49; "Load more"
   * asks for page 2 of `rawLimit` rows and appends rows
   * `rawLimit .. 2 * rawLimit - 1`, so rows 50 .. `rawLimit - 1` are never
   * shown.
   */
  method SearchThenLoadMoreAsWritten(ix: Indexer, labelKey: string, rawLimit: int)
    returns (shown: seq<TxMetadata>)
    requires labelKey != "" && labelKey in ix.labelled
    requires 50 < rawLimit <= MaxPageSize && 2 * rawLimit <= |ix.labelled[labelKey]|
    ensures var all := ix.labelled[labelKey];
      shown == LabelMatches(labelKey, all[..50] + all[rawLimit..2 * rawLimit])
  {
    var all := ix.labelled[labelKey];
    var pager := new LabelPager();
    var first := pager.Search(ix, labelKey, rawLimit);
    assert ix.LabelPage(labelKey, 50, 1) == Ok(all[..50]);
    var more := pager.LoadMoreAsWritten(ix, rawLimit, first.value);
    assert ix.LabelPage(labelKey, rawLimit, 2) == Ok(all[rawLimit..2 * rawLimit]);
    shown := more.value.value;
    LabelMatchesAppend(labelKey, all[..50], all[rawLimit..2 * rawLimit]);
  }

  /**
   * The same session with the corrected "Load more": the search and the
   * next page together show the first `2 * ClampLimit(rawLimit)` rows (or
   * all of them), none skipped and none repeated, whatever the limit.
   */
  method SearchThenLoadMore(ix: Indexer, labelKey: string, rawLimit: int)
    returns (shown: seq<TxMetadata>)
    requires labelKey != "" && labelKey in ix.labelled
    ensures var all := ix.labelled[labelKey];
      var n := 2 * ClampLimit(rawLimit);
      shown == LabelMatches(labelKey, all[..if n < |all| then n else |all|])
  {
    var all := ix.labelled[labelKey];
    var count := ClampLimit(rawLimit);
    FirstTwoPagesAreContiguous(ix, labelKey, count);
    var pager := new LabelPager();
    var first := pager.Search(ix, labelKey, rawLimit);
    var more := pager.LoadMore(ix, rawLimit, first.value);
    shown := more.value.value;
    LabelMatchesAppend(labelKey, ix.LabelPage(labelKey, count, 1).value, ix.LabelPage(labelKey, count, 2).value);
  }
}

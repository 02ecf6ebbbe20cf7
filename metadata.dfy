/**
 * Metadata text extraction and the unique-line dump (script.js:41-82).
 *
 * A transaction's metadata arrives as a list of `{label, json_metadata}`
 * items; each item is flattened into one record whose text is every string
 * leaf of the JSON value, in depth-first order, joined with newlines. The
 * dump collects the trimmed, non-empty lines of every record of every
 * transaction, each line once, in order of first occurrence.
 */
module Metadata {
  import opened Wrappers
  import opened Text

  /** A JSON value; an object's members are kept in enumeration order. */
  datatype Json =
    | JNull
    | JBool(b: bool)
    | JNumber(n: int)
    | JString(s: string)
    | JArray(items: seq<Json>)
    | JObject(members: seq<Member>)

  datatype Member = Member(key: string, value: Json)

  /** One metadata item as the indexer returns it. */
  datatype MetadataItem = MetadataItem(labelId: string, jsonMetadata: Json)

  /** One extracted record: the item's label and its flattened text. */
  datatype MetadataRecord = MetadataRecord(labelId: string, text: string)

  /** A harvested transaction with its records; label searches carry no block time. */
  datatype TxMetadata = TxMetadata(hash: string, metadata: seq<MetadataRecord>, blockTime: Option<int>)

  // ---------------------------------------------------------------------------
  // Extraction
  // ---------------------------------------------------------------------------

  /** The string leaves of `j`, depth first, array elements and members in order. */
  function StringLeaves(j: Json): seq<string>
  {
    match j
    case JString(s) => [s]
    case JArray(items) => ArrayLeaves(items)
    case JObject(members) => MemberLeaves(members)
    case _ => []
  }

  function ArrayLeaves(items: seq<Json>): seq<string>
  {
    if items == [] then []
    else ArrayLeaves(items[..|items| - 1]) + StringLeaves(items[|items| - 1])
  }

  function MemberLeaves(members: seq<Member>): seq<string>
  {
    if members == [] then []
    else MemberLeaves(members[..|members| - 1]) + StringLeaves(members[|members| - 1].value)
  }

  /** `j` has a string node equal to `s` somewhere below it (or is one). */
  ghost predicate HasStringNode(j: Json, s: string)
  {
    match j
    case JString(t) => t == s
    case JArray(items) => exists k :: 0 <= k < |items| && HasStringNode(items[k], s)
    case JObject(members) => exists k :: 0 <= k < |members| && HasStringNode(members[k].value, s)
    case _ => false
  }

  /** The record an item is flattened into. */
  function Extracted(item: MetadataItem): MetadataRecord
  {
    MetadataRecord(item.labelId, Join(StringLeaves(item.jsonMetadata), Newline))
  }

  /**
   * The inner `walk` of the extractor: appends the string leaves of `node`
   * to the texts collected so far; null, numbers and booleans add nothing.
   */
  method Walk(node: Json, texts: seq<string>) returns (out: seq<string>)
    ensures out == texts + StringLeaves(node)
  {
    match node {
      case JString(s) =>
        out := texts + [s];
      case JArray(items) =>
        out := texts;
        var i := 0;
        while i < |items|
          invariant 0 <= i <= |items|
          invariant out == texts + ArrayLeaves(items[..i])
        {
          out := Walk(items[i], out);
          assert items[..i + 1][..i] == items[..i];
          i := i + 1;
        }
        assert items[..|items|] == items;
      case JObject(members) =>
        out := texts;
        var i := 0;
        while i < |members|
          invariant 0 <= i <= |members|
          invariant out == texts + MemberLeaves(members[..i])
        {
          out := Walk(members[i].value, out);
          assert members[..i + 1][..i] == members[..i];
          i := i + 1;
        }
        assert members[..|members|] == members;
      case _ =>
        out := texts;
    }
  }

  /** `extractTextFromMetadataItem`: keeps the label, joins the string leaves with newlines. */
  method ExtractTextFromMetadataItem(item: MetadataItem) returns (record: MetadataRecord)
    ensures record.labelId == item.labelId
    ensures record.text == Join(StringLeaves(item.jsonMetadata), Newline)
    ensures record == Extracted(item)
  {
    var texts := Walk(item.jsonMetadata, []);
    assert texts == StringLeaves(item.jsonMetadata);
    record := MetadataRecord(item.labelId, Join(texts, Newline));
  }

  /** Depth-first order: the leaves of a concatenated array are the leaves of each part, in order. */
  lemma {:induction false} ArrayLeavesConcat(a: seq<Json>, b: seq<Json>)
    ensures ArrayLeaves(a + b) == ArrayLeaves(a) + ArrayLeaves(b)
  {
    if b == [] {
      assert a + b == a;
    } else {
      var n := |b| - 1;
      ArrayLeavesConcat(a, b[..n]);
      assert (a + b)[..|a + b| - 1] == a + b[..n];
      assert (a + b)[|a + b| - 1] == b[n];
    }
  }

  /** Depth-first order over object members, likewise. */
  lemma {:induction false} MemberLeavesConcat(a: seq<Member>, b: seq<Member>)
    ensures MemberLeaves(a + b) == MemberLeaves(a) + MemberLeaves(b)
  {
    if b == [] {
      assert a + b == a;
    } else {
      var n := |b| - 1;
      MemberLeavesConcat(a, b[..n]);
      assert (a + b)[..|a + b| - 1] == a + b[..n];
      assert (a + b)[|a + b| - 1] == b[n];
    }
  }

  /** The extractor emits exactly the string nodes of the tree, and nothing else. */
  lemma {:induction false} LeavesAreStringNodes(j: Json, s: string)
    ensures s in StringLeaves(j) <==> HasStringNode(j, s)
  {
    match j
    case JArray(items) => ArrayLeavesAreStringNodes(items, s);
    case JObject(members) => MemberLeavesAreStringNodes(members, s);
    case _ =>
  }

  lemma {:induction false} ArrayLeavesAreStringNodes(items: seq<Json>, s: string)
    ensures s in ArrayLeaves(items) <==> exists k :: 0 <= k < |items| && HasStringNode(items[k], s)
  {
    if items != [] {
      var n := |items| - 1;
      ArrayLeavesAreStringNodes(items[..n], s);
      LeavesAreStringNodes(items[n], s);
      if s in ArrayLeaves(items) {
        if s in ArrayLeaves(items[..n]) {
          var k :| 0 <= k < n && HasStringNode(items[..n][k], s);
          assert items[..n][k] == items[k];
        }
      } else {
        forall k | 0 <= k < |items|
          ensures !HasStringNode(items[k], s)
        {
          if k < n {
            assert items[..n][k] == items[k];
          }
        }
      }
    }
  }

  lemma {:induction false} MemberLeavesAreStringNodes(members: seq<Member>, s: string)
    ensures s in MemberLeaves(members) <==> exists k :: 0 <= k < |members| && HasStringNode(members[k].value, s)
  {
    if members != [] {
      var n := |members| - 1;
      MemberLeavesAreStringNodes(members[..n], s);
      LeavesAreStringNodes(members[n].value, s);
      if s in MemberLeaves(members) {
        if s in MemberLeaves(members[..n]) {
          var k :| 0 <= k < n && HasStringNode(members[..n][k].value, s);
          assert members[..n][k] == members[k];
        }
      } else {
        forall k | 0 <= k < |members|
          ensures !HasStringNode(members[k].value, s)
        {
          if k < n {
            assert members[..n][k] == members[k];
          }
        }
      }
    }
  }

  /** When no leaf holds a newline, splitting the record's text on newlines recovers the leaves. */
  lemma ExtractedTextSplitsBack(item: MetadataItem)
    requires StringLeaves(item.jsonMetadata) != []
    requires forall s :: s in StringLeaves(item.jsonMetadata) ==> Newline !in s
    ensures Split(Extracted(item).text, Newline) == StringLeaves(item.jsonMetadata)
  {
    SplitJoin(StringLeaves(item.jsonMetadata), Newline);
  }

  /** The worked example: label "721", `{"ok": ["a", {"b": "c"}]}` flattens to "a\nc". */
  lemma ExtractExample()
    ensures Extracted(MetadataItem("721",
              JObject([Member("ok", JArray([JString("a"), JObject([Member("b", JString("c"))])]))])))
            == MetadataRecord("721", "a\nc")
  {
    var inner := JObject([Member("b", JString("c"))]);
    var arr := [JString("a"), inner];
    assert arr[..1] == [JString("a")];
    assert arr[..1][..0] == [];
    assert ArrayLeaves(arr[..1]) == ["a"];
    assert inner.members[..0] == [];
    assert StringLeaves(inner) == ["c"];
    assert ArrayLeaves(arr) == ["a", "c"];
    var top := [Member("ok", JArray(arr))];
    assert top[..0] == [];
    assert MemberLeaves(top) == ["a", "c"];
  }

  // ---------------------------------------------------------------------------
  // Unique-line dump
  // ---------------------------------------------------------------------------

  /** The lines `f` gives for each element of `xs`, one element after the other. */
  function ConcatMap<T>(xs: seq<T>, f: T -> seq<string>): seq<string>
  {
    if xs == [] then [] else ConcatMap(xs[..|xs| - 1], f) + f(xs[|xs| - 1])
  }

  /** Visiting one more element appends its lines. */
  lemma ConcatMapStep<T>(done: seq<string>, xs: seq<T>, f: T -> seq<string>, j: nat)
    requires j < |xs|
    ensures done + ConcatMap(xs[..j + 1], f) == (done + ConcatMap(xs[..j], f)) + f(xs[j])
  {
    assert xs[..j + 1][..j] == xs[..j];
  }

  /** A line is in the concatenation exactly when some element gives it. */
  lemma {:induction false} ConcatMapMembers<T>(xs: seq<T>, f: T -> seq<string>, x: string)
    ensures x in ConcatMap(xs, f) <==> exists i :: 0 <= i < |xs| && x in f(xs[i])
  {
    if xs != [] {
      var n := |xs| - 1;
      var front := xs[..n];
      ConcatMapMembers(front, f, x);
      if x in ConcatMap(xs, f) {
        if x in ConcatMap(front, f) {
          var i :| 0 <= i < n && x in f(front[i]);
          assert front[i] == xs[i];
        } else {
          assert x in f(xs[n]);
        }
      } else {
        forall i | 0 <= i < |xs| ensures x !in f(xs[i]) {
          if i < n {
            assert front[i] == xs[i];
          }
        }
      }
    }
  }

  /** A line's contribution to the dump: its trim, unless that is empty. */
  function TrimmedLine(line: string): seq<string>
  {
    var t := Trim(line);
    if t != "" then [t] else []
  }

  /** The trimmed lines of `lines` that are not empty, in order. */
  function NonEmptyTrimmed(lines: seq<string>): seq<string>
  {
    ConcatMap(lines, TrimmedLine)
  }

  /** The dump lines one record contributes; an empty text contributes none. */
  function CleanLines(text: string): seq<string>
  {
    if text == "" then [] else NonEmptyTrimmed(Split(text, Newline))
  }

  /** The dump lines of one record. */
  function RecordLines(record: MetadataRecord): seq<string>
  {
    CleanLines(record.text)
  }

  /** The dump lines of a list of records, record by record. */
  function RecordsLines(records: seq<MetadataRecord>): seq<string>
  {
    ConcatMap(records, RecordLines)
  }

  /** The dump lines of one transaction. */
  function TxLines(tx: TxMetadata): seq<string>
  {
    RecordsLines(tx.metadata)
  }

  /** Every dump line of every transaction, duplicates included, in visiting order. */
  function DumpLines(txs: seq<TxMetadata>): seq<string>
  {
    ConcatMap(txs, TxLines)
  }

  /** What an insertion-ordered `Set` holds after adding the elements of `s` one by one. */
  function Dedup(s: seq<string>): seq<string>
  {
    if s == [] then []
    else
      var p := Dedup(s[..|s| - 1]);
      if s[|s| - 1] in p then p else p + [s[|s| - 1]]
  }

  /** Adding one line to the set: kept out if already held, appended otherwise. */
  lemma DedupSnoc(s: seq<string>, x: string)
    ensures Dedup(s + [x]) == if x in Dedup(s) then Dedup(s) else Dedup(s) + [x]
  {
    assert (s + [x])[..|s|] == s;
  }

  ghost predicate Distinct(s: seq<string>) {
    forall i, j :: 0 <= i < j < |s| ==> s[i] != s[j]
  }

  /** The position of the first occurrence of `x` in `s`. */
  function FirstIndex(s: seq<string>, x: string): (i: nat)
    requires x in s
    ensures i < |s| && s[i] == x && x !in s[..i]
  {
    if s[0] == x then 0 else 1 + FirstIndex(s[1..], x)
  }

  /**
   * Adds the trimmed, non-empty lines of one record's text to the set
   * (script.js:72-77); `done` is the ghost list of every line added so far.
   */
  method AddTextLines(seen: seq<string>, ghost done: seq<string>, text: string)
    returns (seen': seq<string>, ghost done': seq<string>)
    requires seen == Dedup(done)
    ensures done' == done + CleanLines(text)
    ensures seen' == Dedup(done + CleanLines(text))
  {
    seen', done' := seen, done;
    if text != "" {
      var lines := Split(text, Newline);
      var k := 0;
      while k < |lines|
        invariant 0 <= k <= |lines|
        invariant done' == done + NonEmptyTrimmed(lines[..k])
        invariant seen' == Dedup(done')
      {
        var trimmed := Trim(lines[k]);
        ConcatMapStep(done, lines, TrimmedLine, k);
        if |trimmed| > 0 {
          DedupSnoc(done', trimmed);
          if trimmed !in seen' {
            seen' := seen' + [trimmed];
          }
          done' := done' + [trimmed];
        } else {
          assert done' + TrimmedLine(lines[k]) == done';
        }
        k := k + 1;
      }
      assert lines[..|lines|] == lines;
    }
  }

  /** Adds the lines of every record of one transaction (script.js:71-78). */
  method AddRecordsLines(seen: seq<string>, ghost done: seq<string>, records: seq<MetadataRecord>)
    returns (seen': seq<string>, ghost done': seq<string>)
    requires seen == Dedup(done)
    ensures done' == done + RecordsLines(records)
    ensures seen' == Dedup(done + RecordsLines(records))
  {
    seen', done' := seen, done;
    var j := 0;
    while j < |records|
      invariant 0 <= j <= |records|
      invariant done' == done + RecordsLines(records[..j])
      invariant seen' == Dedup(done')
    {
      ConcatMapStep(done, records, RecordLines, j);
      seen', done' := AddTextLines(seen', done', records[j].text);
      j := j + 1;
    }
    assert records[..|records|] == records;
  }

  /**
   * `buildUniqueMetadataDump`: every trimmed, non-empty line of every
   * non-empty record text, added to an insertion-ordered set, then joined.
   */
  method BuildUniqueMetadataDump(txs: seq<TxMetadata>) returns (dump: string)
    ensures dump == Join(Dedup(DumpLines(txs)), Newline)
  {
    var seen: seq<string> := [];
    ghost var done: seq<string> := [];
    var i := 0;
    while i < |txs|
      invariant 0 <= i <= |txs|
      invariant done == DumpLines(txs[..i])
      invariant seen == Dedup(done)
    {
      ConcatMapStep([], txs, TxLines, i);
      assert [] + DumpLines(txs[..i]) == done;
      assert [] + DumpLines(txs[..i + 1]) == DumpLines(txs[..i + 1]);
      seen, done := AddRecordsLines(seen, done, txs[i].metadata);
      i := i + 1;
    }
    assert txs[..|txs|] == txs;
    dump := Join(seen, Newline);
  }

  /** The set holds exactly the lines that were added. */
  lemma {:induction false} DedupMembers(s: seq<string>, x: string)
    ensures x in Dedup(s) <==> x in s
  {
    if s != [] {
      var n := |s| - 1;
      DedupMembers(s[..n], x);
      assert s == s[..n] + [s[n]];
    }
  }

  /** No line is held twice. */
  lemma {:induction false} DedupDistinct(s: seq<string>)
    ensures Distinct(Dedup(s))
  {
    if s != [] {
      DedupDistinct(s[..|s| - 1]);
    }
  }

  lemma {:induction false} FirstIndexInPrefix(s: seq<string>, t: seq<string>, x: string)
    requires x in s
    ensures x in s + t && FirstIndex(s + t, x) == FirstIndex(s, x)
  {
    if s[0] != x {
      assert (s + t)[1..] == s[1..] + t;
      FirstIndexInPrefix(s[1..], t, x);
    }
  }

  /** Lines are held in the order of their first occurrence in the input. */
  lemma {:induction false} DedupFirstSeenOrder(s: seq<string>)
    ensures forall x :: x in Dedup(s) ==> x in s
    ensures forall i, j :: 0 <= i < j < |Dedup(s)| ==> FirstIndex(s, Dedup(s)[i]) < FirstIndex(s, Dedup(s)[j])
  {
    forall x | x in Dedup(s) ensures x in s { DedupMembers(s, x); }
    if s != [] {
      var n := |s| - 1;
      var p := Dedup(s[..n]);
      DedupFirstSeenOrder(s[..n]);
      assert s == s[..n] + [s[n]];
      forall x | x in p
        ensures FirstIndex(s, x) == FirstIndex(s[..n], x) < n
      {
        FirstIndexInPrefix(s[..n], [s[n]], x);
      }
      if s[n] !in p {
        DedupMembers(s[..n], s[n]);
        assert s[n] !in s[..n];
        var r := p + [s[n]];
        forall i, j | 0 <= i < j < |r|
          ensures FirstIndex(s, r[i]) < FirstIndex(s, r[j])
        {
          assert r[i] in p;
          if j < |p| {
            assert r[j] in p;
          } else {
            assert FirstIndex(s, r[j]) == n;
          }
        }
      }
    }
  }

  /** A record's dump lines are the non-empty trims of the lines of its text. */
  lemma NonEmptyTrimmedMembers(lines: seq<string>, x: string)
    ensures x in NonEmptyTrimmed(lines) <==> x != "" && exists l :: l in lines && Trim(l) == x
  {
    ConcatMapMembers(lines, TrimmedLine, x);
    if x != "" && exists l :: l in lines && Trim(l) == x {
      var l :| l in lines && Trim(l) == x;
      var i :| 0 <= i < |lines| && lines[i] == l;
      assert x in TrimmedLine(lines[i]);
    }
  }

  /** A line comes from some non-empty record text of some transaction. */
  ghost predicate IsDumpLine(txs: seq<TxMetadata>, x: string) {
    x != "" &&
    exists i, j, l ::
      0 <= i < |txs| && 0 <= j < |txs[i].metadata| && txs[i].metadata[j].text != "" &&
      l in Split(txs[i].metadata[j].text, Newline) && Trim(l) == x
  }

  /**
   * The unique dump holds each trimmed, non-empty line of every record's
   * text exactly once, in order of first occurrence, and no other line.
   */
  lemma UniqueDumpContents(txs: seq<TxMetadata>)
    ensures forall x :: x in Dedup(DumpLines(txs)) <==> IsDumpLine(txs, x)
    ensures Distinct(Dedup(DumpLines(txs)))
    ensures forall x :: x in Dedup(DumpLines(txs)) ==> x in DumpLines(txs)
    ensures var s, r := DumpLines(txs), Dedup(DumpLines(txs));
      forall i, j :: 0 <= i < j < |r| ==> FirstIndex(s, r[i]) < FirstIndex(s, r[j])
  {
    var s := DumpLines(txs);
    DedupDistinct(s);
    DedupFirstSeenOrder(s);
    forall x ensures x in Dedup(s) <==> IsDumpLine(txs, x) {
      DedupMembers(s, x);
      ConcatMapMembers(txs, TxLines, x);
      if x in s {
        var i :| 0 <= i < |txs| && x in TxLines(txs[i]);
        ConcatMapMembers(txs[i].metadata, RecordLines, x);
        var j :| 0 <= j < |txs[i].metadata| && x in RecordLines(txs[i].metadata[j]);
        NonEmptyTrimmedMembers(Split(txs[i].metadata[j].text, Newline), x);
      }
      if IsDumpLine(txs, x) {
        var i, j, l :|
          0 <= i < |txs| && 0 <= j < |txs[i].metadata| && txs[i].metadata[j].text != "" &&
          l in Split(txs[i].metadata[j].text, Newline) && Trim(l) == x;
        NonEmptyTrimmedMembers(Split(txs[i].metadata[j].text, Newline), x);
        assert x in RecordLines(txs[i].metadata[j]);
        ConcatMapMembers(txs[i].metadata, RecordLines, x);
        assert x in TxLines(txs[i]);
        ConcatMapMembers(txs, TxLines, x);
      }
    }
  }

  /** No dump line holds a newline: each is a trimmed piece of a newline split. */
  lemma {:induction false} DumpLinesHaveNoNewline(txs: seq<TxMetadata>)
    ensures forall x :: x in DumpLines(txs) ==> Newline !in x
  {
    forall x | x in DumpLines(txs) ensures Newline !in x {
      ConcatMapMembers(txs, TxLines, x);
      var i :| 0 <= i < |txs| && x in TxLines(txs[i]);
      ConcatMapMembers(txs[i].metadata, RecordLines, x);
      var j :| 0 <= j < |txs[i].metadata| && x in RecordLines(txs[i].metadata[j]);
      var lines := Split(txs[i].metadata[j].text, Newline);
      NonEmptyTrimmedMembers(lines, x);
      var l :| l in lines && Trim(l) == x;
      SplitPiecesLackSeparator(txs[i].metadata[j].text, Newline);
      TrimSpec(l);
    }
  }

  /** Splitting a non-empty dump on newlines gives back its unique lines. */
  lemma UniqueDumpSplitsBack(txs: seq<TxMetadata>)
    requires Dedup(DumpLines(txs)) != []
    ensures Split(Join(Dedup(DumpLines(txs)), Newline), Newline) == Dedup(DumpLines(txs))
  {
    var r := Dedup(DumpLines(txs));
    DumpLinesHaveNoNewline(txs);
    forall k | 0 <= k < |r| ensures Newline !in r[k] {
      DedupMembers(DumpLines(txs), r[k]);
    }
    SplitJoin(r, Newline);
  }
}

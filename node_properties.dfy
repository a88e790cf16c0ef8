/** What `extract_result` promises: which test is read, when a record is
    found, what it holds, which failure is reported first, and that a record
    written into payloads in the log's field layout is read back as itself. */
module NodeResultProperties {
  import opened Wrappers
  import opened Text
  import opened Timestamp
  import opened Tree
  import opened NodeResult

  /** A record is found exactly when both payloads have all ten fields and
      both time fields are real timestamps; it then holds the product and
      part number fields as written, the times whose rendering is the text of
      the time fields, and the pass flag "1" exactly for status "00". */
  lemma {:induction false} ExtractPairFound(batchData: string, testData: string)
    ensures var b := Split(batchData, '|');
            var t := Split(testData, '|');
            ExtractPair(batchData, testData).Found?
            <==> |b| >= 10 && |t| >= 10 && ParseTimestamp(t[2]).Some? && ParseTimestamp(t[9]).Some?
    ensures var b := Split(batchData, '|');
            var t := Split(testData, '|');
            var r := ExtractPair(batchData, testData);
            r.Found? ==>
              && r.result.product == b[0] && r.result.partNumber == b[9]
              && FormatTimestamp(r.result.start) == t[2]
              && FormatTimestamp(r.result.end) == t[9]
              && (r.result.pass == "1" <==> t[1] == "00")
              && (r.result.pass == "1" || r.result.pass == "0")
  {
    var t := Split(testData, '|');
    if ExtractPair(batchData, testData).Found? {
      FormatParse(t[2]);
      FormatParse(t[9]);
    }
  }

  /** A batch payload with fewer than nine '|' has no part number field, and
      that is reported whatever the test says. */
  lemma {:induction false} ShortBatchFails(batchData: string, testData: string)
    requires Occurrences(batchData, '|') < 9
    ensures ExtractPair(batchData, testData) == Failed(MissingField(Batch, 9))
  {
  }

  /** With a complete batch, a test payload with fewer than two '|' lacks the
      start field, and one with fewer than nine lacks the end field (once the
      start time has been read). */
  lemma {:induction false} ShortTestFails(batchData: string, testData: string)
    requires Occurrences(batchData, '|') >= 9
    ensures Occurrences(testData, '|') < 2 ==> ExtractPair(batchData, testData) == Failed(MissingField(Test, 2))
    ensures Occurrences(testData, '|') >= 2 && Occurrences(testData, '|') < 9
            && ParseTimestamp(Split(testData, '|')[2]).Some?
            ==> ExtractPair(batchData, testData) == Failed(MissingField(Test, 9))
  {
  }

  /** The start time is checked before the end field is looked for: a bad
      start time is reported even when the end field is missing too. */
  lemma {:induction false} BadStartReportedFirst(batchData: string, testData: string)
    requires Occurrences(batchData, '|') >= 9 && Occurrences(testData, '|') >= 2
    requires ParseTimestamp(Split(testData, '|')[2]).None?
    ensures ExtractPair(batchData, testData) == Failed(BadTimestamp(2))
  {
  }

  /** With both fields present and a good start time, an end time that does
      not parse fails the extraction on the tenth test field. */
  lemma {:induction false} BadEndFails(batchData: string, testData: string)
    requires Occurrences(batchData, '|') >= 9 && Occurrences(testData, '|') >= 9
    requires ParseTimestamp(Split(testData, '|')[2]).Some?
    requires ParseTimestamp(Split(testData, '|')[9]).None?
    ensures ExtractPair(batchData, testData) == Failed(BadTimestamp(9))
  {
  }

  /** Writing a record into payloads in the log's layout (product name first
      and part number tenth in the batch; status second, start third and end
      tenth in the test) and reading them back gives the record. */
  lemma {:induction false} ExtractRoundTrip(u: UutResult, batchFields: seq<string>, testFields: seq<string>)
    requires |batchFields| >= 10 && |testFields| >= 10
    requires forall i :: 0 <= i < |batchFields| ==> '|' !in batchFields[i]
    requires forall i :: 0 <= i < |testFields| ==> '|' !in testFields[i]
    requires batchFields[0] == u.product && batchFields[9] == u.partNumber
    requires ValidDateTime(u.start) && InPivotRange(u.start.year) && testFields[2] == FormatTimestamp(u.start)
    requires ValidDateTime(u.end) && InPivotRange(u.end.year) && testFields[9] == FormatTimestamp(u.end)
    requires u.pass == PassFlag(testFields[1])
    ensures ExtractPair(Join(batchFields, '|'), Join(testFields, '|')) == Found(u)
  {
    SplitJoin(batchFields, '|');
    SplitJoin(testFields, '|');
    ParseFormat(u.start);
    ParseFormat(u.end);
  }

  /** The first batch that has a test decides the outcome, from its first
      test alone: earlier batches have no test, later ones are not read. */
  lemma {:induction false} FirstTestDecides(root: Node, i: nat)
    requires i < |root.children| && root.children[i].children != []
    requires forall j :: 0 <= j < i ==> root.children[j].children == []
    ensures ExtractResult(root) == ExtractPair(root.children[i].data, root.children[i].children[0].data)
  {
    FirstTestedAt(root.children, i);
  }

  /** The search for a tested batch stops at the first one. */
  lemma {:induction false} FirstTestedAt(batches: seq<Node>, i: nat)
    requires i < |batches| && batches[i].children != []
    requires forall j :: 0 <= j < i ==> batches[j].children == []
    ensures FirstTested(batches) == Some(i)
    decreases i
  {
    if i > 0 {
      assert batches[0].children == [];
      assert batches[1..][i - 1] == batches[i];
      forall j | 0 <= j < i - 1
        ensures batches[1..][j].children == []
      {
        assert batches[1..][j] == batches[j + 1];
      }
      FirstTestedAt(batches[1..], i - 1);
    }
  }

  /** Dropping the batches after the first one with a test, and the tests
      after its first, leaves the outcome as it was. */
  lemma {:induction false} LaterEntriesIgnored(root: Node, i: nat)
    requires i < |root.children| && root.children[i].children != []
    requires forall j :: 0 <= j < i ==> root.children[j].children == []
    ensures var b := root.children[i];
            var trimmed := root.(children := root.children[..i] + [b.(children := b.children[..1])]);
            ExtractResult(trimmed) == ExtractResult(root)
  {
    var b := root.children[i];
    var trimmed := root.(children := root.children[..i] + [b.(children := b.children[..1])]);
    FirstTestDecides(root, i);
    FirstTestDecides(trimmed, i);
  }
}

/** The result extractor (`extract_result` in node.py): reads one unit's test
    outcome off the parsed tree.

    The root's children are batches and a batch's children are tests. The
    first batch (in document order) that has a test decides the outcome, and
    only its first test is read. Both payloads are split on '|': the batch
    gives the product name (field 0) and the part number (field 9), the test
    gives the status (field 1), the start time (field 2) and the end time
    (field 9). The source collapses every failure into `None`; here a log with
    no test is `NoData`, and a missing field or a bad timestamp is a `Failed`
    outcome that names the first failure Python would raise. */
module NodeResult {
  import opened Wrappers
  import opened Text
  import opened Timestamp
  import opened Tree

  const ProductField: nat := 0
  const PartNumberField: nat := 9
  const StatusField: nat := 1
  const StartField: nat := 2
  const EndField: nat := 9
  /** The status a passing test records. */
  const PassStatus: string := "00"

  /** Which payload a field was read from. */
  datatype Payload = Batch | Test

  /** Why no record could be read: the first exception Python would raise. */
  datatype ExtractError =
    | MissingField(payload: Payload, field: nat)   // IndexError
    | BadTimestamp(field: nat)                     // ValueError from strptime

  /** The five values inserted for a unit, in the source's order. */
  datatype UutResult = UutResult(product: string, partNumber: string, start: DateTime, end: DateTime, pass: string)

  datatype Extraction = NoData | Failed(error: ExtractError) | Found(result: UutResult)

  /** The index of the first batch that has a test, if any. */
  function FirstTested(batches: seq<Node>): (r: Option<nat>)
    ensures r.Some? ==> r.value < |batches| && batches[r.value].children != []
                        && forall i :: 0 <= i < r.value ==> batches[i].children == []
    ensures r.None? ==> forall i :: 0 <= i < |batches| ==> batches[i].children == []
    decreases |batches|
  {
    if batches == [] then None
    else if batches[0].children != [] then Some(0)
    else
      var r := FirstTested(batches[1..]);
      if r.Some? then
        assert forall i :: 1 <= i < r.value + 1 ==> batches[i] == batches[1..][i - 1];
        Some(r.value + 1)
      else
        assert forall i :: 1 <= i < |batches| ==> batches[i] == batches[1..][i - 1];
        None
  }

  /** The status to record: "1" for a pass, "0" for anything else. */
  function PassFlag(status: string): string {
    if status == PassStatus then "1" else "0"
  }

  /** The record read from a batch payload and its first test's payload,
      checking in the order Python evaluates the result list: the part
      number, the start field, the start time, the end field, the end time. */
  function ExtractPair(batchData: string, testData: string): (r: Extraction)
    ensures !r.NoData?
  {
    var b := Split(batchData, '|');
    var t := Split(testData, '|');
    if |b| <= PartNumberField then Failed(MissingField(Batch, PartNumberField))
    else if |t| <= StartField then Failed(MissingField(Test, StartField))
    else if ParseTimestamp(t[StartField]).None? then Failed(BadTimestamp(StartField))
    else if |t| <= EndField then Failed(MissingField(Test, EndField))
    else if ParseTimestamp(t[EndField]).None? then Failed(BadTimestamp(EndField))
    else
      Found(UutResult(b[ProductField], b[PartNumberField], ParseTimestamp(t[StartField]).value,
                      ParseTimestamp(t[EndField]).value, PassFlag(t[StatusField])))
  }

  /** `extract_result(root)`. */
  function ExtractResult(root: Node): (r: Extraction)
    ensures r.NoData? <==> forall i :: 0 <= i < |root.children| ==> root.children[i].children == []
  {
    match FirstTested(root.children)
    case None => NoData
    case Some(i) => ExtractPair(root.children[i].data, root.children[i].children[0].data)
  }
}

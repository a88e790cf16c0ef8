# ICT log parser and result extractor

ICT (in-circuit test) stations write one log file per tested unit. The log
format is a brace grammar:

- `{name|` opens a node;
- the text up to the matching `}` is the node's payload, `|`-separated fields;
- nested `{...}` blocks are its children.

`ict_log_watcher/parsing/log_file.py` turns that text into a tree under a node
it is given: `file_to_tree` writes under that node, and the program's entry
point passes it a fresh `Node('root')`. `ict_log_watcher/parsing/node.py` then reads one unit's test
outcome off the tree. That outcome has five values:

- the product name;
- the part number;
- the start time;
- the end time;
- a pass flag.

This project models both files and proves what they do.

## Modules

- **`Text`** (text.dfy): the string operations the source uses:
  - `str.strip()`, with Python's whitespace set;
  - `str.split('|')` and its inverse, `'|'.join`;
  - the decimal rendering of a count.
- **`Timestamp`** (timestamp.dfy): `datetime.strptime(s, "%y%m%d%H%M%S")`.
  - The two-digit year uses Python's pivot: 69-99 is 19xx and 00-68 is 20xx.
  - It has the inverse rendering.
- **`Tree`** (tree.dfy): the anytree hierarchy, as an arena class.
  - `class Tree` has a field `nodes: seq<Entry>`.
  - Each entry holds a name, a payload, its children's indices in insertion
    order, and its parent.
  - `AddChild` and `SetData` change it in place and keep it a forest.
  - `View` reads any subtree back as a `Node` value.
- **`LogFile`** (log_file.dfy): the parser.
  - `class IctLogParser` holds `logStr`, the unconsumed text, and mirrors the
    source's methods.
  - `BuildTree` is the source's recursive, loop-driven method. `OpenChild` is
    its `{` branch, so the two methods call each other.
  - Both methods are proved against the pure function `ParseFrame(s, counts,
    buffer)`. It gives what one `build_tree` frame produces:
    - the children it creates, as values;
    - their raw names;
    - the payload it stores, if any;
    - the text it hands back to its caller.
- **`LogFileProperties`** (log_file_properties.dfy): what the parse promises,
  stated over `ParseFrame` and `ParseLog`:
  - how siblings are named;
  - where payload text goes;
  - what unbalanced braces do;
  - a round trip: a forest written in the grammar is read back as itself.
  - any balanced text is read to its end, and a frame opened inside it
    stops at its matching `}`.
- **`NodeResult`** and **`NodeResultProperties`** (node.dfy,
  node_properties.dfy): `extract_result`, and what it reads and reports.

### Behaviour of the source worth knowing

- **An unclosed `{` is not an error.** The end of the text closes every open
  node (`UnclosedNodeAccepted`).
- **A stray `}` at top level ends the parse.** Everything after it is ignored
  (`StrayCloseTruncates`).
- **Sibling names are disambiguated but not always unique.** Repeats of a raw
  name get `_1`, `_2`, and so on. A suffixed name is not checked against the
  other raw names, so `{x_1|}{x|}{x|}` yields two children named `x_1`
  (`NameCollision`).
- **`extract_result` swallows every failure and returns `None`.** The model
  returns an `Extraction` instead:
  - `NoData` when no batch has a test;
  - `Failed(e)` naming the first exception Python would raise: the missing
    field, or the timestamp that does not parse;
  - `Found(record)` otherwise.

  For timestamp fields of twelve ASCII digits, the record is the same one
  Python returns, and the same inputs fail.

## Model

| member | source | states |
|---|---|---|
| LogFile.IctLogParser.constructor | ict_log_watcher/parsing/log_file.py:20-32 | The parser starts with the whole log text unconsumed. The file read itself is left out. |
| LogFile.NameSplit | ict_log_watcher/parsing/log_file.py:49-53 | The name is the text up to the first pipe. The remainder is a suffix of the text. Its partner lemmas are `NameSplitNoPipe`, `NameSplitJoin` and `NameSplitOf`. |
| LogFile.Count | ict_log_watcher/parsing/log_file.py:78 | `sibling_count.get(name, 0)`: the stored count for a name seen before, 0 for a name never seen. |
| LogFile.UniqueName | ict_log_watcher/parsing/log_file.py:79 | The disambiguated name. Its properties are proved for all inputs by `UniqueNameSpec` and `UniqueNameDistinct`: it begins with the raw name and equals it exactly when the count is 0; otherwise an underscore and the count's decimal digits follow; different counts give different names. |
| LogFile.ParseFrame | ict_log_watcher/parsing/log_file.py:101-123 | One `build_tree` frame, as a function of the text, the sibling counts and the buffer. It never hands back more text than it was given, and it records one raw name per child. `BuildTree` is proved to do exactly this. `ParseFrameSuffix`, `FrameNames`, `NoCloseReadsAll` and the round-trip lemmas state what it promises. |
| LogFile.ParseLog | ict_log_watcher/main.py:38-40 | A fresh `Node('root')` filled by `file_to_tree`: the root keeps its name and its children are the whole-log frame's children. `WellFormedLogRoundTrip` is its inverse on writable forests. |
| Text.Strip | ict_log_watcher/parsing/log_file.py:116 | `str.strip()`: the result has no surrounding whitespace and is no longer than the input. `StripSpec` shows it is the slice of the input that starts after the leading whitespace, with only whitespace outside that slice. `StripFixedPoints` shows it changes exactly the strings that have surrounding whitespace. |
| Text.NatToString | ict_log_watcher/parsing/log_file.py:79 | `str(count)`: non-empty decimal digits, with a leading zero only for 0. `NatToStringRoundTrip` reads it back as the count. |
| LogFile.NameSplitNoPipe | ict_log_watcher/parsing/log_file.py:49-53 | The extracted node name never contains the pipe separator. A text with no pipe is all name, and nothing remains after it. Braces are part of the name. |
| LogFile.NameSplitJoin | ict_log_watcher/parsing/log_file.py:49-53 | When the text holds a pipe, the name, that first pipe and the remainder spell the text exactly, so nothing is lost or reordered. |
| LogFile.NameSplitOf | ict_log_watcher/parsing/log_file.py:49-53 | A pipe-free name followed by a pipe and any text is read back as exactly that name and that text. |
| LogFile.IctLogParser.ExtractNodeName | ict_log_watcher/parsing/log_file.py:34-53 | The character loop yields the name split (its properties are the three rows above). The remainder skips the pipe, and is empty when no pipe was found. |
| LogFile.UniqueNameSpec | ict_log_watcher/parsing/log_file.py:78-79 | A node name starts with its raw name. It equals the raw name exactly when the count is 0. Otherwise it is the raw name, '_' and decimal digits whose value is the count. |
| LogFile.UniqueNameDistinct | ict_log_watcher/parsing/log_file.py:78-79 | Different counts give different names for the same raw name. |
| LogFile.IctLogParser.CreateUniqueNode | ict_log_watcher/parsing/log_file.py:58-81 | The parent gains one new last child, with the disambiguated name and an empty payload. The arena stays a forest. The raw name's count goes up by one, and no other count changes. |
| Tree.Tree.AddChild | ict_log_watcher/parsing/log_file.py:81 | `Node(name, parent=p, data="")` appends a fresh entry. It is listed last among p's children and changes nothing else, and the arena stays a forest. |
| Tree.WithChildWellFormed | ict_log_watcher/parsing/log_file.py:81 | Attaching a new last child keeps every parent/child link consistent and every child list in insertion order. |
| Tree.Tree.SetData | ict_log_watcher/parsing/log_file.py:116 | Assigning a node's payload changes only that payload. |
| LogFile.IctLogParser.StoreData | ict_log_watcher/parsing/log_file.py:121-122 | A frame's non-empty buffer, stripped, replaces its node's payload. An empty buffer leaves the payload as it was. |
| LogFile.IctLogParser.BuildTree | ict_log_watcher/parsing/log_file.py:86-123 | After the call, the parent's subtree is its old subtree plus everything `ParseFrame` says the frame builds: the children in order and the payload. The text it returns is the remainder `ParseFrame` gives. No other existing node changes, the parent keeps its own parent, and the arena stays a forest. Every node the call creates hangs under some node, so it leaves no stray roots. |
| LogFile.IctLogParser.OpenChild | ict_log_watcher/parsing/log_file.py:109-112 | After a `{`, it reads the raw name and creates the child under the parent with the current count. A nested frame fills that child. It returns the increased counts, and leaves the nested frame's remainder as the text to read. Every node it creates hangs under some node. |
| LogFile.FileToTree | ict_log_watcher/parsing/log_file.py:129-131 | The given root gains exactly the children and payload that `ParseFrame` reads from the whole log with fresh counts. No other existing node changes, and every node it creates hangs under some node. |
| LogFile.ParseFrameSuffix | ict_log_watcher/parsing/log_file.py:105-118 | Every frame hands back a suffix of the text it was given. |
| LogFileProperties.BalancedCloses | ict_log_watcher/parsing/log_file.py:105-118 | On any balanced text followed by `}`, the frame stops right after that `}` and hands back exactly the text behind it. This holds for any sibling counts and buffer. Balanced text is built from payload characters other than braces and node blocks. A node block is `{`, a name with no bar in it, a bar, a balanced body and `}`. |
| LogFileProperties.BalancedReadsAll | ict_log_watcher/parsing/log_file.py:105-123 | On any balanced text with nothing after it, the frame reads the whole text and nothing is left over. |
| LogFileProperties.NoCloseReadsAll | ict_log_watcher/parsing/log_file.py:105-123 | On a text with no `}`, every frame and every nested frame runs to the end, and nothing is left over. |
| LogFileProperties.FrameNames | ict_log_watcher/parsing/log_file.py:102-111 | Every frame names its children in document order by one rule: each child gets its raw name with the count that raw name had at that point in the frame. |
| LogFileProperties.NamedAfterAt | ict_log_watcher/parsing/log_file.py:78-80 | The k-th child's name is its raw name with count = (the frame's starting count for it) + (its uses among the earlier children). |
| LogFileProperties.FirstUseKeepsName | ict_log_watcher/parsing/log_file.py:78-79 | A raw name met for the first time in a frame is used unchanged as the node name. |
| LogFileProperties.SameRawDifferentNames | ict_log_watcher/parsing/log_file.py:78-80 | Two children of one frame with the same raw name always get different names. |
| LogFileProperties.RepeatedRawNames | ict_log_watcher/parsing/log_file.py:78-80 | In a frame where every child has raw name x, the children are named x, x_1, x_2, ... in document order. |
| LogFileProperties.NameCollision | ict_log_watcher/parsing/log_file.py:78-79 | Three empty nodes with raw names x_1, x, x yield children named x_1, x, x_1: the suffix is not checked against other raw names. |
| LogFileProperties.PlainPrefix | ict_log_watcher/parsing/log_file.py:119-120 | Brace-free text is appended to the buffer as it is, with nothing else changing. |
| LogFileProperties.PlainCloseFrame | ict_log_watcher/parsing/log_file.py:114-118 | A frame of plain text closed by `}` has no children. It stores the stripped text if there is any, and hands back exactly the text after the `}`. |
| LogFileProperties.PlainEndFrame | ict_log_watcher/parsing/log_file.py:121-123 | A frame of plain text running to the end of the log stores its stripped text and hands back nothing. |
| LogFileProperties.OpenFrame | ict_log_watcher/parsing/log_file.py:109-112 | An opening brace, a pipe-free name, a pipe and a body: the frame gains a child named with its count for that name and filled by a nested frame over body. It goes on after the nested frame's remainder, with that name counted once more. |
| LogFileProperties.LeafFrame | ict_log_watcher/parsing/log_file.py:109-118 | An opened node holding plain text p and then a closing brace becomes a childless child whose payload is p stripped. |
| LogFileProperties.UnclosedNodeAccepted | ict_log_watcher/parsing/log_file.py:121-123 | An opened node holding non-empty plain text p, with no closing brace, still gives root → name with payload strip(p). An unbalanced log is not reported. |
| LogFileProperties.StrayCloseTruncates | ict_log_watcher/parsing/log_file.py:114-118 | A `}` with no open node ends the whole parse: the root keeps the text before it, and nothing after it is read. |
| LogFileProperties.ChildTextExcluded | ict_log_watcher/parsing/log_file.py:109-122 | In a frame holding text x, a nested node b holding text y, text z and a closing brace, the nested node takes y. The frame's payload is strip(x + z): the text on both sides of the child is joined before stripping. |
| LogFileProperties.NestedTextExcluded | ict_log_watcher/parsing/log_file.py:109-122 | The whole-log form of the previous row: root → a (payload strip(x + z)) → b (payload strip(y)). |
| LogFileProperties.NodeRoundTrip | ict_log_watcher/parsing/log_file.py:109-118 | A writable node written in the grammar (opening brace, name, pipe, payload, children, closing brace) comes back as the same node when its name is uncounted. The frame continues right after its `}`. |
| LogFileProperties.ForestRoundTrip | ict_log_watcher/parsing/log_file.py:105-118 | Writable siblings with distinct names that the frame has not counted yet, written one after another and followed by the end of the log or a `}`, are read back as themselves, in order and under the names they were written with. The frame then ends there: it keeps its buffer and hands back the text after that `}`. |
| LogFileProperties.WellFormedLogRoundTrip | ict_log_watcher/parsing/log_file.py:86-123 | Writing any writable forest with distinct sibling names and parsing it gives back exactly that forest under the root, and consumes the whole text. |
| Text.Split | ict_log_watcher/parsing/node.py:12 | Splitting on the pipe gives one more field than there are separators. No field holds a separator, and joining the fields gives the text back. |
| Text.SplitJoin | ict_log_watcher/parsing/node.py:14 | Splitting the join of separator-free fields gives those fields back. |
| Text.StripSpec | ict_log_watcher/parsing/log_file.py:116 | `strip()` removes only whitespace, and only at the two ends. The result is one slice of the input, starting after the leading whitespace, and every character before and after that slice is whitespace. |
| Text.StripFixedPoints | ict_log_watcher/parsing/log_file.py:116 | `strip()` leaves a string unchanged exactly when it has no leading or trailing whitespace. |
| Text.NatToStringRoundTrip | ict_log_watcher/parsing/log_file.py:79 | The decimal rendering of the count used in the `_k` suffix is all digits, and reads back as the count. |
| Text.NatToStringInjective | ict_log_watcher/parsing/log_file.py:79 | Different counts are rendered differently. |
| Timestamp.ParseTimestamp | ict_log_watcher/parsing/node.py:18-19 | An accepted timestamp is twelve digits naming a real date-time (leap years, month lengths) in the pivot range 1969-2068. |
| Timestamp.ParseFormat | ict_log_watcher/parsing/node.py:18-19 | Every date-time in the pivot range is parsed back from its `%y%m%d%H%M%S` rendering. |
| Timestamp.FormatParse | ict_log_watcher/parsing/node.py:18-19 | Every accepted timestamp is exactly the rendering of the date-time it yields. |
| Timestamp.SampleStartTime | ict_log_watcher/parsing/node.py:18 | "250601090000" is 2025-06-01 09:00:00. |
| Timestamp.MonthThirteenRefused | ict_log_watcher/parsing/node.py:18 | A month 13 is refused. |
| Timestamp.LeapDay | ict_log_watcher/parsing/node.py:18 | 29 February parses in 2024 and is refused in 2025. |
| NodeResult.FirstTested | ict_log_watcher/parsing/node.py:10-15 | The search finds the first batch (in document order) that has a test, with no earlier batch having one. "None" means no batch has a test. |
| NodeResult.ExtractResult | ict_log_watcher/parsing/node.py:8-23 | The outcome is "no data" exactly when no batch has a test. |
| NodeResult.ExtractPair | ict_log_watcher/parsing/node.py:12-21 | Once a test is found, the outcome is a record or a named failure, never "no data". |
| NodeResultProperties.ExtractPairFound | ict_log_watcher/parsing/node.py:12-20 | A record is found exactly when both payloads have ≥10 fields and test fields 2 and 9 are valid timestamps. It then holds batch fields 0 and 9, times that render to test fields 2 and 9, and pass flag "1" exactly when status field 1 is "00" (else "0"). |
| NodeResultProperties.ShortBatchFails | ict_log_watcher/parsing/node.py:17 | A batch payload with fewer than ten fields fails on the part number, whatever the test holds. |
| NodeResultProperties.ShortTestFails | ict_log_watcher/parsing/node.py:18-19 | With a complete batch, a test payload with under three fields fails on the start field. One with three to nine fields and a good start fails on the end field. |
| NodeResultProperties.BadStartReportedFirst | ict_log_watcher/parsing/node.py:18-19 | A bad start time is reported before a missing end field. |
| NodeResultProperties.BadEndFails | ict_log_watcher/parsing/node.py:19 | When both records have their fields and the start time parses, an end time that does not parse fails the extraction on the tenth test field. |
| NodeResultProperties.ExtractRoundTrip | ict_log_watcher/parsing/node.py:12-20 | Any record written into payloads in the log's field layout is read back as itself. |
| NodeResultProperties.FirstTestDecides | ict_log_watcher/parsing/node.py:10-15 | The outcome is decided by the first test of the first batch that has one. |
| NodeResultProperties.LaterEntriesIgnored | ict_log_watcher/parsing/node.py:10-15 | Removing the later batches, and the later tests of the deciding batch, leaves the outcome unchanged. |

## Left out

- Reading the log file (log_file.py:29-32) is left out. The parser is constructed from the text, and `FileToTree` takes the text instead of a path.
- The logger and the `try`/`except` blocks that log and return `None` (log_file.py:54-56, 82-84, 124-126; node.py:22-23) are left out of the parser.
  - No operation the parser model performs can raise: splitting and slicing are total on the text.
  - The model also never passes a missing parent.
- `extract_result`'s `None` is replaced by the `Extraction` outcome, which carries the case Python would have logged.
- `build_tree` called with its default `parent_node=None` is left out. The model always writes under an existing node: the source's only caller, `file_to_tree`, passes a node.
- `sibling_count` is a dict that `_create_unique_node` mutates through its argument. The model threads it as a value that `CreateUniqueNode` returns. Aliasing is impossible here, because the dict is local to one `build_tree` frame.
- The anytree library is left out. Its `Node` objects are modelled by the `Tree` arena and read as values through `View`. Attributes other than `name`, `data`, `parent` and `children` are not modelled.
- Python's recursion limit is left out, and the model has no depth bound. In the source, a log nested deeper than the limit raises `RecursionError`. The deepest frame catches it (log_file.py:124-126) and returns `None`. The enclosing frame then stores `None` as the remaining text (line 112), and its next loop test fails on `len(None)` (line 105). That failure is caught the same way, and so on up every frame. The parse stops there without any error reaching the caller, and the tree keeps only what was built before that depth.
- Timestamp.ParseTimestamp: accepts exactly twelve ASCII digits, where it agrees with `strptime(s, "%y%m%d%H%M%S")`. It refuses other inputs that `strptime` accepts, and reads them as a failure:
  - Unicode digits;
  - a space-padded day, such as `"2506 1090000"` (2025-06-01 09:00:00);
  - fields with one-digit parts, which make the text shorter than twelve characters, such as `"2561090000"` (2025-06-10 09:00:00).
- `extract_failures` (node.py:27-28) is an empty stub in the source and has nothing to model.
- The watcher, the database sink, the configuration and the program's entry point are not part of this model. Neither is the repeatability of `extract_result`: it is a function of the tree alone.

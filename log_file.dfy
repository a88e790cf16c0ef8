/** The ICT log parser (`IctLogParser` in log_file.py).

    A log is a brace/pipe text: `{name|` opens a child of the node being
    built, `}` closes that node, and every other character is payload of the
    node being built. The parser keeps the unconsumed text in `logStr` and
    removes one character per loop step; each recursive `BuildTree` frame has
    its own text buffer and its own count of the raw names already used among
    the children it creates, so a repeated raw name gets the suffix `_1`,
    `_2`, ...

    `ParseFrame` states, as a function of the text, what one frame does: the
    children it creates (as values), their raw names, the payload it stores
    into its node (None: the node's payload is left as it was) and the text it
    leaves for its caller. `BuildTree` is proved to write exactly that into the
    arena. */
module LogFile {
  import opened Wrappers
  import opened Text
  import opened Tree

  // ---------------------------------------------------------------------------
  // Node names

  /** `_extract_node_name`: the name is everything up to the first '|'; the
      rest is what follows that '|', or nothing when there is no '|'. */
  function NameSplit(s: string): (r: (string, string))
    ensures IsSuffix(r.1, s)
    decreases |s|
  {
    if s == [] then ("", "")
    else if s[0] == '|' then ("", s[1..])
    else
      var t := NameSplit(s[1..]);
      SuffixTransitive(t.1, s[1..], s);
      ([s[0]] + t.0, t.1)
  }

  /** The name holds no '|'; without a '|' in the text the name is the
      whole text and nothing remains. The name stops only at '|': braces are
      part of it. */
  lemma {:induction false} NameSplitNoPipe(s: string)
    ensures '|' !in NameSplit(s).0
    ensures '|' !in s ==> NameSplit(s) == (s, "")
    decreases |s|
  {
    if s != [] && s[0] != '|' {
      NameSplitNoPipe(s[1..]);
      assert s == [s[0]] + s[1..];
    }
  }

  /** With a '|' in the text, the name, that '|' and the rest spell the text. */
  lemma {:induction false} NameSplitJoin(s: string)
    requires '|' in s
    ensures NameSplit(s).0 + "|" + NameSplit(s).1 == s
    decreases |s|
  {
    if s[0] != '|' {
      NameSplitJoin(s[1..]);
      var t := NameSplit(s[1..]);
      calc {
        NameSplit(s).0 + "|" + NameSplit(s).1;
        [s[0]] + t.0 + "|" + t.1;
        [s[0]] + (t.0 + "|" + t.1);
        [s[0]] + s[1..];
      }
    } else {
      assert s == "|" + s[1..];
    }
  }

  /** A name without '|' followed by '|' is read back exactly. */
  lemma {:induction false} NameSplitOf(name: string, rest: string)
    requires '|' !in name
    ensures NameSplit(name + "|" + rest) == (name, rest)
    decreases |name|
  {
    if name == [] {
      assert name + "|" + rest == "|" + rest;
    } else {
      NameSplitOf(name[1..], rest);
      assert (name + "|" + rest)[1..] == name[1..] + "|" + rest;
      assert [name[0]] + name[1..] == name;
    }
  }

  /** `sibling_count.get(name, 0)`. */
  function Count(counts: map<string, nat>, name: string): (r: nat)
    ensures name in counts ==> r == counts[name]
    ensures name !in counts ==> r == 0
  {
    if name in counts then counts[name] else 0
  }

  /** The name given to a node whose raw name was already used `count` times
      among its siblings. */
  function UniqueName(raw: string, count: nat): string {
    if count > 0 then raw + "_" + NatToString(count) else raw
  }

  /** The raw name itself the first time; after that the raw name, an
      underscore and the count in decimal, which can be read back. */
  lemma {:induction false} UniqueNameSpec(raw: string, count: nat)
    ensures var r := UniqueName(raw, count);
            && |r| >= |raw| && r[..|raw|] == raw
            && (count == 0 <==> r == raw)
            && (count > 0 ==> |r| > |raw| + 1 && r[|raw|] == '_'
                              && AllDigits(r[|raw| + 1..]) && DecimalValue(r[|raw| + 1..]) == count)
  {
    NatToStringRoundTrip(count);
    if count > 0 {
      var r := raw + "_" + NatToString(count);
      assert r[|raw| + 1..] == NatToString(count);
    }
  }

  /** Names given to the same raw name differ when their counts differ. */
  lemma {:induction false} UniqueNameDistinct(raw: string, c1: nat, c2: nat)
    requires c1 != c2
    ensures UniqueName(raw, c1) != UniqueName(raw, c2)
  {
    UniqueNameSpec(raw, c1);
    UniqueNameSpec(raw, c2);
  }

  /** Number of times `name` occurs in `names`. */
  function Uses(names: seq<string>, name: string): nat
    decreases |names|
  {
    if names == [] then 0 else (if names[0] == name then 1 else 0) + Uses(names[1..], name)
  }

  // ---------------------------------------------------------------------------
  // What one BuildTree frame does, as a function of the text

  /** The outcome of one frame: the children it created in order, their raw
      names, the payload it stored into its node (None when its buffer stayed
      empty) and the unconsumed text it returns. */
  datatype FrameResult = FrameResult(kids: seq<Node>, raws: seq<string>, data: Option<string>, rest: string)

  /** `if buffer: node.data = buffer.strip()`. */
  function Closing(buffer: string): Option<string> {
    if buffer != "" then Some(Strip(buffer)) else None
  }

  /** The node `n` after a frame has run on it: its payload replaced when the
      frame stored one, the frame's children appended after its own. */
  function Attach(n: Node, f: FrameResult): Node {
    Node(n.name, if f.data.Some? then f.data.value else n.data, n.children + f.kids)
  }

  /** Children created earlier in the same frame, in front of a later outcome. */
  function Prepend(kids: seq<Node>, raws: seq<string>, f: FrameResult): FrameResult {
    FrameResult(kids + f.kids, raws + f.raws, f.data, f.rest)
  }

  /** One `build_tree` frame on text `s`, with the sibling counts and the
      buffer it has so far. */
  function ParseFrame(s: string, counts: map<string, nat>, buffer: string): (r: FrameResult)
    ensures |r.rest| <= |s|
    ensures |r.raws| == |r.kids|
    decreases |s|
  {
    if s == [] then FrameResult([], [], Closing(buffer), [])
    else if s[0] == '{' then
      var raw := NameSplit(s[1..]).0;
      var after := NameSplit(s[1..]).1;
      var c := Count(counts, raw);
      var sub := ParseFrame(after, map[], "");
      var child := Attach(Node(UniqueName(raw, c), "", []), sub);
      var tail := ParseFrame(sub.rest, counts[raw := c + 1], buffer);
      FrameResult([child] + tail.kids, [raw] + tail.raws, tail.data, tail.rest)
    else if s[0] == '}' then FrameResult([], [], Closing(buffer), s[1..])
    else ParseFrame(s[1..], counts, buffer + [s[0]])
  }

  /** Every frame returns a suffix of the text it was given. */
  lemma {:induction false} ParseFrameSuffix(s: string, counts: map<string, nat>, buffer: string)
    ensures IsSuffix(ParseFrame(s, counts, buffer).rest, s)
    decreases |s|, 1
  {
    if s == [] {
    } else if s[0] == '{' {
      OpenSuffix(s, counts, buffer);
    } else if s[0] == '}' {
      TailIsSuffix(s);
    } else {
      PlainSuffix(s, counts, buffer);
    }
  }

  /** The `{` case of `ParseFrameSuffix`: the nested frame's remainder is a
      suffix of the text after the name, and the rest of the frame's of that. */
  lemma {:induction false} OpenSuffix(s: string, counts: map<string, nat>, buffer: string)
    requires s != [] && s[0] == '{'
    ensures IsSuffix(ParseFrame(s, counts, buffer).rest, s)
    decreases |s|, 0
  {
    var raw := NameSplit(s[1..]).0;
    var after := NameSplit(s[1..]).1;
    var sub := ParseFrame(after, map[], "");
    var counts' := counts[raw := Count(counts, raw) + 1];
    var tail := ParseFrame(sub.rest, counts', buffer);
    assert ParseFrame(s, counts, buffer).rest == tail.rest;
    ParseFrameSuffix(after, map[], "");
    ParseFrameSuffix(sub.rest, counts', buffer);
    TailIsSuffix(s);
    SuffixTransitive(after, s[1..], s);
    SuffixTransitive(sub.rest, after, s);
    SuffixTransitive(tail.rest, sub.rest, s);
  }

  /** The plain-character case of `ParseFrameSuffix`. */
  lemma {:induction false} PlainSuffix(s: string, counts: map<string, nat>, buffer: string)
    requires s != [] && s[0] != '{' && s[0] != '}'
    ensures IsSuffix(ParseFrame(s, counts, buffer).rest, s)
    decreases |s|, 0
  {
    var r := ParseFrame(s[1..], counts, buffer + [s[0]]);
    assert ParseFrame(s, counts, buffer).rest == r.rest;
    ParseFrameSuffix(s[1..], counts, buffer + [s[0]]);
    TailIsSuffix(s);
    SuffixTransitive(r.rest, s[1..], s);
  }

  /** The tree `file_to_tree` builds from a log under a fresh `Node('root')`. */
  function ParseLog(text: string): (r: Node)
    ensures r.name == "root" && r.children == ParseFrame(text, map[], "").kids
  {
    Attach(Node("root", "", []), ParseFrame(text, map[], ""))
  }

  // ---------------------------------------------------------------------------
  // The parser

  class IctLogParser {
    /** The text not consumed yet. */
    var logStr: string

    /** The parser over a log's text (the source reads it from a file). */
    constructor (text: string)
      ensures logStr == text
    {
      logStr := text;
    }

    /** `_extract_node_name`. */
    method ExtractNodeName(s: string) returns (nodeName: string, rest: string)
      ensures nodeName == NameSplit(s).0 && rest == NameSplit(s).1
    {
      nodeName := "";
      var remaining := s;
      while |remaining| > 0 && remaining[0] != '|'
        invariant NameSplit(s).0 == nodeName + NameSplit(remaining).0
        invariant NameSplit(s).1 == NameSplit(remaining).1
        decreases |remaining|
      {
        nodeName := nodeName + [remaining[0]];
        remaining := remaining[1..];
      }
      rest := if |remaining| > 0 then remaining[1..] else "";
    }

    /** `_create_unique_node`: a new last child of `parent`, with an empty
        payload and the disambiguated name; the raw name's count goes up by one
        and no other count changes. */
    method CreateUniqueNode(t: Tree, nodeName: string, parent: nat, siblingCount: map<string, nat>)
      returns (node: nat, counts: map<string, nat>)
      requires t.Valid() && parent < |t.nodes|
      modifies t
      ensures t.Valid()
      ensures node == old(|t.nodes|)
      ensures t.nodes == WithChild(old(t.nodes), parent, UniqueName(nodeName, Count(siblingCount, nodeName)))
      ensures counts == siblingCount[nodeName := Count(siblingCount, nodeName) + 1]
    {
      var count := if nodeName in siblingCount then siblingCount[nodeName] else 0;
      var uniqueNodeName := if count > 0 then nodeName + "_" + NatToString(count) else nodeName;
      counts := siblingCount[nodeName := count + 1];
      node := t.AddChild(parent, uniqueNodeName);
    }

    /** `build_tree`: consumes the text of `parent`'s content up to its closing
        '}' (or to the end), writing the children it meets under `parent`, and
        returns the text after that '}'. */
    method BuildTree(t: Tree, parent: nat) returns (rest: string)
      requires t.Valid() && parent < |t.nodes|
      modifies this, t
      ensures t.Valid()
      ensures rest == ParseFrame(old(logStr), map[], "").rest && logStr == rest
      ensures old(|t.nodes|) <= |t.nodes|
      ensures forall j :: 0 <= j < old(|t.nodes|) && j != parent ==> t.nodes[j] == old(t.nodes[j])
      ensures View(t.nodes, parent) == Attach(old(View(t.nodes, parent)), ParseFrame(old(logStr), map[], ""))
      ensures t.nodes[parent].parent == old(t.nodes[parent].parent)
      ensures Attached(t.nodes, old(|t.nodes|))
      decreases |logStr|, 1
    {
      var siblingCount: map<string, nat> := map[];
      var buffer := "";
      ghost var text := logStr;
      ghost var nodes0 := t.nodes;
      ghost var done: seq<Node> := [];
      ghost var doneRaws: seq<string> := [];

      while |logStr| > 0
        invariant t.Valid() && Grown(nodes0, t.nodes, parent, done)
        invariant |logStr| <= |text|
        invariant ParseFrame(text, map[], "") == Prepend(done, doneRaws, ParseFrame(logStr, siblingCount, buffer))
        decreases |logStr|
      {
        ghost var before := logStr;
        ghost var counts := siblingCount;
        ghost var created := t.nodes;
        var ch := logStr[0];
        logStr := logStr[1..];

        if ch == '{' {
          ghost var child: Node, raw: string;
          siblingCount, child, raw := OpenChild(t, parent, siblingCount);
          GrownStep(nodes0, created, t.nodes, parent, done, child);
          OpenStep(ParseFrame(text, map[], ""), done, doneRaws, before, counts, buffer,
                   child, raw, logStr, siblingCount);
          done := done + [child];
          doneRaws := doneRaws + [raw];
        } else if ch == '}' {
          CloseStep(ParseFrame(text, map[], ""), done, doneRaws, before, counts, buffer);
          ViewOfFrame(nodes0, t.nodes, parent, done, ParseFrame(text, map[], ""));
          StoreData(t, parent, buffer);
          buffer := "";
          rest := logStr;
          return;
        } else {
          PlainStep(ParseFrame(text, map[], ""), done, doneRaws, before, counts, buffer);
          buffer := buffer + [ch];
        }
      }
      CloseStep(ParseFrame(text, map[], ""), done, doneRaws, logStr, siblingCount, buffer);
      ViewOfFrame(nodes0, t.nodes, parent, done, ParseFrame(text, map[], ""));
      StoreData(t, parent, buffer);
      rest := logStr;
    }

    /** `if buffer: parent_node.data = buffer.strip()`: a frame's collected
        text, stripped, becomes its node's payload; no text keeps the payload. */
    static method StoreData(t: Tree, parent: nat, buffer: string)
      requires t.Valid() && parent < |t.nodes|
      modifies t
      ensures t.Valid()
      ensures t.nodes == old(t.nodes)[parent := old(t.nodes[parent]).(data :=
                if Closing(buffer).Some? then Closing(buffer).value else old(t.nodes[parent].data))]
    {
      if buffer != "" {
        t.SetData(parent, Strip(buffer));
      }
    }

    /** The `{` branch of `build_tree`, once the `{` is consumed: reads the
        name, creates the child under `parent` and lets a nested frame fill
        it. `child` is the finished child as a value and `raw` its raw name. */
    method OpenChild(t: Tree, parent: nat, siblingCount: map<string, nat>)
      returns (counts: map<string, nat>, ghost child: Node, ghost raw: string)
      requires t.Valid() && parent < |t.nodes|
      modifies this, t
      ensures t.Valid()
      ensures raw == NameSplit(old(logStr)).0
      ensures counts == siblingCount[raw := Count(siblingCount, raw) + 1]
      ensures child == Attach(Node(UniqueName(raw, Count(siblingCount, raw)), "", []),
                              ParseFrame(NameSplit(old(logStr)).1, map[], ""))
      ensures logStr == ParseFrame(NameSplit(old(logStr)).1, map[], "").rest
      ensures old(|t.nodes|) < |t.nodes|
      ensures forall j :: 0 <= j < old(|t.nodes|) && j != parent ==> t.nodes[j] == old(t.nodes[j])
      ensures t.nodes[parent] == old(t.nodes[parent]).(kids := old(t.nodes[parent].kids) + [old(|t.nodes|)])
      ensures View(t.nodes, old(|t.nodes|)) == child
      ensures Attached(t.nodes, old(|t.nodes|))
      decreases |logStr| + 1, 0
    {
      var nodeName, afterName := ExtractNodeName(logStr);
      logStr := afterName;
      var node;
      node, counts := CreateUniqueNode(t, nodeName, parent, siblingCount);
      ghost var attached := t.nodes;
      assert View(attached, node) == Node(UniqueName(nodeName, Count(siblingCount, nodeName)), "", []);
      var _ := BuildTree(t, node);
      child := View(t.nodes, node);
      raw := nodeName;
    }
  }

  /** `file_to_tree`: runs a fresh parser over the text, writing into `root`. */
  method FileToTree(text: string, t: Tree, root: nat)
    requires t.Valid() && root < |t.nodes|
    modifies t
    ensures t.Valid() && old(|t.nodes|) <= |t.nodes|
    ensures forall j :: 0 <= j < old(|t.nodes|) && j != root ==> t.nodes[j] == old(t.nodes[j])
    ensures View(t.nodes, root) == Attach(old(View(t.nodes, root)), ParseFrame(text, map[], ""))
    ensures Attached(t.nodes, old(|t.nodes|))
  {
    var parser := new IctLogParser(text);
    var _ := parser.BuildTree(t, root);
  }

  /** What a frame has done to the arena so far: the old entries other than
      `parent` are untouched, `parent` keeps its name, payload and parent, its
      old children stay first and are followed by new nodes whose views are
      `done`, in order. */
  ghost predicate Grown(nodes0: seq<Entry>, nodes: seq<Entry>, parent: nat, done: seq<Node>) {
    var kids0 := if parent < |nodes0| then nodes0[parent].kids else [];
    KidsAfter(nodes0) && KidsAfter(nodes) && parent < |nodes0| <= |nodes|
    && (forall j :: 0 <= j < |nodes0| && j != parent ==> nodes[j] == nodes0[j])
    && nodes[parent].name == nodes0[parent].name
    && nodes[parent].data == nodes0[parent].data
    && nodes[parent].parent == nodes0[parent].parent
    && |nodes[parent].kids| == |kids0| + |done|
    && nodes[parent].kids[..|kids0|] == kids0
    && ReadAs(nodes, nodes[parent].kids[|kids0|..], |nodes0|, done)
    && Attached(nodes, |nodes0|)
  }

  /** The entries `ids`, all at or after `lo`, read as `done`, in order. */
  ghost predicate ReadAs(nodes: seq<Entry>, ids: seq<nat>, lo: nat, done: seq<Node>) {
    KidsAfter(nodes) && |ids| == |done|
    && forall k :: 0 <= k < |ids| ==> lo <= ids[k] < |nodes| && View(nodes, ids[k]) == done[k]
  }

  /** One `{` step of a frame keeps `Grown`: a child is attached to `parent`
      and a nested frame writes only into that child and new entries. */
  lemma {:induction false} GrownStep(nodes0: seq<Entry>, created: seq<Entry>, nodes: seq<Entry>,
                  parent: nat, done: seq<Node>, child: Node)
    requires Grown(nodes0, created, parent, done)
    requires KidsAfter(nodes) && |created| < |nodes|
    requires forall j :: 0 <= j < |created| && j != parent ==> nodes[j] == created[j]
    requires nodes[parent] == created[parent].(kids := created[parent].kids + [|created|])
    requires View(nodes, |created|) == child
    requires Attached(nodes, |created|)
    ensures Grown(nodes0, nodes, parent, done + [child])
  {
    AttachedStep(created, nodes, |nodes0|, parent);
    var kids0 := nodes0[parent].kids;
    var ks := nodes[parent].kids;
    var ids := created[parent].kids[|kids0|..];
    assert ks[..|kids0|] == kids0 by {
      assert ks[..|kids0|] == created[parent].kids[..|kids0|];
    }
    assert ks[|kids0|..] == ids + [|created|];
    ReadAsStep(created, nodes, ids, |nodes0|, done, child);
  }

  /** A nested frame that writes only at or after the end of `created`, and
      leaves a new child there, keeps what the earlier children read as. */
  lemma {:induction false} ReadAsStep(created: seq<Entry>, nodes: seq<Entry>, ids: seq<nat>, lo: nat,
                                      done: seq<Node>, child: Node)
    requires ReadAs(created, ids, lo, done)
    requires KidsAfter(nodes) && lo <= |created| < |nodes|
    requires forall j :: lo <= j < |created| ==> nodes[j] == created[j]
    requires View(nodes, |created|) == child
    ensures ReadAs(nodes, ids + [|created|], lo, done + [child])
  {
    var ids' := ids + [|created|];
    var done' := done + [child];
    forall k | 0 <= k < |ids'|
      ensures lo <= ids'[k] < |nodes| && View(nodes, ids'[k]) == done'[k]
    {
      if k < |ids| {
        assert ids'[k] == ids[k] && done'[k] == done[k];
        ViewFrame(created, nodes, ids[k]);
      }
    }
  }

  /** After a frame: the arena's view of `parent` is its old view with the new
      children `done` appended, as long as only `parent` among the old entries
      changed, its old children stay first and the new ones read as `done`. */
  lemma {:induction false} ViewOfFrame(nodes0: seq<Entry>, nodes: seq<Entry>, parent: nat, done: seq<Node>, f: FrameResult)
    requires Grown(nodes0, nodes, parent, done)
    requires f.kids == done
    ensures var d := if f.data.Some? then f.data.value else nodes[parent].data;
            var updated := nodes[parent := nodes[parent].(data := d)];
            && KidsAfter(updated)
            && (f.data.None? ==> updated == nodes)
            && |nodes0| <= |updated|
            && (forall j :: 0 <= j < |nodes0| && j != parent ==> updated[j] == nodes0[j])
            && View(updated, parent) == Attach(View(nodes0, parent), f)
            && updated[parent].parent == nodes0[parent].parent
            && Attached(updated, |nodes0|)
  {
    var d := if f.data.Some? then f.data.value else nodes[parent].data;
    var kids0 := nodes0[parent].kids;
    var updated := nodes[parent := nodes[parent].(data := d)];
    var v := View(updated, parent);
    var w := View(nodes0, parent).children + done;
    forall k | 0 <= k < |w|
      ensures v.children[k] == w[k]
    {
      if k < |kids0| {
        assert nodes[parent].kids[k] == kids0[k];
        ViewFrame(nodes0, updated, kids0[k]);
      } else {
        assert nodes[parent].kids[k] == nodes[parent].kids[|kids0|..][k - |kids0|];
        ViewFrame(nodes, updated, nodes[parent].kids[k]);
      }
    }
    assert v.children == w;
    AttachedStep(nodes, updated, |nodes0|, parent);
  }

  /** Children prepended twice are prepended once, in order. */
  lemma {:induction false} PrependTwice(a: seq<Node>, ra: seq<string>, b: seq<Node>, rb: seq<string>, f: FrameResult)
    ensures Prepend(a, ra, Prepend(b, rb, f)) == Prepend(a + b, ra + rb, f)
  {
    assert a + (b + f.kids) == (a + b) + f.kids;
    assert ra + (rb + f.raws) == (ra + rb) + f.raws;
  }

  /** A `{` step keeps the frame equation: the child the nested frame
      finished and its raw name join the children found so far, and the frame
      goes on after the nested frame's remainder with the name counted once more. */
  lemma {:induction false} OpenStep(whole: FrameResult, done: seq<Node>, doneRaws: seq<string>, s: string,
                 counts: map<string, nat>, buffer: string,
                 child: Node, raw: string, rest: string, counts2: map<string, nat>)
    requires whole == Prepend(done, doneRaws, ParseFrame(s, counts, buffer))
    requires s != [] && s[0] == '{'
    requires raw == NameSplit(s[1..]).0
    requires child == Attach(Node(UniqueName(raw, Count(counts, raw)), "", []), ParseFrame(NameSplit(s[1..]).1, map[], ""))
    requires rest == ParseFrame(NameSplit(s[1..]).1, map[], "").rest
    requires counts2 == counts[raw := Count(counts, raw) + 1]
    ensures whole == Prepend(done + [child], doneRaws + [raw], ParseFrame(rest, counts2, buffer))
  {
    PrependTwice(done, doneRaws, [child], [raw], ParseFrame(rest, counts2, buffer));
  }

  /** A plain character goes into the frame's buffer. */
  lemma {:induction false} PlainStep(whole: FrameResult, done: seq<Node>, doneRaws: seq<string>, s: string,
                  counts: map<string, nat>, buffer: string)
    requires whole == Prepend(done, doneRaws, ParseFrame(s, counts, buffer))
    requires s != [] && s[0] != '{' && s[0] != '}'
    ensures whole == Prepend(done, doneRaws, ParseFrame(s[1..], counts, buffer + [s[0]]))
  {
  }

  /** A `}`, or the end of the text, ends the frame: no further children, the
      buffer decides the payload, and the text after the `}` is what remains. */
  lemma {:induction false} CloseStep(whole: FrameResult, done: seq<Node>, doneRaws: seq<string>, s: string,
                  counts: map<string, nat>, buffer: string)
    requires whole == Prepend(done, doneRaws, ParseFrame(s, counts, buffer))
    requires s == [] || s[0] == '}'
    ensures whole.kids == done && whole.data == Closing(buffer)
    ensures whole.rest == if s == [] then [] else s[1..]
  {
    assert done + [] == done;
  }
}

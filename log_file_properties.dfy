/** What the parse of a log promises, stated over `ParseFrame` and `ParseLog`:
    how children are named, where payload text goes, what an unbalanced brace
    does, and that every well-formed tree written out in the log grammar is
    read back as itself. */
module LogFileProperties {
  import opened Wrappers
  import opened Text
  import opened Tree
  import opened LogFile

  // ---------------------------------------------------------------------------
  // Naming

  /** Uses counts each occurrence: splitting the list splits the count. */
  lemma {:induction false} UsesAppend(a: seq<string>, b: seq<string>, x: string)
    ensures Uses(a + b, x) == Uses(a, x) + Uses(b, x)
    decreases |a|
  {
    if a == [] {
      assert a + b == b;
    } else {
      UsesAppend(a[1..], b, x);
      assert (a + b)[0] == a[0];
      assert (a + b)[1..] == a[1..] + b;
    }
  }

  /** A name never used is counted zero times. */
  lemma {:induction false} UsesAbsent(a: seq<string>, x: string)
    requires x !in a
    ensures Uses(a, x) == 0
    decreases |a|
  {
    if a != [] {
      UsesAbsent(a[1..], x);
    }
  }

  /** The naming rule of a frame, child by child: the first child is named
      with the frame's count for its raw name, and the rest are named by the
      rule with that name counted once more. */
  predicate NamedAfter(kids: seq<Node>, raws: seq<string>, counts: map<string, nat>)
    decreases |kids|
  {
    |kids| == |raws|
    && (kids == [] || (kids[0].name == UniqueName(raws[0], Count(counts, raws[0]))
                       && NamedAfter(kids[1..], raws[1..], counts[raws[0] := Count(counts, raws[0]) + 1])))
  }

  /** Each child is named after its raw name and the number of times that raw
      name was used before it: the count the frame started with plus its uses
      among the earlier children of the same frame. */
  lemma {:induction false} NamedAfterAt(kids: seq<Node>, raws: seq<string>, counts: map<string, nat>, k: nat)
    requires NamedAfter(kids, raws, counts) && k < |kids|
    ensures kids[k].name == UniqueName(raws[k], Count(counts, raws[k]) + Uses(raws[..k], raws[k]))
    decreases k
  {
    if k == 0 {
      assert raws[..0] == [];
    } else {
      NamedAfterAt(kids[1..], raws[1..], counts[raws[0] := Count(counts, raws[0]) + 1], k - 1);
      assert kids[1..][k - 1] == kids[k] && raws[1..][k - 1] == raws[k];
      CountShift(raws, counts, k);
    }
  }

  /** The count a later child was named with, seen from the frame's counts
      before the first child was counted. */
  lemma {:induction false} CountShift(raws: seq<string>, counts: map<string, nat>, k: nat)
    requires 0 < k < |raws|
    ensures Count(counts[raws[0] := Count(counts, raws[0]) + 1], raws[k]) + Uses(raws[1..][..k - 1], raws[k])
            == Count(counts, raws[k]) + Uses(raws[..k], raws[k])
  {
    assert raws[..k] == [raws[0]] + raws[1..][..k - 1];
    UsesCons(raws[0], raws[1..][..k - 1], raws[k]);
  }

  /** Uses of a list with one name in front. */
  lemma {:induction false} UsesCons(raw: string, rest: seq<string>, x: string)
    ensures Uses([raw] + rest, x) == (if raw == x then 1 else 0) + Uses(rest, x)
  {
    assert ([raw] + rest)[1..] == rest;
  }

  /** The children of every frame are named by that rule. */
  lemma {:induction false} FrameNames(s: string, counts: map<string, nat>, buffer: string)
    ensures NamedAfter(ParseFrame(s, counts, buffer).kids, ParseFrame(s, counts, buffer).raws, counts)
    decreases |s|
  {
    if s == [] {
    } else if s[0] == '{' {
      var raw := NameSplit(s[1..]).0;
      var c := Count(counts, raw);
      var sub := ParseFrame(NameSplit(s[1..]).1, map[], "");
      var child := Attach(Node(UniqueName(raw, c), "", []), sub);
      var tail := ParseFrame(sub.rest, counts[raw := c + 1], buffer);
      OpenCase(s, counts, buffer);
      FrameNames(sub.rest, counts[raw := c + 1], buffer);
      NamedAfterPrepend(ParseFrame(s, counts, buffer), child, raw, tail, counts);
    } else if s[0] == '}' {
    } else {
      PlainCase(s, counts, buffer);
      FrameNames(s[1..], counts, buffer + [s[0]]);
    }
  }

  /** A child named with the frame's count, in front of children named by
      the rule with that count increased, keeps the rule. */
  lemma {:induction false} NamedAfterPrepend(f: FrameResult, child: Node, raw: string, tail: FrameResult, counts: map<string, nat>)
    requires f == Prepend([child], [raw], tail)
    requires child.name == UniqueName(raw, Count(counts, raw))
    requires NamedAfter(tail.kids, tail.raws, counts[raw := Count(counts, raw) + 1])
    ensures NamedAfter(f.kids, f.raws, counts)
  {
    assert f.kids[0] == child && f.raws[0] == raw;
    assert f.kids[1..] == tail.kids && f.raws[1..] == tail.raws;
  }

  /** A character other than a brace goes into the buffer. */
  lemma {:induction false} PlainCase(s: string, counts: map<string, nat>, buffer: string)
    requires s != [] && s[0] != '{' && s[0] != '}'
    ensures ParseFrame(s, counts, buffer) == ParseFrame(s[1..], counts, buffer + [s[0]])
  {
  }

  /** A `{` in a frame: the child named with the frame's count for its raw
      name and filled by a nested frame, then the rest of the frame. */
  lemma {:induction false} OpenCase(s: string, counts: map<string, nat>, buffer: string)
    requires s != [] && s[0] == '{'
    ensures var raw := NameSplit(s[1..]).0;
            var c := Count(counts, raw);
            var sub := ParseFrame(NameSplit(s[1..]).1, map[], "");
            ParseFrame(s, counts, buffer)
            == Prepend([Attach(Node(UniqueName(raw, c), "", []), sub)], [raw],
                       ParseFrame(sub.rest, counts[raw := c + 1], buffer))
  {
  }

  /** A raw name met for the first time in a frame (and not counted before
      it) is kept as it is. */
  lemma {:induction false} FirstUseKeepsName(s: string, counts: map<string, nat>, buffer: string, k: nat)
    requires k < |ParseFrame(s, counts, buffer).kids|
    requires var r := ParseFrame(s, counts, buffer);
             Count(counts, r.raws[k]) == 0 && r.raws[k] !in r.raws[..k]
    ensures var r := ParseFrame(s, counts, buffer);
            r.kids[k].name == r.raws[k]
  {
    var r := ParseFrame(s, counts, buffer);
    FrameNames(s, counts, buffer);
    NamedAfterAt(r.kids, r.raws, counts, k);
    UsesAbsent(r.raws[..k], r.raws[k]);
  }

  /** Two children of one frame with the same raw name get different names:
      the later one was counted once more. */
  lemma {:induction false} SameRawDifferentNames(s: string, counts: map<string, nat>, buffer: string, i: nat, j: nat)
    requires i < j < |ParseFrame(s, counts, buffer).kids|
    requires ParseFrame(s, counts, buffer).raws[i] == ParseFrame(s, counts, buffer).raws[j]
    ensures ParseFrame(s, counts, buffer).kids[i].name != ParseFrame(s, counts, buffer).kids[j].name
  {
    var r := ParseFrame(s, counts, buffer);
    FrameNames(s, counts, buffer);
    NamedAfterDistinct(r.kids, r.raws, counts, i, j);
  }

  /** `SameRawDifferentNames` for any children named by the rule. */
  lemma {:induction false} NamedAfterDistinct(kids: seq<Node>, raws: seq<string>, counts: map<string, nat>, i: nat, j: nat)
    requires NamedAfter(kids, raws, counts) && i < j < |kids| && raws[i] == raws[j]
    ensures kids[i].name != kids[j].name
  {
    var x := raws[i];
    var ci := Count(counts, x) + Uses(raws[..i], x);
    var cj := Count(counts, x) + Uses(raws[..j], x);
    NamedAfterAt(kids, raws, counts, i);
    NamedAfterAt(kids, raws, counts, j);
    UsesLater(raws, i, j);
    UniqueNameDistinct(x, ci, cj);
  }

  /** A name is used more often before a later position than before one
      where it occurs. */
  lemma {:induction false} UsesLater(raws: seq<string>, i: nat, j: nat)
    requires i < j <= |raws|
    ensures Uses(raws[..j], raws[i]) > Uses(raws[..i], raws[i])
  {
    var x := raws[i];
    assert raws[..j] == raws[..i] + raws[i..j];
    UsesAppend(raws[..i], raws[i..j], x);
    assert raws[i..j] == [x] + raws[i + 1..j];
    UsesAppend([x], raws[i + 1..j], x);
  }

  /** In a list holding only `x`, `x` is used as often as the list is long. */
  lemma {:induction false} UsesRepeated(a: seq<string>, x: string)
    requires forall i :: 0 <= i < |a| ==> a[i] == x
    ensures Uses(a, x) == |a|
    decreases |a|
  {
    if a != [] {
      UsesRepeated(a[1..], x);
    }
  }

  /** A fresh frame whose children all have the raw name `x` names them `x`,
      `x_1`, `x_2`, ... in document order. */
  lemma {:induction false} RepeatedRawNames(s: string, buffer: string, x: string)
    requires forall k :: 0 <= k < |ParseFrame(s, map[], buffer).raws| ==> ParseFrame(s, map[], buffer).raws[k] == x
    ensures var r := ParseFrame(s, map[], buffer);
            forall k :: 0 <= k < |r.kids| ==> r.kids[k].name == UniqueName(x, k)
  {
    var r := ParseFrame(s, map[], buffer);
    FrameNames(s, map[], buffer);
    forall k | 0 <= k < |r.kids|
      ensures r.kids[k].name == UniqueName(x, k)
    {
      NamedAfterAt(r.kids, r.raws, map[], k);
      UsesRepeated(r.raws[..k], x);
    }
  }

  // ---------------------------------------------------------------------------
  // Payload text and unbalanced braces

  /** Text with no brace: all of it is payload. */
  predicate PlainText(p: string) {
    '{' !in p && '}' !in p
  }

  /** Brace-free text goes into the buffer as it is. */
  lemma {:induction false} PlainPrefix(p: string, s: string, counts: map<string, nat>, buffer: string)
    requires PlainText(p)
    ensures ParseFrame(p + s, counts, buffer) == ParseFrame(s, counts, buffer + p)
    decreases |p|
  {
    if p == [] {
      assert p + s == s && buffer + p == buffer;
    } else {
      assert p[0] in p;
      assert (p + s)[0] == p[0];
      assert (p + s)[1..] == p[1..] + s;
      PlainPrefix(p[1..], s, counts, buffer + [p[0]]);
      assert buffer + [p[0]] + p[1..] == buffer + p;
    }
  }

  /** A frame of plain text closed by `}`: no children, the stripped text as
      payload (none when the text is empty) and the text after the `}` left
      for the caller. */
  lemma {:induction false} PlainCloseFrame(p: string, q: string, counts: map<string, nat>, buffer: string)
    requires PlainText(p)
    ensures ParseFrame(p + "}" + q, counts, buffer) == FrameResult([], [], Closing(buffer + p), q)
  {
    PlainPrefix(p, "}" + q, counts, buffer);
    assert p + "}" + q == p + ("}" + q);
    assert ("}" + q)[1..] == q;
  }

  /** A frame of plain text running to the end of the log ends there as if
      it had been closed. */
  lemma {:induction false} PlainEndFrame(p: string, counts: map<string, nat>, buffer: string)
    requires PlainText(p)
    ensures ParseFrame(p, counts, buffer) == FrameResult([], [], Closing(buffer + p), "")
  {
    PlainPrefix(p, "", counts, buffer);
    assert p + "" == p;
  }

  /** A log with no `}` is read to its end: every frame, and every frame
      nested in it, runs until the text is used up, so nothing is left over. */
  lemma {:induction false} NoCloseReadsAll(s: string, counts: map<string, nat>, buffer: string)
    requires '}' !in s
    ensures ParseFrame(s, counts, buffer).rest == []
    decreases |s|
  {
    if s == [] {
    } else if s[0] == '{' {
      var raw := NameSplit(s[1..]).0;
      var after := NameSplit(s[1..]).1;
      TailIsSuffix(s);
      SuffixTransitive(after, s[1..], s);
      SuffixKeepsOut(after, s, '}');
      NoCloseReadsAll(after, map[], "");
      OpenCase(s, counts, buffer);
    } else {
      assert s[0] in s;
      TailIsSuffix(s);
      SuffixKeepsOut(s[1..], s, '}');
      PlainCase(s, counts, buffer);
      NoCloseReadsAll(s[1..], counts, buffer + [s[0]]);
    }
  }

  /** A `{`, a name without '|' and the '|': a child named with the frame's
      count for that name, filled by the nested frame on the text after the
      '|', and the frame goes on after the nested frame's remainder. */
  lemma {:induction false} OpenFrame(name: string, body: string, counts: map<string, nat>, buffer: string)
    requires '|' !in name
    ensures var c := Count(counts, name);
            var sub := ParseFrame(body, map[], "");
            ParseFrame("{" + name + "|" + body, counts, buffer)
            == Prepend([Attach(Node(UniqueName(name, c), "", []), sub)], [name],
                       ParseFrame(sub.rest, counts[name := c + 1], buffer))
  {
    OpenText(name, body);
    OpenFrameAt("{" + name + "|" + body, name, body, counts, buffer);
  }

  /** `OpenFrame` for a text given by its first character and the rest. */
  lemma {:induction false} OpenFrameAt(s: string, name: string, body: string, counts: map<string, nat>, buffer: string)
    requires '|' !in name
    requires s != [] && s[0] == '{' && s[1..] == name + "|" + body
    ensures ParseFrame(s, counts, buffer)
            == Prepend([Attach(Node(UniqueName(name, Count(counts, name)), "", []), ParseFrame(body, map[], ""))], [name],
                       ParseFrame(ParseFrame(body, map[], "").rest, counts[name := Count(counts, name) + 1], buffer))
  {
    NameSplitOf(name, body);
  }

  /** The text of an opened node: a `{`, then the name, the '|' and the body. */
  lemma {:induction false} OpenText(name: string, body: string)
    ensures var s := "{" + name + "|" + body;
            s != [] && s[0] == '{' && s[1..] == name + "|" + body
  {
    var s := "{" + name + "|" + body;
    assert s == "{" + (name + "|" + body);
  }

  /** A node holding only plain text, closed by `}`. */
  lemma {:induction false} LeafFrame(name: string, p: string, q: string, counts: map<string, nat>, buffer: string)
    requires '|' !in name && PlainText(p)
    ensures var c := Count(counts, name);
            ParseFrame("{" + name + "|" + p + "}" + q, counts, buffer)
            == Prepend([Node(UniqueName(name, c), if p != "" then Strip(p) else "", [])], [name],
                       ParseFrame(q, counts[name := c + 1], buffer))
  {
    var c := Count(counts, name);
    var body := p + "}" + q;
    OpenFrame(name, body, counts, buffer);
    PlainCloseFrame(p, q, map[], "");
    assert "" + p == p;
    var sub := ParseFrame(body, map[], "");
    assert sub == FrameResult([], [], Closing(p), q);
    var child := Attach(Node(UniqueName(name, c), "", []), sub);
    assert child == Node(UniqueName(name, c), if p != "" then Strip(p) else "", []);
    var open := "{" + name + "|";
    ConcatAssoc(open + p, "}", q);
    ConcatAssoc(open, p, "}" + q);
    ConcatAssoc(p, "}", q);
  }

  /** An unclosed node is not an error: the end of the log closes every open
      node, and the node keeps the text it had. */
  lemma {:induction false} UnclosedNodeAccepted(name: string, p: string)
    requires '|' !in name && PlainText(p) && p != ""
    ensures ParseLog("{" + name + "|" + p) == Node("root", "", [Node(name, Strip(p), [])])
  {
    var sub := FrameResult([], [], Closing(p), "");
    var child := Node(name, Strip(p), []);
    PlainEndFrame(p, map[], "");
    ConcatEmpty(p);
    OpenNode("{" + name + "|" + p, name, p, map[], "", sub, child, "");
    SingleChildLog(child, name, ParseFrame("{" + name + "|" + p, map[], ""), map[][name := Count(map[], name) + 1]);
  }

  /** A `}` with no open node ends the parse: the text after it is never
      read, so the root gets no children from it. */
  lemma {:induction false} StrayCloseTruncates(p: string, q: string)
    requires PlainText(p)
    ensures ParseLog(p + "}" + q) == Node("root", if p != "" then Strip(p) else "", [])
  {
    PlainCloseFrame(p, q, map[], "");
    assert "" + p == p;
  }

  /** Inside a frame, text, a nested node and more text, then `}`: the
      nested node takes its own text, and the frame's payload is the two
      pieces around it joined and stripped. */
  lemma {:induction false} ChildTextExcluded(b: string, x: string, y: string, z: string, counts: map<string, nat>)
    requires '|' !in b && PlainText(x) && PlainText(y) && PlainText(z)
    requires x + z != "" && y != ""
    ensures ParseFrame(x + (("{" + b + "|" + y + "}") + (z + "}")), counts, "")
            == FrameResult([Node(UniqueName(b, Count(counts, b)), Strip(y), [])], [b], Some(Strip(x + z)), "")
  {
    var inner := "{" + b + "|" + y + "}";
    var close := z + "}";
    PlainPrefix(x, inner + close, counts, "");
    assert "" + x == x;
    LeafFrame(b, y, close, counts, x);
    var cb := counts[b := Count(counts, b) + 1];
    assert close + "" == close;
    PlainCloseFrame(z, "", cb, x);
    var f2 := ParseFrame(close, cb, x);
    assert f2 == FrameResult([], [], Some(Strip(x + z)), "");
    assert [Node(UniqueName(b, Count(counts, b)), Strip(y), [])] + [] == [Node(UniqueName(b, Count(counts, b)), Strip(y), [])];
  }

  /** A node's payload is its own text only: the text of a nested node goes
      to that node, and the pieces of text around it are joined before
      stripping. */
  lemma {:induction false} NestedTextExcluded(a: string, b: string, x: string, y: string, z: string)
    requires '|' !in a && '|' !in b && PlainText(x) && PlainText(y) && PlainText(z)
    requires x + z != "" && y != ""
    ensures ParseLog("{" + a + "|" + x + ("{" + b + "|" + y + "}") + z + "}")
            == Node("root", "", [Node(a, Strip(x + z), [Node(b, Strip(y), [])])])
  {
    var inner := "{" + b + "|" + y + "}";
    var body := x + (inner + (z + "}"));
    var sub := FrameResult([Node(UniqueName(b, Count(map[], b)), Strip(y), [])], [b], Some(Strip(x + z)), "");
    var child := Node(a, Strip(x + z), [Node(b, Strip(y), [])]);
    NestedText(a, x, inner, z);
    ChildTextExcluded(b, x, y, z, map[]);
    OpenNode("{" + a + "|" + x + inner + z + "}", a, body, map[], "", sub, child, "");
    SingleChildLog(child, a, ParseFrame("{" + a + "|" + x + inner + z + "}", map[], ""), map[a := 1]);
  }

  /** The text of a node holding text, a nested node and more text. */
  lemma {:induction false} NestedText(a: string, x: string, inner: string, z: string)
    ensures "{" + a + "|" + x + inner + z + "}" == "{" + a + "|" + (x + (inner + (z + "}")))
  {
    var open := "{" + a + "|";
    ConcatAssoc(open + x + inner, z, "}");
    ConcatAssoc(open + x, inner, z + "}");
    ConcatAssoc(open, x, inner + (z + "}"));
  }

  /** A whole-log frame that holds one child and then ends. */
  lemma {:induction false} SingleChildLog(child: Node, raw: string, f: FrameResult, counts: map<string, nat>)
    requires f == Prepend([child], [raw], ParseFrame("", counts, ""))
    ensures Attach(Node("root", "", []), f) == Node("root", "", [child])
  {
    assert [child] + [] == [child];
  }

  /** A childless node without payload as written in a log. */
  function Leaf(name: string): string {
    "{" + name + "|" + "}"
  }

  /** Reading such a node: a child named with the frame's count for its name. */
  lemma {:induction false} LeafOnly(name: string, q: string, counts: map<string, nat>)
    requires '|' !in name
    ensures ParseFrame(Leaf(name) + q, counts, "")
            == Prepend([Node(UniqueName(name, Count(counts, name)), "", [])], [name],
                       ParseFrame(q, counts[name := Count(counts, name) + 1], ""))
  {
    LeafFrame(name, "", q, counts, "");
    assert "{" + name + "|" + "" == "{" + name + "|";
  }

  /** The suffix is not checked against the raw names of other siblings: a
      raw name that already ends in `_1` collides with the second use of its
      stem. */
  lemma {:induction false} NameCollision(x: string)
    requires '|' !in x
    ensures var children := ParseLog(Leaf(x + "_1") + (Leaf(x) + Leaf(x))).children;
            |children| == 3 && children[0].name == x + "_1" && children[1].name == x
            && children[2].name == x + "_1"
  {
    var c1 := map[x + "_1" := 1];
    var c2 := c1[x := 1];
    CollisionCounts(x);
    LeafThen(x + "_1", Leaf(x) + Leaf(x), map[], c1);
    LeafThen(x, Leaf(x), c1, c2);
    LeafEnd(x, c2);
    ThreeChildren(ParseFrame(Leaf(x + "_1") + (Leaf(x) + Leaf(x)), map[], ""), ParseFrame(Leaf(x) + Leaf(x), c1, ""),
                  Node(x + "_1", "", []), x + "_1", Node(x, "", []), x, Node(x + "_1", "", []), x);
  }

  /** The counts `NameCollision` goes through: the stem is not counted when
      the first node is read, and once when the third is. */
  lemma {:induction false} CollisionCounts(x: string)
    ensures Count(map[], x + "_1") == 0 && UniqueName(x + "_1", 0) == x + "_1"
    ensures Count(map[x + "_1" := 1], x) == 0 && UniqueName(x, 0) == x
    ensures Count(map[x + "_1" := 1][x := 1], x) == 1 && UniqueName(x, 1) == x + "_1"
  {
    assert |x + "_1"| != |x|;
    assert NatToString(1) == "1";
    ConcatAssoc(x, "_", "1");
  }

  /** `LeafOnly` with the counts after the node given by name. */
  lemma {:induction false} LeafThen(name: string, q: string, counts: map<string, nat>, next: map<string, nat>)
    requires '|' !in name && next == counts[name := Count(counts, name) + 1]
    ensures ParseFrame(Leaf(name) + q, counts, "")
            == Prepend([Node(UniqueName(name, Count(counts, name)), "", [])], [name], ParseFrame(q, next, ""))
  {
    LeafOnly(name, q, counts);
  }

  /** A childless node without payload that ends the log. */
  lemma {:induction false} LeafEnd(name: string, counts: map<string, nat>)
    requires '|' !in name
    ensures ParseFrame(Leaf(name), counts, "")
            == FrameResult([Node(UniqueName(name, Count(counts, name)), "", [])], [name], None, [])
  {
    LeafOnly(name, "", counts);
    ConcatEmpty(Leaf(name));
    assert [Node(UniqueName(name, Count(counts, name)), "", [])] + [] == [Node(UniqueName(name, Count(counts, name)), "", [])];
    assert [name] + [] == [name];
  }

  /** A whole-log frame holding three children, one after the other. */
  lemma {:induction false} ThreeChildren(r: FrameResult, f: FrameResult, a: Node, ra: string, b: Node, rb: string, c: Node, rc: string)
    requires r == Prepend([a], [ra], f)
    requires f == Prepend([b], [rb], FrameResult([c], [rc], None, []))
    ensures Attach(Node("root", "", []), r).children == [a, b, c]
  {
    assert [b] + [c] == [b, c];
    assert [a] + [b, c] == [a, b, c];
  }

  // ---------------------------------------------------------------------------
  // Writing a tree out and reading it back

  /** A node in the log grammar: `{name|data` followed by its children and `}`. */
  function Serialize(n: Node): string
    decreases n
  {
    "{" + n.name + "|" + n.data + SerializeAll(n.children) + "}"
  }

  /** Siblings written one after another. */
  function SerializeAll(ns: seq<Node>): string
    decreases ns
  {
    if ns == [] then "" else Serialize(ns[0]) + SerializeAll(ns[1..])
  }

  /** The raw names of a list of nodes. */
  function Names(ns: seq<Node>): (r: seq<string>)
    ensures |r| == |ns| && forall i :: 0 <= i < |ns| ==> r[i] == ns[i].name
    decreases |ns|
  {
    if ns == [] then [] else [ns[0].name] + Names(ns[1..])
  }

  predicate DistinctNames(ns: seq<Node>) {
    forall i, j :: 0 <= i < j < |ns| ==> ns[i].name != ns[j].name
  }

  /** A tree the grammar can carry unchanged: names without '|', payloads
      without braces and without surrounding whitespace (the parser strips
      it), and siblings with distinct names (the parser would rename them). */
  predicate Writable(n: Node)
    decreases n
  {
    '|' !in n.name && PlainText(n.data) && Stripped(n.data)
    && DistinctNames(n.children) && WritableAll(n.children)
  }

  predicate WritableAll(ns: seq<Node>)
    decreases ns
  {
    ns == [] || (Writable(ns[0]) && WritableAll(ns[1..]))
  }

  function Size(n: Node): nat
    decreases n
  {
    1 + SizeAll(n.children)
  }

  function SizeAll(ns: seq<Node>): nat
    decreases ns
  {
    if ns == [] then 0 else Size(ns[0]) + SizeAll(ns[1..])
  }

  /** The end of a frame: the end of the log, or a `}` and what follows it. */
  predicate FrameEnd(s: string) {
    s == [] || s[0] == '}'
  }

  /** What a frame ends with when it meets `s`. */
  function EndResult(s: string, buffer: string): FrameResult
    requires FrameEnd(s)
  {
    FrameResult([], [], Closing(buffer), if s == [] then [] else s[1..])
  }

  /** The last step of reading a written node: the frame the parser opened
      for it holds the node's children and payload, so the child it attaches
      is the node itself. */
  lemma {:induction false} RebuiltNode(n: Node, sub: FrameResult, s: string)
    requires Stripped(n.data)
    requires sub == Prepend(n.children, Names(n.children), FrameResult([], [], Closing(n.data), s))
    ensures Attach(Node(UniqueName(n.name, 0), "", []), sub) == n
  {
    StripFixedPoints(n.data);
    assert n.children + [] == n.children;
    assert [] + n.children == n.children;
  }

  /** Reading a written node whose name the frame has not counted yet: the
      node comes back whole, and the frame goes on right after its `}`. */
  lemma {:induction false} NodeRoundTrip(n: Node, s: string, counts: map<string, nat>, buffer: string)
    requires Writable(n) && Count(counts, n.name) == 0
    ensures ParseFrame(Serialize(n) + s, counts, buffer)
            == Prepend([n], [n.name], ParseFrame(s, counts[n.name := Count(counts, n.name) + 1], buffer))
    decreases Size(n), 1
  {
    var sub := Prepend(n.children, Names(n.children), FrameResult([], [], Closing(n.data), s));
    BodyRoundTrip(n, s);
    RebuiltNode(n, sub, s);
    OpenSerialized(n, s, counts, buffer, sub);
  }

  /** The opening of a written node, given what the frame opened for it
      reads. */
  lemma {:induction false} OpenSerialized(n: Node, s: string, counts: map<string, nat>, buffer: string, sub: FrameResult)
    requires '|' !in n.name
    requires ParseFrame(n.data + (SerializeAll(n.children) + ("}" + s)), map[], "") == sub && sub.rest == s
    requires Attach(Node(UniqueName(n.name, Count(counts, n.name)), "", []), sub) == n
    ensures ParseFrame(Serialize(n) + s, counts, buffer)
            == Prepend([n], [n.name], ParseFrame(s, counts[n.name := Count(counts, n.name) + 1], buffer))
  {
    SerializedText(n, s);
    OpenNode(Serialize(n) + s, n.name, n.data + (SerializeAll(n.children) + ("}" + s)), counts, buffer, sub, n, s);
  }

  /** The frame opened for a written node reads its payload and children up
      to its `}`. */
  lemma {:induction false} BodyRoundTrip(n: Node, s: string)
    requires Writable(n)
    ensures ParseFrame(n.data + (SerializeAll(n.children) + ("}" + s)), map[], "")
            == Prepend(n.children, Names(n.children), FrameResult([], [], Closing(n.data), s))
    decreases Size(n), 0
  {
    var close := "}" + s;
    PlainPrefix(n.data, SerializeAll(n.children) + close, map[], "");
    ConcatEmpty(n.data);
    ConsParts('}', s);
    ForestRoundTrip(n.children, close, map[], n.data);
  }

  /** `OpenFrameAt` with the nested frame's result and the child built from
      it given by name. */
  lemma {:induction false} OpenNode(s: string, name: string, body: string, counts: map<string, nat>, buffer: string,
                                    sub: FrameResult, child: Node, rest: string)
    requires '|' !in name
    requires s == "{" + name + "|" + body
    requires ParseFrame(body, map[], "") == sub && sub.rest == rest
    requires Attach(Node(UniqueName(name, Count(counts, name)), "", []), sub) == child
    ensures ParseFrame(s, counts, buffer)
            == Prepend([child], [name], ParseFrame(rest, counts[name := Count(counts, name) + 1], buffer))
  {
    OpenText(name, body);
    OpenFrameAt(s, name, body, counts, buffer);
  }

  /** A written node followed by more text: the opening, then the payload,
      the children and the `}` in front of that text. */
  lemma {:induction false} SerializedText(n: Node, s: string)
    ensures Serialize(n) + s == "{" + n.name + "|" + (n.data + (SerializeAll(n.children) + ("}" + s)))
  {
    var open := "{" + n.name + "|";
    var kids := SerializeAll(n.children);
    var body := n.data + (kids + ("}" + s));
    ConcatAssoc(open + n.data + kids, "}", s);
    ConcatAssoc(open + n.data, kids, "}" + s);
    ConcatAssoc(open, n.data, kids + ("}" + s));
    assert Serialize(n) + s == open + body;
  }

  /** Reading written siblings up to the end of their frame: each is rebuilt
      under the name it was written with, in order. */
  lemma {:induction false} ForestRoundTrip(ns: seq<Node>, s: string, counts: map<string, nat>, buffer: string)
    requires WritableAll(ns) && DistinctNames(ns) && FrameEnd(s)
    requires forall i :: 0 <= i < |ns| ==> Count(counts, ns[i].name) == 0
    ensures ParseFrame(SerializeAll(ns) + s, counts, buffer) == Prepend(ns, Names(ns), EndResult(s, buffer))
    decreases SizeAll(ns), 2
  {
    if ns == [] {
      EmptyForest(s, counts, buffer);
    } else {
      var n := ns[0];
      var rest := SerializeAll(ns[1..]) + s;
      var counts' := counts[n.name := Count(counts, n.name) + 1];
      SerializeAllCons(ns, s);
      NodeRoundTrip(n, rest, counts, buffer);
      UncountedRest(ns, counts);
      ForestRoundTrip(ns[1..], s, counts', buffer);
      ConsFrames(ns, ParseFrame(rest, counts', buffer), EndResult(s, buffer));
    }
  }

  /** No siblings: the frame ends where the text does. */
  lemma {:induction false} EmptyForest(s: string, counts: map<string, nat>, buffer: string)
    requires FrameEnd(s)
    ensures ParseFrame(SerializeAll([]) + s, counts, buffer) == Prepend([], Names([]), EndResult(s, buffer))
  {
    assert SerializeAll([]) + s == s;
  }

  /** Counting the first of distinctly named siblings leaves the others
      uncounted. */
  lemma {:induction false} UncountedRest(ns: seq<Node>, counts: map<string, nat>)
    requires ns != [] && DistinctNames(ns)
    requires forall i :: 0 <= i < |ns| ==> Count(counts, ns[i].name) == 0
    ensures forall i :: 0 <= i < |ns[1..]|
              ==> Count(counts[ns[0].name := Count(counts, ns[0].name) + 1], ns[1..][i].name) == 0
  {
    forall i | 0 <= i < |ns[1..]|
      ensures Count(counts[ns[0].name := Count(counts, ns[0].name) + 1], ns[1..][i].name) == 0
    {
      assert ns[1..][i] == ns[i + 1];
    }
  }

  /** The text of written siblings: the first one's, then the others'. */
  lemma {:induction false} SerializeAllCons(ns: seq<Node>, s: string)
    requires ns != []
    ensures SerializeAll(ns) + s == Serialize(ns[0]) + (SerializeAll(ns[1..]) + s)
  {
    ConcatAssoc(Serialize(ns[0]), SerializeAll(ns[1..]), s);
  }

  /** The first sibling in front of the frame that reads the others. */
  lemma {:induction false} ConsFrames(ns: seq<Node>, tail: FrameResult, e: FrameResult)
    requires ns != [] && tail == Prepend(ns[1..], Names(ns[1..]), e)
    ensures Prepend([ns[0]], [ns[0].name], tail) == Prepend(ns, Names(ns), e)
  {
    PrependTwice([ns[0]], [ns[0].name], ns[1..], Names(ns[1..]), e);
    assert [ns[0]] + ns[1..] == ns;
    assert [ns[0].name] + Names(ns[1..]) == Names(ns);
  }

  /** A log written from distinctly named, writable nodes parses back to a
      root holding exactly those nodes, with nothing left over. */
  lemma {:induction false} WellFormedLogRoundTrip(ns: seq<Node>)
    requires WritableAll(ns) && DistinctNames(ns)
    ensures ParseLog(SerializeAll(ns)) == Node("root", "", ns)
    ensures ParseFrame(SerializeAll(ns), map[], "").rest == ""
  {
    ConcatEmpty(SerializeAll(ns));
    ForestRoundTrip(ns, "", map[], "");
    WholeLog(ns, ParseFrame(SerializeAll(ns), map[], ""));
  }

  /** The root a whole-log frame holding exactly `ns` is attached to. */
  lemma {:induction false} WholeLog(ns: seq<Node>, r: FrameResult)
    requires r == Prepend(ns, Names(ns), EndResult("", ""))
    ensures Attach(Node("root", "", []), r) == Node("root", "", ns) && r.rest == ""
  {
    assert [] + ns == ns;
    assert ns + [] == ns;
  }

  // ---------------------------------------------------------------------------
  // Balanced logs are read to the end

  /** One piece of log text in the brace grammar: a payload character, or a
      node block `{name|body}` whose body is itself a run of pieces. */
  datatype Piece = Char(c: char) | Block(name: string, body: seq<Piece>)

  /** The text a run of pieces stands for. */
  function Render(ps: seq<Piece>): string
    decreases ps
  {
    if ps == [] then ""
    else
      match ps[0]
      case Char(c) => [c] + Render(ps[1..])
      case Block(name, body) => "{" + name + "|" + Render(body) + "}" + Render(ps[1..])
  }

  /** Pieces the parser can read back: payload characters are not braces, and
      block names hold no `|`. */
  predicate Balanced(ps: seq<Piece>)
    decreases ps
  {
    ps == [] ||
    ((match ps[0]
      case Char(c) => c != '{' && c != '}'
      case Block(name, body) => '|' !in name && Balanced(body))
     && Balanced(ps[1..]))
  }

  /** A frame that reads balanced text followed by `}` stops right after that
      closing brace, whatever its sibling counts and buffer. */
  lemma {:induction false} BalancedCloses(ps: seq<Piece>, q: string, counts: map<string, nat>, buffer: string)
    requires Balanced(ps)
    ensures ParseFrame(Render(ps) + "}" + q, counts, buffer).rest == q
    decreases ps
  {
    if ps == [] {
      ConcatEmpty("}" + q);
      ConsParts('}', q);
    } else {
      var tail := Render(ps[1..]) + "}" + q;
      match ps[0]
      case Char(c) =>
        PieceText([c], Render(ps[1..]), q);
        ConsParts(c, tail);
        PlainCase([c] + tail, counts, buffer);
        BalancedCloses(ps[1..], q, counts, buffer + [c]);
      case Block(name, body) =>
        BlockText(name, Render(body), Render(ps[1..]), q);
        BalancedCloses(body, tail, map[], "");
        OpenRest("{" + name + "|" + (Render(body) + "}" + tail), name, Render(body) + "}" + tail, counts, buffer, tail);
        BalancedCloses(ps[1..], q, counts[name := Count(counts, name) + 1], buffer);
    }
  }

  /** A frame that reads balanced text with nothing after it consumes all of it. */
  lemma {:induction false} BalancedReadsAll(ps: seq<Piece>, counts: map<string, nat>, buffer: string)
    requires Balanced(ps)
    ensures ParseFrame(Render(ps), counts, buffer).rest == ""
    decreases ps
  {
    if ps != [] {
      var tail := Render(ps[1..]);
      match ps[0]
      case Char(c) =>
        ConsParts(c, tail);
        PlainCase([c] + tail, counts, buffer);
        BalancedReadsAll(ps[1..], counts, buffer + [c]);
      case Block(name, body) =>
        BlockEndText(name, Render(body), tail);
        BalancedCloses(body, tail, map[], "");
        OpenRest("{" + name + "|" + (Render(body) + "}" + tail), name, Render(body) + "}" + tail, counts, buffer, tail);
        BalancedReadsAll(ps[1..], counts[name := Count(counts, name) + 1], buffer);
    }
  }

  /** The `{` case of a frame, read only for where it stops: after the nested
      frame, the frame goes on from the nested frame's remainder. */
  lemma {:induction false} OpenRest(s: string, name: string, body: string, counts: map<string, nat>, buffer: string, mid: string)
    requires '|' !in name && s == "{" + name + "|" + body
    requires ParseFrame(body, map[], "").rest == mid
    ensures ParseFrame(s, counts, buffer).rest == ParseFrame(mid, counts[name := Count(counts, name) + 1], buffer).rest
  {
    OpenFrame(name, body, counts, buffer);
  }

  /** Regrouping the text of a leading character. */
  lemma {:induction false} PieceText(head: string, r: string, q: string)
    ensures head + r + "}" + q == head + (r + "}" + q)
  {
  }

  /** Regrouping the text of a leading block followed by more text and `}`. */
  lemma {:induction false} BlockText(name: string, b: string, r: string, q: string)
    ensures "{" + name + "|" + b + "}" + r + "}" + q == "{" + name + "|" + (b + "}" + (r + "}" + q))
  {
  }

  /** Regrouping the text of a leading block followed by more text. */
  lemma {:induction false} BlockEndText(name: string, b: string, r: string)
    ensures "{" + name + "|" + b + "}" + r == "{" + name + "|" + (b + "}" + r)
  {
  }
}

/** The two trees that metadata extraction walks: the blackfriday
    markdown tree and the x/net/html tree a raw HTML block parses into,
    with `findComment` (the same function in pageinfo.go and input.go),
    the order in which blackfriday's `Walk` visits nodes, and
    `(*Node).Unlink` as removal of a child. */
module Trees {
  import opened Values

  /** A blackfriday node. `HtmlBlock` is the leaf node type `HTMLBlock`
      with its raw literal; every other node type is `Other`, with its
      children in order. */
  datatype MdNode = HtmlBlock(literal: Bytes) | Other(children: seq<MdNode>)

  /** An x/net/html node. `Comment` is `CommentNode` with its data; every
      other node type (document, element, text, doctype) is `NonComment`,
      with its children in order. */
  datatype HtmlNode = Comment(data: Bytes) | NonComment(children: seq<HtmlNode>)

  /** `html.Parse`, a collaborator: a node tree or an error. */
  type HtmlParser = Bytes -> Result<HtmlNode>

  /** A JSON or YAML decoder into a `map[string]interface{}`, a
      collaborator: the map (`None` when the document is null, which
      leaves a nil map) or an error. */
  type Decoder = Bytes -> Result<Option<ValueMap>>

  /** `findComment`: the node itself if it is a comment, otherwise the
      first child (left to right) whose own search finds something. */
  function FindComment(n: HtmlNode): (r: (Option<Bytes>, Option<Error>))
    ensures r.0.Some? ==> r.0.value in Comments(n)
    decreases n, 1
  {
    match n
    case Comment(d) => (Some(d), None)
    case NonComment(cs) => FindCommentIn(cs)
  }

  /** The loop over the children of one node, with its early return. */
  function FindCommentIn(cs: seq<HtmlNode>): (r: (Option<Bytes>, Option<Error>))
    ensures r.0.Some? ==> r.0.value in CommentsIn(cs)
    decreases cs, 0
  {
    if cs == [] then (None, None)
    else
      var r := FindComment(cs[0]);
      if r.0.Some? || r.1.Some? then r else FindCommentIn(cs[1..])
  }

  /** The data of every comment node, in pre-order. */
  function Comments(n: HtmlNode): seq<Bytes>
    decreases n, 1
  {
    match n
    case Comment(d) => [d]
    case NonComment(cs) => CommentsIn(cs)
  }

  function CommentsIn(cs: seq<HtmlNode>): seq<Bytes>
    decreases cs, 0
  {
    if cs == [] then [] else Comments(cs[0]) + CommentsIn(cs[1..])
  }

  /** `findComment` returns the first comment in pre-order, or nil when
      there is none, and its error is always nil. */
  lemma {:induction false} FindCommentIsFirstComment(n: HtmlNode)
    ensures FindComment(n) == (if Comments(n) == [] then None else Some(Comments(n)[0]), None)
    decreases n, 1
  {
    match n
    case Comment(d) =>
    case NonComment(cs) => FindCommentInIsFirstComment(cs);
  }

  lemma {:induction false} FindCommentInIsFirstComment(cs: seq<HtmlNode>)
    ensures FindCommentIn(cs) == (if CommentsIn(cs) == [] then None else Some(CommentsIn(cs)[0]), None)
    decreases cs, 0
  {
    if cs != [] {
      FindCommentIsFirstComment(cs[0]);
      FindCommentInIsFirstComment(cs[1..]);
    }
  }

  /** The literal of every HTML block, in pre-order. */
  function Literals(n: MdNode): seq<Bytes>
    decreases n, 1
  {
    match n
    case HtmlBlock(l) => [l]
    case Other(cs) => LiteralsIn(cs)
  }

  function LiteralsIn(cs: seq<MdNode>): seq<Bytes>
    decreases cs, 0
  {
    if cs == [] then [] else Literals(cs[0]) + LiteralsIn(cs[1..])
  }

  /** A position in a markdown tree: the child indexes from the root. */
  type Path = seq<nat>

  /** One call of the visitor by `(*Node).Walk`: the node, where it is, and
      whether it is being entered or left. */
  datatype Event = Event(path: Path, node: MdNode, entering: bool)

  /** The calls `Walk` makes when no visitor call ends it early: a node is
      entered, then its children are walked in order, then it is left; an
      HTML block (not a container) is only entered. Every `Other` node is
      given an exit call here, although blackfriday's leaves (text, code,
      inline HTML) are only entered; only the calls entering HTML blocks
      matter to the visitor, so the extra exits change nothing. */
  function Events(n: MdNode, path: Path): seq<Event>
    decreases n, 1
  {
    match n
    case HtmlBlock(_) => [Event(path, n, true)]
    case Other(cs) => [Event(path, n, true)] + EventsIn(cs, path, 0) + [Event(path, n, false)]
  }

  function EventsIn(cs: seq<MdNode>, path: Path, first: nat): seq<Event>
    decreases cs, 0
  {
    if cs == [] then []
    else Events(cs[0], path + [first]) + EventsIn(cs[1..], path, first + 1)
  }

  /** A raw HTML block and where it sits. */
  datatype Block = Block(path: Path, literal: Bytes)

  /** The HTML blocks that a walk enters, in the order it enters them. */
  function BlocksOf(evs: seq<Event>): seq<Block>
  {
    if evs == [] then []
    else
      var e := evs[0];
      (if e.entering && e.node.HtmlBlock? then [Block(e.path, e.node.literal)] else [])
        + BlocksOf(evs[1..])
  }

  function Blocks(root: MdNode): seq<Block>
  {
    BlocksOf(Events(root, []))
  }

  function LiteralsOf(bs: seq<Block>): (ls: seq<Bytes>)
    ensures |ls| == |bs|
    ensures forall i :: 0 <= i < |bs| ==> ls[i] == bs[i].literal
  {
    if bs == [] then [] else [bs[0].literal] + LiteralsOf(bs[1..])
  }

  lemma {:induction false} BlocksOfAppend(a: seq<Event>, b: seq<Event>)
    ensures BlocksOf(a + b) == BlocksOf(a) + BlocksOf(b)
  {
    if a != [] {
      assert (a + b)[0] == a[0];
      assert (a + b)[1..] == a[1..] + b;
      BlocksOfAppend(a[1..], b);
    } else {
      assert a + b == b;
    }
  }

  lemma {:induction false} LiteralsOfAppend(a: seq<Block>, b: seq<Block>)
    ensures LiteralsOf(a + b) == LiteralsOf(a) + LiteralsOf(b)
  {
    if a != [] {
      assert (a + b)[0] == a[0];
      assert (a + b)[1..] == a[1..] + b;
      LiteralsOfAppend(a[1..], b);
    } else {
      assert a + b == b;
    }
  }

  /** The walk enters the HTML blocks in pre-order: the blocks it visits
      are exactly those that input.go's recursive search visits, in the
      same order. */
  lemma {:induction false} WalkVisitsBlocksInPreorder(n: MdNode, path: Path)
    ensures LiteralsOf(BlocksOf(Events(n, path))) == Literals(n)
    decreases n, 1
  {
    match n
    case HtmlBlock(l) =>
      assert BlocksOf(Events(n, path)) == [Block(path, l)];
    case Other(cs) =>
      var enter := [Event(path, n, true)];
      var leave := [Event(path, n, false)];
      var inner := EventsIn(cs, path, 0);
      assert Events(n, path) == enter + (inner + leave);
      BlocksOfAppend(enter, inner + leave);
      BlocksOfAppend(inner, leave);
      assert BlocksOf(enter) == [] && BlocksOf(leave) == [];
      assert BlocksOf(Events(n, path)) == BlocksOf(inner);
      WalkVisitsBlocksInPreorderIn(cs, path, 0);
  }

  lemma {:induction false} WalkVisitsBlocksInPreorderIn(cs: seq<MdNode>, path: Path, first: nat)
    ensures LiteralsOf(BlocksOf(EventsIn(cs, path, first))) == LiteralsIn(cs)
    decreases cs, 0
  {
    if cs != [] {
      var head := Events(cs[0], path + [first]);
      var tail := EventsIn(cs[1..], path, first + 1);
      BlocksOfAppend(head, tail);
      LiteralsOfAppend(BlocksOf(head), BlocksOf(tail));
      WalkVisitsBlocksInPreorder(cs[0], path + [first]);
      WalkVisitsBlocksInPreorderIn(cs[1..], path, first + 1);
    }
  }

  /** `(*Node).Unlink` on the node at `path`: it is removed from its
      parent's children. The root has no parent and stays. */
  function Unlink(n: MdNode, path: Path): MdNode
    decreases path
  {
    if path == [] then n
    else match n
      case HtmlBlock(_) => n
      case Other(cs) =>
        var i := path[0];
        if i >= |cs| then n
        else if |path| == 1 then Other(cs[..i] + cs[i + 1..])
        else Other(cs[..i] + [Unlink(cs[i], path[1..])] + cs[i + 1..])
  }

  /** The node at `path`, if there is one. */
  function At(n: MdNode, path: Path): Option<MdNode>
    decreases path
  {
    if path == [] then Some(n)
    else match n
      case HtmlBlock(_) => None
      case Other(cs) => if path[0] < |cs| then At(cs[path[0]], path[1..]) else None
  }

  /** How many HTML blocks come before the node at `path` in pre-order. */
  function Rank(n: MdNode, path: Path): nat
    decreases path
  {
    if path == [] then 0
    else match n
      case HtmlBlock(_) => 0
      case Other(cs) =>
        if path[0] < |cs| then |LiteralsIn(cs[..path[0]])| + Rank(cs[path[0]], path[1..]) else 0
  }

  lemma {:induction false} LiteralsInAppend(a: seq<MdNode>, b: seq<MdNode>)
    ensures LiteralsIn(a + b) == LiteralsIn(a) + LiteralsIn(b)
  {
    if a == [] {
      assert a + b == b;
    } else {
      assert (a + b)[0] == a[0] && (a + b)[1..] == a[1..] + b;
      LiteralsInAppend(a[1..], b);
    }
  }

  /** The HTML blocks of a list of children, split around child `i`. */
  lemma LiteralsInAround(cs: seq<MdNode>, i: nat, c: MdNode)
    requires i < |cs|
    ensures LiteralsIn(cs[..i] + [c] + cs[i + 1..]) == LiteralsIn(cs[..i]) + Literals(c) + LiteralsIn(cs[i + 1..])
    ensures LiteralsIn(cs[..i] + cs[i + 1..]) == LiteralsIn(cs[..i]) + LiteralsIn(cs[i + 1..])
  {
    LiteralsInAppend(cs[..i] + [c], cs[i + 1..]);
    LiteralsInAppend(cs[..i], [c]);
    assert LiteralsIn([c]) == Literals(c) + LiteralsIn([]);
    LiteralsInAppend(cs[..i], cs[i + 1..]);
  }

  /** Unlinking an HTML block below the root removes exactly its literal
      from the page's blocks, at its place in pre-order, and keeps every
      other block in order. */
  lemma {:induction false} UnlinkRemovesBlock(n: MdNode, path: Path, l: Bytes)
    requires path != [] && At(n, path) == Some(HtmlBlock(l))
    ensures var k := Rank(n, path);
      && k < |Literals(n)| && Literals(n)[k] == l
      && Literals(Unlink(n, path)) == Literals(n)[..k] + Literals(n)[k + 1..]
    decreases path
  {
    assert n.Other? && path[0] < |n.children|;
    var cs, i := n.children, path[0];
    var child := cs[i];
    var b := Literals(child);
    var k' := Rank(child, path[1..]);
    var u := Unlink(child, path[1..]);
    if |path| == 1 {
      assert child == HtmlBlock(l) && b == [l] && k' == 0;
      assert Unlink(n, path) == Other(cs[..i] + cs[i + 1..]);
      assert LiteralsIn([]) == [];
      assert b[..k'] + b[k' + 1..] == [];
    } else {
      UnlinkRemovesBlock(child, path[1..], l);
      assert Unlink(n, path) == Other(cs[..i] + [u] + cs[i + 1..]);
    }
    UnlinkAtChild(cs, i, b, k', u, |path| == 1);
  }

  /** The step of `UnlinkRemovesBlock` at the parent: child `i`'s blocks
      `b` lose their `k`-th one, in place among the siblings' blocks. */
  lemma UnlinkAtChild(cs: seq<MdNode>, i: nat, b: seq<Bytes>, k: nat, u: MdNode, dropped: bool)
    requires i < |cs| && b == Literals(cs[i]) && k < |b|
    requires if dropped then b == [b[0]] && k == 0 else Literals(u) == b[..k] + b[k + 1..]
    ensures var whole := LiteralsIn(cs);
      var rest := if dropped then cs[..i] + cs[i + 1..] else cs[..i] + [u] + cs[i + 1..];
      && |LiteralsIn(cs[..i])| + k < |whole| && whole[|LiteralsIn(cs[..i])| + k] == b[k]
      && LiteralsIn(rest) == whole[..|LiteralsIn(cs[..i])| + k] + whole[|LiteralsIn(cs[..i])| + k + 1..]
  {
    var a, c := LiteralsIn(cs[..i]), LiteralsIn(cs[i + 1..]);
    assert cs == cs[..i] + [cs[i]] + cs[i + 1..];
    LiteralsInAround(cs, i, cs[i]);
    LiteralsInAround(cs, i, u);
    CutInside(a, b, c, k);
  }

  lemma CutInside(a: seq<Bytes>, b: seq<Bytes>, c: seq<Bytes>, k: nat)
    requires k < |b|
    ensures var w := a + b + c;
      && w[|a| + k] == b[k]
      && w[..|a| + k] + w[|a| + k + 1..] == a + (b[..k] + b[k + 1..]) + c
  {
    var w := a + b + c;
    assert w[..|a| + k] == a + b[..k];
    assert w[|a| + k + 1..] == b[k + 1..] + c;
  }

  /** Every block a walk from `path` enters sits, below `path`, at the
      path it is recorded with. */
  lemma {:induction false} BlocksAtTheirPaths(n: MdNode, path: Path)
    ensures forall b :: b in BlocksOf(Events(n, path)) ==>
      |path| <= |b.path| && b.path[..|path|] == path
      && At(n, b.path[|path|..]) == Some(HtmlBlock(b.literal))
    decreases n, 1
  {
    match n
    case HtmlBlock(l) =>
      assert BlocksOf(Events(n, path)) == [Block(path, l)];
    case Other(cs) =>
      var enter := [Event(path, n, true)];
      var leave := [Event(path, n, false)];
      var inner := EventsIn(cs, path, 0);
      assert Events(n, path) == enter + (inner + leave);
      BlocksOfAppend(enter, inner + leave);
      BlocksOfAppend(inner, leave);
      assert BlocksOf(enter) == [] && BlocksOf(leave) == [];
      assert BlocksOf(Events(n, path)) == BlocksOf(inner);
      BlocksAtTheirPathsIn(cs, path, 0);
      forall b | b in BlocksOf(inner)
        ensures At(n, b.path[|path|..]) == Some(HtmlBlock(b.literal))
      {
        var q := b.path[|path|..];
        assert q[0] == b.path[|path|] && q[1..] == b.path[|path| + 1..];
      }
  }

  lemma {:induction false} BlocksAtTheirPathsIn(cs: seq<MdNode>, path: Path, first: nat)
    ensures forall b :: b in BlocksOf(EventsIn(cs, path, first)) ==>
      && |path| < |b.path| && b.path[..|path|] == path
      && first <= b.path[|path|] < first + |cs|
      && At(cs[b.path[|path|] - first], b.path[|path| + 1..]) == Some(HtmlBlock(b.literal))
    decreases cs, 0
  {
    if cs != [] {
      var here := path + [first];
      var head := Events(cs[0], here);
      var tail := EventsIn(cs[1..], path, first + 1);
      BlocksOfAppend(head, tail);
      BlocksAtTheirPaths(cs[0], here);
      BlocksAtTheirPathsIn(cs[1..], path, first + 1);
      forall b | b in BlocksOf(head)
        ensures b.path[..|path|] == path && b.path[|path|] == first
        ensures b.path[|path| + 1..] == b.path[|here|..]
      {
        assert b.path[..|here|] == here;
        assert b.path[..|path|] == b.path[..|here|][..|path|];
        assert b.path[|path|] == b.path[..|here|][|path|];
      }
      forall b | b in BlocksOf(tail)
        ensures cs[b.path[|path|] - first] == cs[1..][b.path[|path|] - (first + 1)]
      {
      }
    }
  }

  /** Every block of the page sits at the path it is recorded with. */
  lemma BlocksPathsRight(root: MdNode)
    ensures forall b :: b in Blocks(root) ==> At(root, b.path) == Some(HtmlBlock(b.literal))
  {
    BlocksAtTheirPaths(root, []);
    forall b | b in Blocks(root) ensures b.path[0..] == b.path {
    }
  }

  /** The block a walk enters `j`-th sits at the path whose `Rank` is `j`:
      the walk's order and pre-order agree on positions too. */
  lemma {:induction false} BlockRank(n: MdNode, path: Path, j: nat)
    requires j < |BlocksOf(Events(n, path))|
    ensures var b := BlocksOf(Events(n, path))[j];
      && |path| <= |b.path| && b.path[..|path|] == path
      && Rank(n, b.path[|path|..]) == j
    decreases n, 1
  {
    match n
    case HtmlBlock(l) =>
      assert BlocksOf(Events(n, path)) == [Block(path, l)];
    case Other(cs) =>
      var enter := [Event(path, n, true)];
      var leave := [Event(path, n, false)];
      var inner := EventsIn(cs, path, 0);
      assert Events(n, path) == enter + (inner + leave);
      BlocksOfAppend(enter, inner + leave);
      BlocksOfAppend(inner, leave);
      assert BlocksOf(enter) == [] && BlocksOf(leave) == [];
      var b := BlocksOf(inner)[j];
      assert BlocksOf(Events(n, path))[j] == b;
      BlockRankIn(cs, path, 0, j);
      assert RankedIn(cs, path, 0, b.path, j);
      var q := b.path[|path|..];
      RankAtChild(cs, q);
      assert q[0] == b.path[|path|] && q[1..] == b.path[|path| + 1..];
  }

  /** `Rank` below a container: the blocks of the children before, plus
      the rank inside the child. */
  lemma RankAtChild(cs: seq<MdNode>, q: Path)
    requires q != [] && q[0] < |cs|
    ensures Rank(Other(cs), q) == |LiteralsIn(cs[..q[0]])| + Rank(cs[q[0]], q[1..])
  {
  }

  /** Where the `j`-th block of a list of children sits: below which
      child, and at what rank. */
  ghost predicate RankedIn(cs: seq<MdNode>, path: Path, first: nat, p: Path, j: nat)
  {
    && |path| < |p| && p[..|path|] == path
    && first <= p[|path|] < first + |cs|
    && |LiteralsIn(cs[..p[|path|] - first])| + Rank(cs[p[|path|] - first], p[|path| + 1..]) == j
  }

  lemma {:induction false} BlockRankIn(cs: seq<MdNode>, path: Path, first: nat, j: nat)
    requires j < |BlocksOf(EventsIn(cs, path, first))|
    ensures RankedIn(cs, path, first, BlocksOf(EventsIn(cs, path, first))[j].path, j)
    decreases cs, 0
  {
    assert cs != [];
    var here := path + [first];
    var head := BlocksOf(Events(cs[0], here));
    var tail := BlocksOf(EventsIn(cs[1..], path, first + 1));
    BlocksOfAppend(Events(cs[0], here), EventsIn(cs[1..], path, first + 1));
    assert BlocksOf(EventsIn(cs, path, first)) == head + tail;
    if j < |head| {
      BlockRank(cs[0], here, j);
      HeadRank(cs, path, first, head[j].path, j);
    } else {
      BlockRankIn(cs[1..], path, first + 1, j - |head|);
      WalkVisitsBlocksInPreorder(cs[0], here);
      TailRank(cs, path, first, tail[j - |head|].path, j - |head|);
    }
  }

  lemma HeadRank(cs: seq<MdNode>, path: Path, first: nat, p: Path, j: nat)
    requires cs != [] && |path| + 1 <= |p| && p[..|path| + 1] == path + [first]
    requires Rank(cs[0], p[|path| + 1..]) == j
    ensures RankedIn(cs, path, first, p, j)
  {
    assert p[..|path|] == p[..|path| + 1][..|path|];
    assert p[|path|] == p[..|path| + 1][|path|];
    assert cs[..0] == [];
  }

  lemma TailRank(cs: seq<MdNode>, path: Path, first: nat, p: Path, j: nat)
    requires cs != [] && RankedIn(cs[1..], path, first + 1, p, j)
    ensures RankedIn(cs, path, first, p, |Literals(cs[0])| + j)
  {
    var i := p[|path|] - (first + 1);
    assert cs[..i + 1] == [cs[0]] + cs[1..][..i];
    LiteralsInAppend([cs[0]], cs[1..][..i]);
    assert LiteralsIn([cs[0]]) == Literals(cs[0]) + LiteralsIn([]);
    assert cs[i + 1] == cs[1..][i];
  }
}

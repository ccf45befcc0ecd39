/** pageinfo.go (the newer revision): `getMeta` walks the markdown tree and
    takes the first HTML block whose first comment starts with "meta",
    decoding the rest of the comment as YAML, surfacing every failure and
    optionally unlinking the block; `LoadPage` back-fills the defaults; and
    the `PageInfo` methods that read the metadata (`getMeta` on key paths,
    the template delimiters, `Output`). */
module PageMeta {
  import opened Values
  import opened Trees
  import Paths
  import TemplateFuncs
  import MetaDefaults

  /** The bytes of "meta". */
  const MetaPrefix: Bytes := [0x6d, 0x65, 0x74, 0x61]

  /** `bytes.HasPrefix(comment, []byte("meta"))`; a nil comment has no
      prefix of length four. */
  predicate HasMetaPrefix(comment: Option<Bytes>)
  {
    comment.Some? && |comment.value| >= 4 && comment.value[..4] == MetaPrefix
  }

  /** What the visitor decides at one HTML block: stop with an error, move
      on to the next block, or stop with the decoded metadata. */
  datatype Verdict = Abort(err: Error) | Pass | Found(meta: Option<ValueMap>)

  /** The visitor's decision for an HTML block with literal `lit`. */
  function Examine(lit: Bytes, parse: HtmlParser, decode: Decoder): Verdict
  {
    match parse(lit)
    case Err(e) => Abort(Wrapped("parse HTML", e))
    case Ok(h) =>
      var (comment, ferr) := FindComment(h);
      if ferr.Some? then Abort(Wrapped("find comment", ferr.value))
      else if !HasMetaPrefix(comment) then Pass
      else match decode(comment.value[4..])
        case Err(e) => Abort(Wrapped("unmarshal", e))
        case Ok(m) => Found(m)
  }

  /** What the walk ends with: the metadata map (`None` for a nil map), the
      error, and the path of the block that is unlinked, if any. */
  datatype Extraction = Extraction(meta: Option<ValueMap>, err: Option<Error>, unlinked: Option<Path>)

  /** The walk over the HTML blocks it enters, in order: the first block
      that does not pass decides, and the map starts out empty. */
  function Extract(blocks: seq<Block>, unlink: bool, parse: HtmlParser, decode: Decoder): Extraction
  {
    if blocks == [] then Extraction(Some(map[]), None, None)
    else match Examine(blocks[0].literal, parse, decode)
      case Abort(e) => Extraction(Some(map[]), Some(e), None)
      case Found(m) => Extraction(m, None, if unlink then Some(blocks[0].path) else None)
      case Pass => Extract(blocks[1..], unlink, parse, decode)
  }

  /** One block: a parse error or a comment search error stops the walk; a
      block whose first comment is missing or does not start with "meta" is
      passed over; otherwise the text after "meta" is decoded, and a
      decoding error stops the walk too. */
  lemma ExamineBlock(lit: Bytes, parse: HtmlParser, decode: Decoder)
    ensures var v := Examine(lit, parse, decode);
      match parse(lit)
      case Err(e) => v == Abort(Wrapped("parse HTML", e))
      case Ok(h) =>
        var cs := Comments(h);
        if cs == [] || |cs[0]| < 4 || cs[0][..4] != MetaPrefix then v == Pass
        else match decode(cs[0][4..])
          case Err(e) => v == Abort(Wrapped("unmarshal", e))
          case Ok(m) => v == Found(m)
  {
    if parse(lit).Ok? {
      FindCommentIsFirstComment(parse(lit).value);
    }
  }

  /** The visitor's work at an entered HTML block (pageinfo.go:195-221):
      parse the literal, find its first comment, and decode what follows
      "meta". Its decision is `Examine`'s. */
  method Visit(lit: Bytes, parse: HtmlParser, decode: Decoder) returns (v: Verdict)
    ensures v == Examine(lit, parse, decode)
    ensures v.Abort? ==> v.err.Wrapped? && v.err.context in {"parse HTML", "find comment", "unmarshal"}
  {
    var hnode := parse(lit);
    if hnode.Err? {
      return Abort(Wrapped("parse HTML", hnode.error));
    }
    var (comment, ferr) := FindComment(hnode.value);
    if ferr.Some? {
      return Abort(Wrapped("find comment", ferr.value));
    }
    if !HasMetaPrefix(comment) {
      return Pass;
    }
    var decoded := decode(comment.value[4..]);
    if decoded.Err? {
      return Abort(Wrapped("unmarshal", decoded.error));
    }
    return Found(decoded.value);
  }

  /** `getMeta(node, unlink)`: the walk of `(*Node).Walk` with the
      visitor, over the events of the whole tree. Events other than
      entering an HTML block go on to the next (`GoToNext`); at an HTML
      block the visitor's `Terminate` is a `break`, and `SkipChildren`
      (nothing to skip in a block) goes on to the next event. The result
      is the extraction over the tree's HTML blocks, and the tree loses
      the metadata block exactly when one was unlinked. */
  method GetMeta(root: MdNode, unlink: bool, parse: HtmlParser, decode: Decoder)
    returns (meta: Option<ValueMap>, werr: Option<Error>, tree: MdNode)
    ensures var x := Extract(Blocks(root), unlink, parse, decode);
      && meta == x.meta
      && werr == x.err
      && tree == (if x.unlinked.Some? then Unlink(root, x.unlinked.value) else root)
    ensures var x := Extract(Blocks(root), unlink, parse, decode);
      root.Other? && x.unlinked.Some? ==> RemovesDecodedBlock(root, tree, x.meta, parse, decode)
  {
    meta := Some(map[]);
    werr := None;
    tree := root;
    var events := Events(root, []);
    var i := 0;
    while i < |events|
      invariant 0 <= i <= |events|
      invariant meta == Some(map[]) && werr == None && tree == root
      invariant Extract(BlocksOf(events[i..]), unlink, parse, decode) == Extract(Blocks(root), unlink, parse, decode)
    {
      var ev := events[i];
      BlocksOfStep(events, i);
      if !ev.entering || !ev.node.HtmlBlock? {
        assert BlocksOf(events[i..]) == BlocksOf(events[i + 1..]);
        i := i + 1;
        continue;
      }
      ExtractStep(Block(ev.path, ev.node.literal), BlocksOf(events[i + 1..]), unlink, parse, decode);
      var v := Visit(ev.node.literal, parse, decode);
      match v
      case Pass =>
        i := i + 1;
      case Abort(e) =>
        werr := Some(e);
        break;
      case Found(m) =>
        meta := m;
        if unlink {
          tree := Unlink(tree, ev.path);
        }
        break;
    }
    GetMetaRemovesDecodedBlock(root, unlink, parse, decode);
  }

  /** `after` is `before` with one HTML block removed: the first block,
      in pre-order, that does not pass, whose literal decodes to `meta`.
      The blocks before it and after it stay, in order. */
  ghost predicate RemovesDecodedBlock(before: MdNode, after: MdNode, meta: Option<ValueMap>,
                                      parse: HtmlParser, decode: Decoder)
  {
    exists k :: 0 <= k < |Literals(before)|
      && (forall i :: 0 <= i < k ==> Examine(Literals(before)[i], parse, decode) == Pass)
      && Examine(Literals(before)[k], parse, decode) == Found(meta)
      && Literals(after) == Literals(before)[..k] + Literals(before)[k + 1..]
  }

  /** Unlinking the `j`-th block of the walk, the first that does not
      pass, removes exactly it from the page. */
  lemma UnlinkFirstDecoded(root: MdNode, j: nat, meta: Option<ValueMap>, parse: HtmlParser, decode: Decoder)
    requires root.Other? && j < |Blocks(root)|
    requires Examine(Blocks(root)[j].literal, parse, decode) == Found(meta)
    requires forall i :: 0 <= i < j ==> Examine(Blocks(root)[i].literal, parse, decode) == Pass
    ensures RemovesDecodedBlock(root, Unlink(root, Blocks(root)[j].path), meta, parse, decode)
  {
    var blocks := Blocks(root);
    var b := blocks[j];
    BlocksPathsRight(root);
    assert b in blocks;
    assert At(root, b.path) == Some(HtmlBlock(b.literal));
    assert b.path != [];
    UnlinkRemovesBlock(root, b.path, b.literal);
    BlockRank(root, [], j);
    assert b.path[0..] == b.path;
    WalkVisitsBlocksInPreorder(root, []);
    var ls := Literals(root);
    assert Rank(root, b.path) == j && ls[j] == b.literal;
    forall i | 0 <= i < j ensures Examine(ls[i], parse, decode) == Pass {
      assert ls[i] == blocks[i].literal;
    }
  }

  /** When the walk unlinks a block below the root, the tree it leaves has
      lost exactly the block whose metadata decoded, and keeps every other
      block in order. A root that is itself the block has no parent and
      stays as it is. */
  lemma GetMetaRemovesDecodedBlock(root: MdNode, unlink: bool, parse: HtmlParser, decode: Decoder)
    ensures var x := Extract(Blocks(root), unlink, parse, decode);
      && (root.Other? && x.unlinked.Some? ==>
            RemovesDecodedBlock(root, Unlink(root, x.unlinked.value), x.meta, parse, decode))
      && (root.HtmlBlock? && x.unlinked.Some? ==> Unlink(root, x.unlinked.value) == root)
  {
    var blocks := Blocks(root);
    var x := Extract(blocks, unlink, parse, decode);
    if x.unlinked.Some? {
      var p := x.unlinked.value;
      ExtractUnlinksOnlyDecoded(blocks, unlink, parse, decode);
      var j :| 0 <= j < |blocks| && blocks[j].path == p
        && Examine(blocks[j].literal, parse, decode) == Found(x.meta)
        && forall i :: 0 <= i < j ==> Examine(blocks[i].literal, parse, decode) == Pass;
      if root.Other? {
        UnlinkFirstDecoded(root, j, x.meta, parse, decode);
      } else {
        BlocksPathsRight(root);
        assert At(root, p) == Some(HtmlBlock(blocks[j].literal));
        assert p == [];
      }
    }
  }

  /** Extraction over a first block and the rest. */
  lemma ExtractStep(b: Block, rest: seq<Block>, unlink: bool, parse: HtmlParser, decode: Decoder)
    ensures Extract([b] + rest, unlink, parse, decode) ==
      match Examine(b.literal, parse, decode)
      case Abort(e) => Extraction(Some(map[]), Some(e), None)
      case Found(m) => Extraction(m, None, if unlink then Some(b.path) else None)
      case Pass => Extract(rest, unlink, parse, decode)
  {
    assert ([b] + rest)[0] == b && ([b] + rest)[1..] == rest;
  }

  /** One step of the walk: the blocks from event `i` on are the block
      event `i` enters, if any, followed by the blocks after it. */
  lemma BlocksOfStep(events: seq<Event>, i: nat)
    requires i < |events|
    ensures var e := events[i];
      BlocksOf(events[i..]) ==
        (if e.entering && e.node.HtmlBlock? then [Block(e.path, e.node.literal)] else [])
          + BlocksOf(events[i + 1..])
  {
    assert events[i..][0] == events[i] && events[i..][1..] == events[i + 1..];
  }

  /** Blocks that pass are passed over: only what follows them decides. */
  lemma {:induction false} ExtractSkipsPassing(pre: seq<Block>, rest: seq<Block>, unlink: bool,
                                               parse: HtmlParser, decode: Decoder)
    requires forall j :: 0 <= j < |pre| ==> Examine(pre[j].literal, parse, decode) == Pass
    ensures Extract(pre + rest, unlink, parse, decode) == Extract(rest, unlink, parse, decode)
  {
    if pre == [] {
      assert pre + rest == rest;
    } else {
      assert (pre + rest)[0] == pre[0];
      assert (pre + rest)[1..] == pre[1..] + rest;
      ExtractSkipsPassing(pre[1..], rest, unlink, parse, decode);
    }
  }

  /** A page without a metadata block gets an empty, non-nil map, no
      error, and keeps all of its blocks. */
  lemma ExtractWithoutMeta(blocks: seq<Block>, unlink: bool, parse: HtmlParser, decode: Decoder)
    requires forall j :: 0 <= j < |blocks| ==> Examine(blocks[j].literal, parse, decode) == Pass
    ensures Extract(blocks, unlink, parse, decode) == Extraction(Some(map[]), None, None)
  {
    ExtractSkipsPassing(blocks, [], unlink, parse, decode);
    assert blocks + [] == blocks;
  }

  /** The first block that does not pass decides the outcome alone: a
      second metadata block after it is never decoded, and only the
      deciding block can be unlinked, and only when it was decoded. */
  lemma ExtractFirstDecides(pre: seq<Block>, b: Block, post: seq<Block>, unlink: bool,
                            parse: HtmlParser, decode: Decoder)
    requires forall j :: 0 <= j < |pre| ==> Examine(pre[j].literal, parse, decode) == Pass
    requires Examine(b.literal, parse, decode) != Pass
    ensures var v := Examine(b.literal, parse, decode);
      Extract(pre + [b] + post, unlink, parse, decode) ==
        if v.Abort? then Extraction(Some(map[]), Some(v.err), None)
        else Extraction(v.meta, None, if unlink then Some(b.path) else None)
  {
    assert pre + [b] + post == pre + ([b] + post);
    ExtractSkipsPassing(pre, [b] + post, unlink, parse, decode);
    assert ([b] + post)[0] == b;
  }

  /** A block is unlinked only when unlinking was asked for and the walk
      ended without an error, and it is the first block that does not
      pass, one whose metadata decoded. */
  lemma {:induction false} ExtractUnlinksOnlyDecoded(blocks: seq<Block>, unlink: bool,
                                                     parse: HtmlParser, decode: Decoder)
    ensures var x := Extract(blocks, unlink, parse, decode);
      x.unlinked.Some? ==>
        && unlink && x.err.None?
        && exists j :: 0 <= j < |blocks| && blocks[j].path == x.unlinked.value
             && Examine(blocks[j].literal, parse, decode) == Found(x.meta)
             && forall i :: 0 <= i < j ==> Examine(blocks[i].literal, parse, decode) == Pass
  {
    if blocks != [] && Examine(blocks[0].literal, parse, decode).Pass? {
      ExtractUnlinksOnlyDecoded(blocks[1..], unlink, parse, decode);
      var x := Extract(blocks, unlink, parse, decode);
      if x.unlinked.Some? {
        var j :| 0 <= j < |blocks[1..]| && blocks[1..][j].path == x.unlinked.value
             && Examine(blocks[1..][j].literal, parse, decode) == Found(x.meta)
             && forall i :: 0 <= i < j ==> Examine(blocks[1..][i].literal, parse, decode) == Pass;
        assert blocks[j + 1] == blocks[1..][j];
        forall i | 0 <= i < j + 1 ensures Examine(blocks[i].literal, parse, decode) == Pass {
          if i > 0 {
            assert blocks[i] == blocks[1..][i - 1];
          }
        }
      }
    }
  }

  /** An error leaves the empty map in place; the map is nil only when the
      decoder produced a nil map. */
  lemma {:induction false} ExtractErrorKeepsEmptyMap(blocks: seq<Block>, unlink: bool,
                                                     parse: HtmlParser, decode: Decoder)
    ensures var x := Extract(blocks, unlink, parse, decode);
      && (x.err.Some? ==> x.meta == Some(map[]) && x.unlinked.None?)
      && (x.meta.None? ==> exists j :: 0 <= j < |blocks| && Examine(blocks[j].literal, parse, decode) == Found(None))
  {
    if blocks != [] && Examine(blocks[0].literal, parse, decode).Pass? {
      ExtractErrorKeepsEmptyMap(blocks[1..], unlink, parse, decode);
      var x := Extract(blocks, unlink, parse, decode);
      if x.meta.None? {
        var j :| 0 <= j < |blocks[1..]| && Examine(blocks[1..][j].literal, parse, decode) == Found(None);
        assert blocks[j + 1] == blocks[1..][j];
      }
    }
  }

  /** `PageInfo`: the source file's information, its metadata and its
      rendered content. */
  datatype PageInfo = PageInfo(inputInfo: FileInfo, meta: ValueMap, content: string)

  /** The value reached by following `keys` through nested maps: the last
      key is looked up in the map the others lead to, and nil comes back as
      soon as a key on the way does not hold a map. */
  function Resolve(m: ValueMap, keys: seq<string>): Value
    requires |keys| >= 1
    decreases |keys|
  {
    if |keys| == 1 then Get(m, keys[0])
    else match Get(m, keys[0])
      case Map(next) => Resolve(next, keys[1..])
      case _ => Null
  }

  /** The map that the keys `ks` lead to, one key at a time from the
      outside in, or `None` when one of them does not hold a map. */
  function Descend(m: ValueMap, ks: seq<string>): Option<ValueMap>
  {
    if ks == [] then Some(m)
    else match Descend(m, ks[..|ks| - 1])
      case None => None
      case Some(inner) =>
        match Get(inner, ks[|ks| - 1])
        case Map(next) => Some(next)
        case _ => None
  }

  /** Following keys from the outside in and taking the last one there is
      the same as resolving them from the front. */
  lemma {:induction false} DescendFront(m: ValueMap, k: string, ks: seq<string>)
    ensures Descend(m, [k] + ks) ==
      match Get(m, k) case Map(next) => Descend(next, ks) case _ => None
    decreases |ks|
  {
    if ks != [] {
      var init := ks[..|ks| - 1];
      assert ([k] + ks)[..|ks|] == [k] + init;
      assert ([k] + ks)[|ks|] == ks[|ks| - 1];
      DescendFront(m, k, init);
    } else {
      assert ([k] + ks)[..0] == [];
    }
  }

  /** The value `getMeta(keys...)` returns: the last key looked up in the
      map the other keys lead to, nil when they lead to none. */
  lemma {:induction false} ResolveIsLastKeyOfDescent(m: ValueMap, keys: seq<string>)
    requires |keys| >= 1
    ensures Resolve(m, keys) ==
      match Descend(m, keys[..|keys| - 1])
      case None => Null
      case Some(inner) => Get(inner, keys[|keys| - 1])
    decreases |keys|
  {
    if |keys| > 1 {
      var rest := keys[1..];
      assert keys == [keys[0]] + rest;
      assert keys[..|keys| - 1] == [keys[0]] + rest[..|rest| - 1];
      DescendFront(m, keys[0], rest[..|rest| - 1]);
      if Get(m, keys[0]).Map? {
        ResolveIsLastKeyOfDescent(Get(m, keys[0]).entries, rest);
      }
    } else {
      assert keys[..0] == [];
    }
  }

  /** `(*PageInfo).getMeta(keys...)`: panics without keys, otherwise walks
      down the nested maps one key at a time. */
  method LookupPath(page: PageInfo, keys: seq<string>) returns (r: Outcome<Value>)
    ensures keys == [] <==> r.Panic?
    ensures keys != [] ==> r == Normal(Resolve(page.meta, keys))
  {
    if |keys| == 0 {
      return Panic("no keys provided");
    }
    var meta := page.meta;
    var ks := keys;
    while |ks| > 1
      invariant |ks| >= 1
      invariant Resolve(meta, ks) == Resolve(page.meta, keys)
      decreases |ks|
    {
      var next := Get(meta, ks[0]);
      if !next.Map? {
        return Normal(Null);
      }
      ks := ks[1..];
      meta := next.entries;
    }
    return Normal(Get(meta, ks[0]));
  }

  /** `v.(string)` with the ok result dropped: the string, or "" for any
      other value. */
  function StringOrEmpty(v: Value): (s: string)
    ensures v.Str? ==> s == v.s
    ensures !v.Str? ==> s == ""
  {
    if v.Str? then v.s else ""
  }

  const LeftDelimKeys: seq<string> := ["template", "delims", "left"]
  const RightDelimKeys: seq<string> := ["template", "delims", "right"]

  /** The delimiters `render` gives the content template: the strings at
      template.delims.left and template.delims.right, each "" (the default
      delimiter) when absent or not a string. */
  method TemplateDelims(page: PageInfo) returns (left: string, right: string)
    ensures Resolve(page.meta, LeftDelimKeys).Str? ==> left == Resolve(page.meta, LeftDelimKeys).s
    ensures !Resolve(page.meta, LeftDelimKeys).Str? ==> left == ""
    ensures Resolve(page.meta, RightDelimKeys).Str? ==> right == Resolve(page.meta, RightDelimKeys).s
    ensures !Resolve(page.meta, RightDelimKeys).Str? ==> right == ""
  {
    var l := LookupPath(page, LeftDelimKeys);
    var r := LookupPath(page, RightDelimKeys);
    left := StringOrEmpty(l.value);
    right := StringOrEmpty(r.value);
  }

  /** Without a "template" map in the metadata the default delimiters are
      used. */
  lemma DelimsDefaultWithoutTemplate(m: ValueMap)
    requires "template" !in m || !m["template"].Map?
    ensures Resolve(m, LeftDelimKeys) == Null && Resolve(m, RightDelimKeys) == Null
  {
  }

  /** `fmt.Sprint` of a metadata value: a string is itself, nil is
      "<nil>", anything else is formatted by `format`. */
  function Sprint(v: Value, format: Value -> string): (s: string)
    ensures v.Str? ==> s == v.s
    ensures v.Null? ==> s == "<nil>"
  {
    match v
    case Str(s) => s
    case Null => "<nil>"
    case _ => format(v)
  }

  /** `(*PageInfo).Output`: the slug of the title, printed, with ".html".
      For a string title this is `link_to_title` of the title, and in every
      case its extension is ".html". */
  function Output(page: PageInfo, slugify: string -> string, format: Value -> string): (r: string)
    ensures Paths.Ext(r) == ".html"
    ensures Paths.RemoveExt(r) == slugify(Sprint(Get(page.meta, "title"), format))
    ensures Get(page.meta, "title").Str? ==>
      r == TemplateFuncs.LinkToTitle(slugify, Get(page.meta, "title").s)
  {
    TemplateFuncs.Link(slugify(Sprint(Get(page.meta, "title"), format)))
  }

  /** The metadata part of `LoadPage`: `getMeta(node, true)`, its error
      wrapped as "get meta", then the back-fill of the defaults into the
      map. A nil map (a YAML document that is null) makes the first
      back-fill assignment panic. On success the result is the filled map
      and the tree without its metadata block. */
  method LoadPageMeta(root: MdNode, info: FileInfo, parse: HtmlParser, decode: Decoder)
    returns (r: Outcome<Result<(ValueMap, MdNode)>>)
    ensures var x := Extract(Blocks(root), true, parse, decode);
      && (x.err.Some? ==> r == Normal(Err(Wrapped("get meta", x.err.value))))
      && (x.err.None? && x.meta.None? ==> r.Panic?)
      && (x.err.None? && x.meta.Some? ==>
            var given := x.meta.value;
            && r.Normal? && r.value.Ok?
            && r.value.value.0.Keys == given.Keys + {"title", "time"}
            && (forall k :: k in given ==> r.value.value.0[k] == given[k])
            && ("title" !in given ==> r.value.value.0["title"] == MetaDefaults.DefaultTitle(info))
            && ("time" !in given ==> r.value.value.0["time"] == Time(info.modTime))
            && r.value.value.1 == (if x.unlinked.Some? then Unlink(root, x.unlinked.value) else root))
    ensures var x := Extract(Blocks(root), true, parse, decode);
      r.Normal? && r.value.Ok? && root.Other? && x.unlinked.Some? ==>
        RemovesDecodedBlock(root, r.value.value.1, x.meta, parse, decode)
  {
    var meta, err, tree := GetMeta(root, true, parse, decode);
    if err.Some? {
      return Normal(Err(Wrapped("get meta", err.value)));
    }
    if meta.None? {
      return Panic("assignment to entry in nil map");
    }
    var filled := MetaDefaults.BackFill(meta.value, MetaDefaults.PageDefaults(info));
    return Normal(Ok((filled, tree)));
  }
}

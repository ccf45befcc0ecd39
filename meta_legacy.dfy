/** input.go (the older revision): `getMeta` finds the metadata of a page
    as the first HTML block, in pre-order, whose first comment decodes as
    JSON to a non-nil map. Decoding failures are skipped silently. */
module LegacyMeta {
  import opened Values
  import opened Trees

  /** `findHTML`: the block itself if it is an HTML block whose first
      comment decodes, otherwise the first child whose own search finds a
      map or an error. */
  function FindHtml(n: MdNode, parse: HtmlParser, decode: Decoder): (r: (Option<ValueMap>, Option<Error>))
    ensures !(r.0.Some? && r.1.Some?)
    ensures r.1.Some? ==> r.1.value.Wrapped? && r.1.value.context in {"parse HTML", "find comment"}
    decreases n, 1
  {
    match n
    case HtmlBlock(lit) =>
      (match parse(lit)
       case Err(e) => (None, Some(Wrapped("parse HTML", e)))
       case Ok(h) =>
         var (comment, ferr) := FindComment(h);
         if ferr.Some? then (None, Some(Wrapped("find comment", ferr.value)))
         else if comment.Some? && decode(comment.value).Ok? then (decode(comment.value).value, None)
         // an HTML block has no children to search
         else (None, None))
    case Other(cs) => FindHtmlIn(cs, parse, decode)
  }

  /** The loop over the children, returning at the first map or error. */
  function FindHtmlIn(cs: seq<MdNode>, parse: HtmlParser, decode: Decoder): (r: (Option<ValueMap>, Option<Error>))
    ensures !(r.0.Some? && r.1.Some?)
    ensures r.1.Some? ==> r.1.value.Wrapped? && r.1.value.context in {"parse HTML", "find comment"}
    decreases cs, 0
  {
    if cs == [] then (None, None)
    else
      var r := FindHtml(cs[0], parse, decode);
      if r.0.Some? || r.1.Some? then r else FindHtmlIn(cs[1..], parse, decode)
  }

  /** What one HTML block with literal `lit` yields. */
  function Examine(lit: Bytes, parse: HtmlParser, decode: Decoder): (Option<ValueMap>, Option<Error>)
  {
    FindHtml(HtmlBlock(lit), parse, decode)
  }

  /** The search over a list of block literals, in order, stopping at the
      first that yields a map or an error. */
  function Scan(lits: seq<Bytes>, parse: HtmlParser, decode: Decoder): (Option<ValueMap>, Option<Error>)
  {
    if lits == [] then (None, None)
    else
      var r := Examine(lits[0], parse, decode);
      if r.0.Some? || r.1.Some? then r else Scan(lits[1..], parse, decode)
  }

  /** One block: an HTML parse error stops the search with that error; a
      block without a comment, one whose first comment (taken whole, no
      prefix) fails to decode, and one that decodes to null (a nil map)
      are all passed over; otherwise the decoded map is the result. */
  lemma ExamineBlock(lit: Bytes, parse: HtmlParser, decode: Decoder)
    ensures var r := Examine(lit, parse, decode);
      match parse(lit)
      case Err(e) => r == (None, Some(Wrapped("parse HTML", e)))
      case Ok(h) =>
        if Comments(h) == [] then r == (None, None)
        else match decode(Comments(h)[0])
          case Err(_) => r == (None, None)
          case Ok(m) => r == (m, None)
  {
    if parse(lit).Ok? {
      FindCommentIsFirstComment(parse(lit).value);
    }
  }

  lemma {:induction false} ScanAppend(a: seq<Bytes>, b: seq<Bytes>, parse: HtmlParser, decode: Decoder)
    ensures Scan(a + b, parse, decode) ==
      if Scan(a, parse, decode) != (None, None) then Scan(a, parse, decode) else Scan(b, parse, decode)
  {
    if a == [] {
      assert a + b == b;
    } else {
      assert (a + b)[0] == a[0];
      assert (a + b)[1..] == a[1..] + b;
      ScanAppend(a[1..], b, parse, decode);
    }
  }

  /** `findHTML` is the in-order search over the HTML blocks of the tree
      taken in pre-order. */
  lemma {:induction false} FindHtmlScansBlocks(n: MdNode, parse: HtmlParser, decode: Decoder)
    ensures FindHtml(n, parse, decode) == Scan(Literals(n), parse, decode)
    decreases n, 1
  {
    match n
    case HtmlBlock(lit) =>
    case Other(cs) => FindHtmlInScansBlocks(cs, parse, decode);
  }

  lemma {:induction false} FindHtmlInScansBlocks(cs: seq<MdNode>, parse: HtmlParser, decode: Decoder)
    ensures FindHtmlIn(cs, parse, decode) == Scan(LiteralsIn(cs), parse, decode)
    decreases cs, 0
  {
    if cs != [] {
      FindHtmlScansBlocks(cs[0], parse, decode);
      FindHtmlInScansBlocks(cs[1..], parse, decode);
      ScanAppend(Literals(cs[0]), LiteralsIn(cs[1..]), parse, decode);
    }
  }

  /** `getMeta(node)`: a search error gives a nil map and the error; no
      match gives an empty (non-nil) map and no error. */
  function GetMeta(root: MdNode, parse: HtmlParser, decode: Decoder): (r: (Option<ValueMap>, Option<Error>))
    ensures r.1.Some? <==> r.0.None?
  {
    var (meta, err) := FindHtml(root, parse, decode);
    if err.Some? then (None, err)
    else if meta.None? then (Some(map[]), None)
    else (meta, None)
  }

  /** Blocks that yield nothing are passed over: only what follows them
      decides. */
  lemma {:induction false} ScanSkipsUnmatched(pre: seq<Bytes>, rest: seq<Bytes>, parse: HtmlParser, decode: Decoder)
    requires forall j :: 0 <= j < |pre| ==> Examine(pre[j], parse, decode) == (None, None)
    ensures Scan(pre + rest, parse, decode) == Scan(rest, parse, decode)
  {
    if pre == [] {
      assert pre + rest == rest;
    } else {
      assert (pre + rest)[1..] == pre[1..] + rest;
      ScanSkipsUnmatched(pre[1..], rest, parse, decode);
    }
  }

  /** When no block yields a map or an error, the result is an empty map
      and no error. */
  lemma GetMetaWithoutMatch(root: MdNode, parse: HtmlParser, decode: Decoder)
    requires forall l :: l in Literals(root) ==> Examine(l, parse, decode) == (None, None)
    ensures GetMeta(root, parse, decode) == (Some(map[]), None)
  {
    var lits := Literals(root);
    FindHtmlScansBlocks(root, parse, decode);
    ScanSkipsUnmatched(lits, [], parse, decode);
    assert lits + [] == lits;
  }

  /** The first block that yields a map or an error decides the result;
      the blocks after it are never looked at. */
  lemma GetMetaFirstMatch(root: MdNode, pre: seq<Bytes>, lit: Bytes, post: seq<Bytes>,
                          parse: HtmlParser, decode: Decoder)
    requires Literals(root) == pre + [lit] + post
    requires forall j :: 0 <= j < |pre| ==> Examine(pre[j], parse, decode) == (None, None)
    requires Examine(lit, parse, decode) != (None, None)
    ensures var r := Examine(lit, parse, decode);
      GetMeta(root, parse, decode) == if r.1.Some? then (None, r.1) else (r.0, None)
  {
    FindHtmlScansBlocks(root, parse, decode);
    assert pre + [lit] + post == pre + ([lit] + post);
    ScanSkipsUnmatched(pre, [lit] + post, parse, decode);
  }
}

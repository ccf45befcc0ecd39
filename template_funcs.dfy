/** template.go: the helper functions registered for templates
    (`limit`, `link`, `link_to_title`) and `loadTemplate`'s choice between
    the built-in template text and a file. `slug.Make` and the template
    parser are collaborators and come in as function parameters. */
module TemplateFuncs {
  import opened Values
  import Paths

  /** What a template hands to `limit`, and what `limit` hands back: a
      slice of elements, a `reflect.Value` over such a slice wrapped in an
      `interface{}`, or an untyped nil. */
  datatype LimitArg<T> = Elements(elems: seq<T>) | Boxed(wrapped: seq<T>) | Nil

  /** `limit length data` as template.go:20-26 writes it. `reflect.ValueOf`
      of a boxed `reflect.Value` has struct kind and of nil is the zero
      value, and `Len` panics on both. Data shorter than `length` comes back
      as `v` itself, a boxed `reflect.Value`, not as the slice; otherwise
      `Slice(0, length)` panics on a negative length and gives the first
      `length` elements. */
  function LimitAsWritten<T>(length: int, data: LimitArg<T>): (r: Outcome<LimitArg<T>>)
    ensures r.Normal? <==> data.Elements? && length >= 0
    ensures r.Normal? ==> (r.value.Boxed? <==> |data.elems| < length)
    ensures r.Normal? && r.value.Boxed? ==> r.value.wrapped == data.elems
    ensures r.Normal? && !r.value.Boxed? ==> r.value == Elements(data.elems[..length])
  {
    match data
    case Nil => Panic("reflect: call of reflect.Value.Len on zero Value")
    case Boxed(_) => Panic("reflect: call of reflect.Value.Len on struct Value")
    case Elements(xs) =>
      if |xs| < length then Normal(Boxed(xs))
      else if length < 0 then Panic("reflect: slice index out of range")
      else Normal(Elements(xs[..length]))
  }

  /** Data shorter than the limit comes back boxed, so a template cannot
      range over it, and limiting it again panics: `limit 5` of a
      two-element slice is a `reflect.Value`, and `limit 5` of that
      fails. */
  lemma LimitAsWrittenBoxesShortData<T>(length: int, xs: seq<T>)
    requires |xs| < length
    ensures LimitAsWritten(length, Elements(xs)) == Normal(Boxed(xs))
    ensures LimitAsWritten(length, LimitAsWritten(length, Elements(xs)).value).Panic?
  {
  }

  /** The concrete case: `limit 5` of two pages, then `limit 5` again. */
  lemma LimitAsWrittenTwoOfFive()
    ensures LimitAsWritten(5, Elements([1, 2])) == Normal(Boxed([1, 2]))
    ensures LimitAsWritten(5, Boxed([1, 2])).Panic?
  {
  }

  /** `limit length data` as evidently intended: the first `length`
      elements of `data`, or all of it (`return data`) when it is shorter.
      A negative length reaches `Slice(0, length)`, which panics. */
  function Limit<T>(length: int, data: seq<T>): (r: Outcome<seq<T>>)
    ensures length < 0 <==> r.Panic?
    ensures r.Normal? ==> r.value <= data
    ensures r.Normal? ==> |r.value| == if length < |data| then length else |data|
  {
    if |data| < length then Normal(data)
    else if length < 0 then Panic("reflect: slice index out of range")
    else Normal(data[..length])
  }

  /** Where the data is at least as long as the limit, the code as written
      and the intended `limit` agree: both panic on a negative length and
      both give the same prefix otherwise. */
  lemma LimitAsWrittenAgreesWhenLong<T>(length: int, xs: seq<T>)
    requires length <= |xs|
    ensures LimitAsWritten(length, Elements(xs)).Panic? <==> Limit(length, xs).Panic?
    ensures Limit(length, xs).Normal? ==>
      LimitAsWritten(length, Elements(xs)) == Normal(Elements(Limit(length, xs).value))
  {
  }

  /** Limiting to the length of the data returns all of it. */
  lemma LimitFullLength<T>(data: seq<T>)
    ensures Limit(|data|, data) == Normal(data)
  {
    assert data[..|data|] == data;
  }

  /** Limiting twice to the same length is limiting once; with the data
      handed back unboxed this holds for short data too. */
  lemma LimitIdempotent<T>(length: int, data: seq<T>)
    requires length >= 0
    ensures Limit(length, Limit(length, data).value) == Limit(length, data)
  {
    var once := Limit(length, data).value;
    if |data| >= length {
      assert |once| == length && once[..length] == once;
    }
  }

  /** `link slug`: the page file name for a slug. Removing the extension
      gives the slug back. */
  function Link(slug: string): (r: string)
    ensures Paths.Ext(r) == ".html"
    ensures Paths.RemoveExt(r) == slug
  {
    LinkRoundTrip(slug);
    slug + ".html"
  }

  lemma LinkRoundTrip(s: string)
    ensures Paths.Ext(s + ".html") == ".html"
    ensures Paths.RemoveExt(s + ".html") == s
  {
    assert Paths.IsExtension(".html");
    Paths.ExtOfAppendedExtension(s, ".html");
    Paths.RemoveExtOfAppendedExtension(s, ".html");
  }

  /** `link_to_title title`: the link of the title's slug. */
  function LinkToTitle(slugify: string -> string, title: string): (r: string)
    ensures Paths.RemoveExt(r) == slugify(title)
    ensures r == Link(slugify(title))
  {
    Link(slugify(title))
  }

  /** What opening and copying a template file gives. */
  datatype FileRead = OpenFailed(err: Error) | CopyFailed(err: Error) | Read(text: string)

  /** `(*template.Template).Parse` returns the template and nil, or nil and
      the error. */
  function FromParse<T>(p: Result<T>): (Option<T>, Option<Error>)
  {
    match p
    case Ok(t) => (Some(t), None)
    case Err(e) => (None, Some(e))
  }

  /** `loadTemplate(tmpl, def, path)`: parse `def` when `path` is empty,
      otherwise the contents of the file at `path`; an open or copy failure
      returns the template untouched together with the error. */
  function LoadTemplate<T>(tmpl: T, def: string, path: string,
                           parse: (T, string) -> Result<T>,
                           read: string -> FileRead): (r: (Option<T>, Option<Error>))
    ensures path == "" ==> r == FromParse(parse(tmpl, def))
    ensures path != "" && read(path).OpenFailed? ==> r == (Some(tmpl), Some(read(path).err))
    ensures path != "" && read(path).CopyFailed? ==> r == (Some(tmpl), Some(Wrapped("copy", read(path).err)))
    ensures path != "" && read(path).Read? ==> r == FromParse(parse(tmpl, read(path).text))
  {
    if path == "" then FromParse(parse(tmpl, def))
    else match read(path)
      case OpenFailed(e) => (Some(tmpl), Some(e))
      case CopyFailed(e) => (Some(tmpl), Some(Wrapped("copy", e)))
      case Read(text) => FromParse(parse(tmpl, text))
  }

  /** The built-in text is used exactly when no path is given: with a path
      it never matters, and without one the file system is never asked. */
  lemma LoadTemplateSourceChoice<T>(tmpl: T, def1: string, def2: string, path: string,
                                    parse: (T, string) -> Result<T>,
                                    read1: string -> FileRead, read2: string -> FileRead)
    ensures path != "" ==>
      LoadTemplate(tmpl, def1, path, parse, read1) == LoadTemplate(tmpl, def2, path, parse, read1)
    ensures path == "" ==>
      LoadTemplate(tmpl, def1, path, parse, read1) == LoadTemplate(tmpl, def1, path, parse, read2)
  {
  }
}

/** bog.go (the older revision): what `processPage` decides for one source
    file before it writes anything (metadata, default back-fill,
    destination name, staleness), the directory defaults and the `.md`
    filter of `main`, and what a worker does with `processPage`'s result.
    `os.Stat` results, `filepath.Join`, `slug.Make` and the context's error
    are inputs. */
module Build {
  import opened Values
  import opened Trees
  import Paths
  import TemplateFuncs
  import MetaDefaults
  import LegacyMeta

  /** What `os.Stat` on the destination reports: its modification time, a
      not-exist error, or some other error. */
  datatype StatResult = Exists(modTime: int) | NotExist | StatFailed(err: Error)

  /** `%q` of a path, without Go's escaping of special characters. */
  function Quote(s: string): (q: string)
    ensures |q| == |s| + 2 && q[0] == '"' && q[|q| - 1] == '"'
    ensures q[1..|q| - 1] == s
  {
    "\"" + s + "\""
  }

  /** What the destination's stat means for the page. */
  datatype Freshness = Rebuild | UpToDate | StatError(err: Error)

  /** bog.go:79-85: a stat error other than not-exist is an error; a
      destination strictly newer than the source is up to date; a missing
      destination, or one exactly as old or older, is rebuilt. */
  function Staleness(dst: string, srcTime: int, stat: StatResult): (f: Freshness)
    ensures f.UpToDate? <==> stat.Exists? && stat.modTime > srcTime
    ensures f.Rebuild? <==> stat.NotExist? || (stat.Exists? && stat.modTime <= srcTime)
    ensures f.StatError? <==> stat.StatFailed?
    ensures f.StatError? ==> f.err == Wrapped("stat " + Quote(dst), stat.err)
  {
    match stat
    case StatFailed(e) => StatError(Wrapped("stat " + Quote(dst), e))
    case NotExist => Rebuild
    case Exists(t) => if t > srcTime then UpToDate else Rebuild
  }

  /** Touching the source (a later source time) never turns a rebuild into
      a skip: staleness is monotone in the source time. */
  lemma StalenessMonotone(dst: string, srcTime: int, laterSrcTime: int, stat: StatResult)
    requires srcTime <= laterSrcTime
    requires Staleness(dst, srcTime, stat).Rebuild?
    ensures Staleness(dst, laterSrcTime, stat).Rebuild?
  {
  }

  /** bog.go:77: the output directory joined with the slug of the title and
      ".html". The type assertion `meta["title"].(string)` panics on a
      title that is not a string (including a missing one). */
  function Destination(outDir: string, meta: ValueMap, join: (string, string) -> string,
                       slugify: string -> string): (r: Outcome<string>)
    ensures r.Normal? <==> Get(meta, "title").Str?
    ensures r.Normal? ==> exists name ::
      && r.value == join(outDir, name)
      && Paths.Ext(name) == ".html"
      && Paths.RemoveExt(name) == slugify(Get(meta, "title").s)
  {
    match Get(meta, "title")
    case Str(t) =>
      var name := TemplateFuncs.Link(slugify(t));
      Normal(join(outDir, name))
    case _ => Panic("interface conversion: interface {} is not string")
  }

  /** What `processPage` has decided once it knows the destination's
      stat: it fails with an error, stops early (returning the context's
      error), or goes on to write `dst` with the filled-in metadata. */
  datatype Decision = Failed(err: Error) | Skipped(ctxErr: Option<Error>) | Write(dst: string, meta: ValueMap)

  /** The metadata a page ends up with in `processPage`: the supplied map
      with a default title when it has none. */
  predicate FilledFrom(filled: ValueMap, given: ValueMap, info: FileInfo)
  {
    && filled.Keys == given.Keys + {"title"}
    && (forall k :: k in given ==> filled[k] == given[k])
    && ("title" !in given ==> filled["title"] == MetaDefaults.DefaultTitle(info))
  }

  /** bog.go:57-85, the decisions of `processPage` for source `src` with
      markdown tree `root`: the metadata (an error wrapped with the source
      name), the back-fill of a title, the destination name (a panic on a
      non-string title) and the staleness test. Rendering into a
      `bytes.Buffer` cannot fail and is not a decision. */
  method ProcessPage(src: string, srcInfo: FileInfo, outDir: string, root: MdNode,
                     parse: HtmlParser, decode: Decoder,
                     join: (string, string) -> string, slugify: string -> string,
                     statDst: string -> StatResult, ctxErr: Option<Error>)
    returns (r: Outcome<Decision>)
    ensures var (given, err) := LegacyMeta.GetMeta(root, parse, decode);
      && (err.Some? ==> r == Normal(Failed(Wrapped("get meta from " + Quote(src), err.value))))
      && (err.None? ==>
            var title := if "title" in given.value then given.value["title"] else MetaDefaults.DefaultTitle(srcInfo);
            && (!title.Str? ==> r.Panic?)
            && (title.Str? ==>
                  var dst := join(outDir, TemplateFuncs.Link(slugify(title.s)));
                  match Staleness(dst, srcInfo.modTime, statDst(dst))
                  case StatError(e) => r == Normal(Failed(e))
                  case UpToDate => r == Normal(Skipped(ctxErr))
                  case Rebuild => r.Normal? && r.value.Write? && r.value.dst == dst
                                  && FilledFrom(r.value.meta, given.value, srcInfo)))
  {
    var (meta, err) := LegacyMeta.GetMeta(root, parse, decode);
    if err.Some? {
      return Normal(Failed(Wrapped("get meta from " + Quote(src), err.value)));
    }
    var filled := MetaDefaults.BackFill(meta.value, MetaDefaults.LegacyDefaults(srcInfo));
    var dst := Destination(outDir, filled, join, slugify);
    if dst.Panic? {
      return Panic(dst.reason);
    }
    match Staleness(dst.value, srcInfo.modTime, statDst(dst.value))
    case StatError(e) =>
      return Normal(Failed(e));
    case UpToDate =>
      return Normal(Skipped(ctxErr));
    case Rebuild =>
      return Normal(Write(dst.value, filled));
  }

  /** A page without a title of its own gets its file name as title, which
      is a string, so only a supplied title that is not a string can make
      the destination panic. */
  lemma DefaultTitleNeverPanics(outDir: string, filled: ValueMap, given: ValueMap, info: FileInfo,
                                join: (string, string) -> string, slugify: string -> string)
    requires FilledFrom(filled, given, info)
    requires "title" !in given || given["title"].Str?
    ensures Destination(outDir, filled, join, slugify).Normal?
  {
    assert "title" in filled;
  }

  /** `main`'s directory defaults: the source directory is "." when the
      argument is blank, and the output directory is the source directory
      when the flag is blank. Neither ends up blank. */
  function Dirs(sourceArg: string, outputFlag: string): (r: (string, string))
    ensures r.0 == (if sourceArg == "" then "." else sourceArg)
    ensures r.1 == (if outputFlag == "" then r.0 else outputFlag)
    ensures r.0 != "" && r.1 != ""
  {
    var source := if sourceArg == "" then "." else sourceArg;
    (source, if outputFlag == "" then source else outputFlag)
  }

  /** `strings.ToLower` on ASCII letters; no other character lowers to a
      character of ".md", so this is exact for the comparison below. */
  function LowerAscii(s: string): (r: string)
    ensures |r| == |s|
    ensures forall i :: 0 <= i < |s| ==>
      r[i] == if 'A' <= s[i] <= 'Z' then (s[i] as int + 32) as char else s[i]
  {
    if s == [] then []
    else
      var c := s[0];
      [if 'A' <= c <= 'Z' then (c as int + 32) as char else c] + LowerAscii(s[1..])
  }

  /** bog.go:268: a directory entry is processed when its lower-cased
      extension is ".md". */
  predicate IsMarkdown(name: string): (b: bool)
    ensures b ==> |Paths.Ext(name)| == 3 && Paths.Ext(name)[0] == '.'
  {
    LowerAscii(Paths.Ext(name)) == ".md"
  }

  /** The `.md` filter accepts only the four spellings of the
      extension... */
  lemma MarkdownHasMdExtension(name: string)
    requires IsMarkdown(name)
    ensures Paths.Ext(name) in {".md", ".mD", ".Md", ".MD"}
  {
    var e := Paths.Ext(name);
    var l := LowerAscii(e);
    assert |e| == 3;
    assert l[0] == '.' && l[1] == 'm' && l[2] == 'd';
    assert e[0] == '.' && (e[1] == 'm' || e[1] == 'M') && (e[2] == 'd' || e[2] == 'D');
    assert e == [e[0], e[1], e[2]];
  }

  /** ... and accepts each of them. */
  lemma MdExtensionIsMarkdown(name: string)
    requires Paths.Ext(name) in {".md", ".mD", ".Md", ".MD"}
    ensures IsMarkdown(name)
  {
    var e := Paths.Ext(name);
    var l := LowerAscii(e);
    assert |l| == 3;
    assert l[0] == '.' && l[1] == 'm' && l[2] == 'd';
    assert l == [l[0], l[1], l[2]];
  }

  /** The names of the markdown entries among `files`, in order. */
  function Selected(files: seq<FileInfo>): seq<string>
  {
    if files == [] then []
    else
      var last := files[|files| - 1];
      Selected(files[..|files| - 1]) + (if IsMarkdown(last.name) then [last.name] else [])
  }

  /** A name is selected exactly when some entry has it and a markdown
      extension. */
  lemma {:induction false} SelectedMembers(files: seq<FileInfo>)
    ensures forall n :: n in Selected(files) <==> exists f :: f in files && f.name == n && IsMarkdown(n)
  {
    if files != [] {
      var init := files[..|files| - 1];
      var last := files[|files| - 1];
      SelectedMembers(init);
      assert files == init + [last];
      forall n | n in Selected(files) ensures exists f :: f in files && f.name == n && IsMarkdown(n) {
        if n in Selected(init) {
          var f :| f in init && f.name == n && IsMarkdown(n);
          assert f in files;
        } else {
          assert last in files;
        }
      }
    }
  }

  /** bog.go:267-286 without the goroutines: the names of the directory
      entries handed to a worker, in directory order. */
  method PagesToBuild(files: seq<FileInfo>) returns (names: seq<string>)
    ensures |names| <= |files|
    ensures names == Selected(files)
    ensures forall n :: n in names <==> exists f :: f in files && f.name == n && IsMarkdown(n)
  {
    names := [];
    var i := 0;
    while i < |files|
      invariant 0 <= i <= |files|
      invariant |names| <= i
      invariant names == Selected(files[..i])
    {
      var file := files[i];
      assert files[..i + 1][..i] == files[..i];
      if !IsMarkdown(file.name) {
        i := i + 1;
        continue;
      }
      names := names + [file.name];
      i := i + 1;
    }
    assert files[..i] == files;
    SelectedMembers(files);
  }

  /** `pageInfo`: the source and destination names and times, and the
      page's metadata. */
  datatype PageRecord = PageRecord(src: string, dst: string, srcTime: int, dstTime: int, meta: ValueMap)

  /** What `processPage` returns after its decision: `built` is what the
      steps after the decision give (creating and writing the destination
      and its stat afterwards), the destination's new time or the error of
      the first of them that fails. */
  function ProcessResult(src: string, srcInfo: FileInfo, d: Decision, built: Result<int>,
                         ctxErr: Option<Error>): (r: (Option<PageRecord>, Option<Error>))
    ensures r.0.Some? <==> d.Write? && built.Ok?
    ensures r.0.Some? ==> r.0.value == PageRecord(src, d.dst, srcInfo.modTime, built.value, d.meta)
    ensures r.0.Some? ==> r.1 == ctxErr
    ensures d.Failed? ==> r.1 == Some(d.err)
    ensures d.Skipped? ==> r.1 == d.ctxErr
    ensures d.Write? && built.Err? ==> r.1 == Some(built.error)
  {
    match d
    case Failed(e) => (None, Some(e))
    case Skipped(c) => (None, c)
    case Write(dst, meta) =>
      match built
      case Err(e) => (None, Some(e))
      case Ok(t) => (Some(PageRecord(src, dst, srcInfo.modTime, t, meta)), ctxErr)
  }

  /** What a worker does with it: a nil page returns the call's error and
      sends nothing; a page is offered to the collector. */
  datatype WorkerResult = Returned(err: Option<Error>) | Sent(page: PageRecord)

  function Worker(page: Option<PageRecord>, err: Option<Error>): (w: WorkerResult)
    ensures w.Returned? <==> page.None?
    ensures w.Returned? ==> w.err == err
    ensures w.Sent? ==> w.page == page.value
  {
    if page.None? then Returned(err) else Sent(page.value)
  }

  /** A page reaches the collector exactly when it was rebuilt: a failed
      page returns its error, and an up-to-date page returns the context's
      error (nil while the build goes on), so it is not in the index. */
  lemma WorkerSendsOnlyRebuiltPages(src: string, srcInfo: FileInfo, d: Decision, built: Result<int>,
                                    ctxErr: Option<Error>)
    ensures var (page, err) := ProcessResult(src, srcInfo, d, built, ctxErr);
      && (Worker(page, err).Sent? <==> d.Write? && built.Ok?)
      && (d.Skipped? ==> Worker(page, err) == Returned(d.ctxErr))
      && (d.Failed? ==> Worker(page, err) == Returned(Some(d.err)))
      && (Worker(page, err).Sent? ==>
            Worker(page, err).page.dst == d.dst && Worker(page, err).page.meta == d.meta
            && Worker(page, err).page.dstTime == built.value)
  {
  }
}

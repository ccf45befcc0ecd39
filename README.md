# bog, modelled in Dafny

bog is a small static-site generator. It reads markdown pages from a
source directory. A page can carry its metadata in an HTML comment. bog
renders each page through templates into an output directory and keeps an
index of the pages it built, ordered by time. Two revisions of the
program appear here:

- The older revision (bog.go, input.go, markdown.go) reads JSON metadata
  and silently skips comments that fail to decode.
- The newer revision (pageinfo.go, template.go, markdown/markdown.go)
  reads YAML metadata after a `meta` prefix, surfaces every error and can
  unlink the metadata block from the tree.

This project models the decision logic and the data-structure routines of
both revisions, and proves what they promise:

- **Sorted index** (`Collector`). The collector keeps `pages` oldest first.
  The slice is an array plus a length. `sort.Search` is a binary search.
  `append` and `copy` are a grow step and a shift. Insertion is proved to
  place the page at the slot after every page that is not later. It keeps
  the slice sorted, keeps equal-time pages in arrival order, and adds
  exactly the one page.
- **Per-page decisions** (`Build`, `MetaDefaults`). This covers the
  metadata and its error, the default back-fill loop, the destination name
  with its panic on a non-string title, and the staleness test (strictly
  after means up to date). It also covers the directory defaults, the `.md`
  filter and what a worker does with `processPage`'s result.
- **Metadata extraction**. The older search is `LegacyMeta`: a recursive
  first-match search, proved equal to a scan over the HTML blocks in
  pre-order. The newer walk is `PageMeta.GetMeta`: a loop over the events
  of blackfriday's `Walk`, with `break` for `Terminate`. It is proved
  against the specification function `Extract`. Both use `findComment` from
  `Trees`, which is proved to return the first comment in pre-order and
  never an error.
- **Key-path lookup** (`PageMeta.LookupPath`). This is a loop over nested
  maps. It is proved equal to `Resolve`, and `Resolve` is proved to be "the
  last key in the map the other keys lead to". The delimiters and `Output`
  are built on it.
- **Sticky error writer** (`Markdown`, `LegacyMarkdown`). Each revision's
  writer is a class with an `err` field over a scripted underlying writer.
  `Render` and `RenderMarkdown` are proved to forward exactly the chunks up
  to the first failing write and to return that write's error. The
  specification of these two is in `Sinks`.
- **Paths and template helpers** (`Paths`, `TemplateFuncs`). This covers
  `RemoveExt` over `filepath.Ext` and `filepath.Base`, plus `limit`,
  `link`, `link_to_title` and `loadTemplate`'s choice of source.

Inputs come in as parameters, and collaborators as function-typed
parameters:

- file times, stat results and the context's error;
- `html.Parse` (`HtmlParser`);
- the JSON and YAML decoders (`Decoder`, which may yield a nil map);
- `slug.Make`, `filepath.Join` and `fmt.Sprint` of non-string values.

A Go panic is the `Panic` case of `Outcome`. A Go `(value, error)` pair is
a tuple of `Option`s or a `Result`. `fmt.Errorf("ctx: %w", e)` is
`Wrapped("ctx", e)`.

The code keeps the index oldest first, ascending by the destination's
time, because it searches with `Before`.

## Model

| member | source | states |
|---|---|---|
| Collector.Index.Search | bog.go:254-256 | the binary search returns the smallest index whose page is strictly later than the new page's time, and on a sorted slice this is the number of pages not later than it |
| Collector.Index.Append | bog.go:258 | `append(pages, nil)` grows the slice by one at the end and keeps its elements, reallocating when full |
| Collector.Index.ShiftUp | bog.go:259 | `copy(pages[i+1:], pages[i:])` moves every element from `i` on up by one and leaves those before it |
| Collector.Index.Insert | bog.go:254-260 | the slice grows by one, the page lands at the searched index, the pages before stay and the rest shift up; on a sorted slice the index is the slot and the slice stays sorted; the array is the old one or a fresh one, so insertions can follow each other |
| Collector.InsertAt | bog.go:258-260 | the inserted slice has the page at `i`, the old prefix before it and the old suffix after it |
| Collector.InsertAtAddsOne | bog.go:258-260 | insertion adds exactly the new page to the contents |
| Collector.SlotOfSplit | bog.go:254-256 | an index splitting the slice into not-later and later pages equals the count of not-later pages |
| Collector.SlotIsFirstLater | bog.go:254-256 | in a sorted slice every page before the slot is not later and every page from it on is strictly later |
| Collector.InsertAtSlotKeepsSorted | bog.go:254-260 | inserting at the slot keeps the slice sorted oldest first, and pages with an equal time stay before the new one |
| Collector.Collected | bog.go:246-265 | the collector's loop, run on the pages in arrival order, holds one entry per page received |
| Collector.Collect | bog.go:246-265 | one insertion per received page, starting from an empty slice, leaves the slice `Collected` gives: sorted oldest first and exactly the received pages |
| Collector.CollectedIsSortedPermutation | bog.go:253-260 | pages received in any order end up sorted oldest first and are exactly the received pages |
| MetaDefaults.DefaultTitle | bog.go:25-27 | the default title is a string: the file's base name with its extension removed |
| MetaDefaults.LegacyDefaults | bog.go:24-28 | the older defaults supply only "title" |
| MetaDefaults.PageDefaults | pageinfo.go:24-32 | the newer defaults supply "title" and "time" |
| MetaDefaults.BackFill | bog.go:61-67 | the result has the supplied keys plus the default keys; supplied values are kept and only absent keys get their default |
| Build.Quote | bog.go:59 | `%q` frames the name in double quotes |
| Build.Staleness | bog.go:79-85 | a stat error other than not-exist is wrapped as an error; a destination strictly newer than the source is up to date; a missing, equally old or older one is rebuilt |
| Build.StalenessMonotone | bog.go:83 | a later source time never turns a rebuild into a skip |
| Build.Destination | bog.go:77 | the destination is the output dir joined with a ".html" name whose extension-less part is the title's slug; a non-string title panics |
| Build.ProcessPage | bog.go:57-85 | a metadata error is wrapped with the source name; otherwise the title (supplied or defaulted) must be a string, and the staleness of the destination decides between an error, a skip returning the context's error, and a write with the back-filled metadata |
| Build.DefaultTitleNeverPanics | bog.go:61-67 | after the back-fill only a supplied non-string title can make the destination panic |
| Build.Dirs | bog.go:200-206 | the source is "." when blank, the output is the source when blank, and neither ends blank |
| Build.IsMarkdown | bog.go:268 | an entry passes the filter only with a three-character extension starting with '.' |
| Build.LowerAscii | bog.go:268 | lower-casing keeps the length and maps exactly the ASCII capitals to lower case |
| Build.MarkdownHasMdExtension | bog.go:268-270 | an entry passes the filter only if its extension is one of ".md", ".mD", ".Md", ".MD" |
| Build.MdExtensionIsMarkdown | bog.go:268-270 | an entry whose extension is any of ".md", ".mD", ".Md", ".MD" passes the filter |
| Build.SelectedMembers | bog.go:267-271 | a name is selected exactly when some directory entry has it and a markdown extension |
| Build.PagesToBuild | bog.go:267-286 | the names handed to workers are the names of the entries with a markdown extension, in directory order and once per entry |
| Build.ProcessResult | bog.go:84-127 | a page is returned exactly when it was to be written and the writing succeeded, with the source, destination, times and metadata; a failure returns its error and an up-to-date page the context's error |
| Build.Worker | bog.go:274-277 | a nil page returns the call's error and sends nothing; a page is sent |
| Build.WorkerSendsOnlyRebuiltPages | bog.go:274-277 | a page reaches the collector exactly when it was rebuilt and written; an up-to-date page returns the context's error and a failed one its error |
| PageMeta.ExamineBlock | pageinfo.go:195-221 | a block: a parse error aborts; a first comment that is missing or lacks "meta" passes; otherwise the bytes after the four-byte prefix are decoded and a decode error aborts |
| PageMeta.Visit | pageinfo.go:195-221 | the visitor at an HTML block decides as `Examine` does, and every abort is a "parse HTML", "find comment" or "unmarshal" error |
| PageMeta.ExtractStep | pageinfo.go:191-221 | the walk at one block either stops there with an error or the decoded map (and its unlink), or goes on to the rest |
| PageMeta.GetMeta | pageinfo.go:170-228 | the walk returns the extraction over the tree's HTML blocks in walk order; the tree is the root with the decoded block's path unlinked when one was unlinked, and then has lost exactly that block, every other block kept in order |
| PageMeta.GetMetaRemovesDecodedBlock | pageinfo.go:170-171 | when the walk unlinks a block below the root, the tree left has lost exactly one block: the first in pre-order that does not pass, whose metadata decoded to the returned map. It keeps the blocks before and after it in order; a root that is itself the block stays |
| PageMeta.UnlinkFirstDecoded | pageinfo.go:210-219 | unlinking the walk's first block that does not pass, when it decoded, removes exactly that block from the page |
| PageMeta.ExtractSkipsPassing | pageinfo.go:206-208 | blocks whose comment lacks the prefix are skipped and the walk continues |
| PageMeta.ExtractWithoutMeta | pageinfo.go:189 | without a metadata block the result is an empty non-nil map, no error and no unlink |
| PageMeta.ExtractFirstDecides | pageinfo.go:210-221 | the first block that does not pass decides alone; later blocks are never decoded |
| PageMeta.ExtractUnlinksOnlyDecoded | pageinfo.go:211-219 | a block is unlinked only when unlinking was asked for, no error occurred, and its metadata decoded |
| PageMeta.ExtractErrorKeepsEmptyMap | pageinfo.go:195-215 | an error leaves the empty map and unlinks nothing; the map is nil only if the decoder produced a nil map |
| PageMeta.DescendFront | pageinfo.go:133-141 | following keys from the outside in agrees with following the first key and then the rest |
| PageMeta.ResolveIsLastKeyOfDescent | pageinfo.go:131-143 | the lookup is nil when an intermediate key is missing or not a map, and otherwise the last key's value in the innermost map |
| PageMeta.LookupPath | pageinfo.go:126-144 | the lookup panics exactly when no keys are given and otherwise returns the resolved value |
| PageMeta.StringOrEmpty | pageinfo.go:106-107 | the type assertion yields the string, or "" for any other value |
| PageMeta.TemplateDelims | pageinfo.go:106-107 | each delimiter is the string at template.delims.left or right, and "" when absent or not a string |
| PageMeta.DelimsDefaultWithoutTemplate | pageinfo.go:106-107 | without a "template" map both delimiters are the defaults |
| PageMeta.Sprint | pageinfo.go:153 | printing a string gives the string and nil gives "<nil>" |
| PageMeta.Output | pageinfo.go:152-154 | the output name has extension ".html" and is the slug of the printed title; for a string title it is `link_to_title` of it |
| PageMeta.LoadPageMeta | pageinfo.go:63-73 | a metadata error is wrapped as "get meta"; a nil map panics in the back-fill; otherwise the map has the supplied keys plus "title" and "time", supplied values kept, defaults the base name without extension and the file time, and the returned tree has lost exactly the decoded metadata block |
| Trees.FindComment | pageinfo.go:173-187 | a comment `findComment` returns is one of the tree's comments |
| Trees.FindCommentIn | pageinfo.go:179-184 | a comment the loop over the children returns is one of their comments |
| Trees.FindCommentIsFirstComment | pageinfo.go:173-187 | `findComment` returns the first comment in pre-order, or nil, and never an error |
| Trees.FindCommentInIsFirstComment | input.go:47-60 | the loop over children returns the first comment found among them in pre-order, and never an error |
| Trees.BlocksPathsRight | pageinfo.go:190-218 | every block the walk enters is found in the tree at the path it is recorded with |
| Trees.UnlinkRemovesBlock | pageinfo.go:217-219 | unlinking an HTML block below the root removes exactly its literal, at its pre-order place, and keeps every other block in order |
| Trees.BlockRank | pageinfo.go:190-218 | the block the walk enters `j`-th sits at the path with `j` HTML blocks before it in pre-order |
| Trees.BlocksOfAppend | pageinfo.go:190-193 | the blocks a walk enters over two event runs are those of the first run then those of the second |
| Trees.WalkVisitsBlocksInPreorder | pageinfo.go:190-193 | the walk enters exactly the HTML blocks that a recursive pre-order search visits, in the same order |
| LegacyMeta.FindHtml | input.go:16-45 | `findHTML` never yields both a map and an error, and every error is wrapped as "parse HTML" or "find comment" |
| LegacyMeta.FindHtmlIn | input.go:37-42 | the loop over the children returns at the first map or error, never both |
| LegacyMeta.ExamineBlock | input.go:17-35 | a block: a parse error stops the search; no comment, a comment that fails to decode, or one that decodes to null passes; otherwise the decoded map is the result |
| LegacyMeta.ScanAppend | input.go:37-42 | scanning two runs of blocks is the first run's result if any, otherwise the second's |
| LegacyMeta.FindHtmlScansBlocks | input.go:16-45 | `findHTML` equals the first-match scan over the tree's HTML blocks in pre-order |
| LegacyMeta.ScanSkipsUnmatched | input.go:28-42 | blocks that yield neither a map nor an error are skipped |
| LegacyMeta.GetMeta | input.go:62-71 | exactly one of the map and the error is nil |
| LegacyMeta.GetMetaWithoutMatch | input.go:67-71 | when no block matches the result is an empty non-nil map and no error |
| LegacyMeta.GetMetaFirstMatch | input.go:16-45 | the first block yielding a map or an error decides: an error gives a nil map with the error, a map gives that map |
| Sinks.Sink.Write | markdown/markdown.go:24 | the underlying writer records the chunk and answers with its scripted outcome |
| Sinks.Forwarded | markdown/markdown.go:19-27 | the number of forwarded chunks is at most the number offered and at least one when any is offered |
| Sinks.StickyErrIsFirstFailure | markdown/markdown.go:19-27 | the sticky writer ends without an error iff no write failed, then forwards everything; otherwise it holds the first failing write's error and forwarded the chunks up to it |
| Sinks.ForwardedAppend | markdown/markdown.go:19-27 | writing two runs is writing their concatenation: after an error nothing more is forwarded |
| Sinks.SegmentsCompose | markdown/markdown.go:36-40 | header, walk and footer written in turn leave the same chunks and error as one run over all of them |
| Markdown.ErrWriter.Write | markdown/markdown.go:19-27 | with an error held it returns `(0, err)` and forwards nothing; otherwise it forwards, returns the writer's `(n, err)` and holds that error |
| Markdown.Emit | markdown/markdown.go:36-40 | a run of writes through the sticky writer forwards the chunks up to the first failure and leaves that error |
| Markdown.Render | markdown/markdown.go:33-43 | header, walk and footer all run; the writer receives the chunks up to and including the first failing one, and the result is that error or nil |
| LegacyMarkdown.ErrWriter.Write | markdown.go:14-22 | with an error held it returns `(0, err)` and forwards nothing; otherwise it forwards, returns the writer's `(n, err)` and holds that error |
| LegacyMarkdown.Emit | markdown.go:31-35 | a run of writes through the sticky writer forwards the chunks up to the first failure and leaves that error |
| LegacyMarkdown.RenderMarkdown | markdown.go:28-38 | header, walk and footer all run; the writer receives the chunks up to and including the first failing one, and the result is that error or nil |
| Paths.Final | path.go:7 | the final element is a suffix without '/' that follows the last '/' |
| Paths.Ext | path.go:7 | the extension is a suffix of the path and, when not empty, a '.' followed by neither '.' nor '/' |
| Paths.RemoveExt | path.go:6-9 | the result followed by the extension is the path, so the result is a prefix of it |
| Paths.ExtEmptyIffNoDot | path.go:7-8 | the extension is empty exactly when the final element has no '.' |
| Paths.RemoveExtUnchangedIffNoDot | path.go:7-8 | the path comes back unchanged exactly when its final element has no '.'; a '.' in a directory does not count |
| Paths.RemoveExtDropsOneExtension | path.go:7-8 | what is removed is a single extension |
| Paths.ExtOfAppendedExtension | path.go:7 | appending an extension to any path makes it the path's extension |
| Paths.RemoveExtOnlyLastExtension | path.go:5-8 | "a.tar.gz" loses only ".gz", and a second application gives "a", so the function is not idempotent |
| Paths.RemoveExtOfAppendedExtension | path.go:6-9 | removing the extension of a path ending in an appended extension gives the path back |
| Paths.RemoveExtOfDotName | path.go:7-8 | a name that is all extension, ".md", becomes "" |
| Paths.RemoveExtIgnoresDirectoryDot | path.go:7-8 | "d.x/f" stays as it is: a '.' in a directory is ignored |
| Paths.Base | pageinfo.go:26 | the base name of a path is never empty |
| Paths.BaseOfName | pageinfo.go:26 | a non-empty file name without '/' is its own base name |
| TemplateFuncs.LimitAsWritten | template.go:20-26 | nil or boxed data panics at `Len`; data shorter than the length comes back boxed as a `reflect.Value`; otherwise a negative length panics and the result is the first `length` elements |
| TemplateFuncs.LimitAsWrittenBoxesShortData | template.go:22-23 | short data comes back boxed, and limiting it again panics |
| TemplateFuncs.LimitAsWrittenTwoOfFive | template.go:22-23 | `limit 5` of two elements is boxed, and `limit 5` of that panics |
| TemplateFuncs.Limit | template.go:20-26 | with the short data returned as it is: the prefix of length min(n, len), and a negative length panics |
| TemplateFuncs.LimitAsWrittenAgreesWhenLong | template.go:24-25 | when the data is at least as long as the limit, the code as written and the corrected `limit` agree |
| TemplateFuncs.LimitFullLength | template.go:24-25 | limiting to the data's length returns all of it |
| TemplateFuncs.LimitIdempotent | template.go:22-25 | for the corrected `limit`, limiting twice to the same length is limiting once |
| TemplateFuncs.Link | template.go:18 | the link has extension ".html" and removing it gives the slug back |
| TemplateFuncs.LinkToTitle | template.go:17 | the link of a title is the link of its slug |
| TemplateFuncs.LoadTemplate | template.go:33-51 | the default text is parsed when the path is empty; an open or copy failure returns the template unchanged with the error; otherwise the file's text is parsed |
| TemplateFuncs.LoadTemplateSourceChoice | template.go:34-36 | with a path the default text never matters, and without one the file system is never consulted |

## Left out

- The goroutines, channels, `select` and `errgroup` of bog.go:242-298 are
  left out: they are concurrency. The collector's loop is
  `Collector.Collect`, run sequentially over the pages in arrival order,
  and the race between `ctx.Done()` and the send
  in the worker is not modelled.
- `processPage`'s reading of the source and its `os.Stat(src)`
  (bog.go:43-52), whose errors are returned unwrapped, are left out as
  file I/O. `Build.ProcessPage` takes the parsed markdown tree and
  `srcInfo` as parameters, which stand for a successful read and stat.
- multierr, both bufpool packages, the cli package, io.go, defaults.go,
  `readFile`, `readJSONFile` and `genTOC` are left out. They are
  concurrency, memory reuse, command-line plumbing, file I/O or constant
  text.
- `processPage` after its decision is not modelled: creating the file,
  parsing and executing the templates, and the second stat. Its outcome
  is the `built` parameter of `Build.ProcessResult`. The file is created
  before the templates succeed (bog.go:87-114). That ordering is I/O and
  is not modelled.
- The rendering in `processPage` (bog.go:72-75) and in `LoadPage`
  (pageinfo.go:82-92) writes into a `bytes.Buffer`, whose writes never
  fail. So the "render" error branches are not modelled as decisions.
  `render`'s template parse and execute are also not modelled, apart from
  the delimiter lookup.
- blackfriday parsing and rendering, `html.Parse`, the JSON and YAML
  decoders, `text/template`, `slug.Make`, `filepath.Join` and bfchroma
  are collaborators. They are parameters, or the fixed trees and chunk
  lists they produce.
- PageMeta.ExtractErrorKeepsEmptyMap: on a decode error, yaml.v3 may
  leave part of the document in the map. The model keeps the empty map
  because `LoadPage` discards the map on any error.
- PageMeta.LoadPageMeta: a YAML document that is `null` is taken to leave
  a nil map, which makes the first back-fill assignment panic. This
  follows yaml.v3's handling of null, which is not part of this model.
- PageMeta.GetMeta: the `return blackfriday.GoToNext` at pageinfo.go:224
  is unreachable, because a comment with the "meta" prefix is not nil. The
  model has no path for it.
- TemplateFuncs.LimitAsWritten: `reflect` kinds other than a slice of
  elements, a boxed `reflect.Value` and untyped nil are not modelled. In
  particular, a map passes `Len` and then panics at `Slice`, and a string
  is sliced by bytes.
- Build.Quote: `%q` is modelled as surrounding quotes. Go's escaping of
  special characters is not modelled.
- Build.LowerAscii: `strings.ToLower` is modelled on ASCII letters only.
  No other character lowers to '.', 'm' or 'd', so the `.md` test is exact.
- Paths.Base: `filepath.Base` is modelled for '/'-separated paths. Windows
  volume names and separators are not modelled.
- Collector.Index.Append: Go's exact capacity growth policy is not
  modelled. A full array is replaced by one of twice the capacity plus
  one, and the new slot is filled with the page instead of nil before the
  shift overwrites it.
- Times are integers. `time.Time`'s monotonic clock and time zones are
  not modelled.
- `(*PageInfo).Input` and `(*PageInfo).Execute` are left out: they are a
  field read and a template call.

## Findings

| source | as written | input that shows it | evidently intended | confidence | as-written member | corrected member |
|---|---|---|---|---|---|---|
| template.go:22-23 | when `v.Len() < length`, `limit` returns `v`, the `reflect.Value` itself, inside an `interface{}` | `limit 5` of a two-element slice gives a boxed `reflect.Value`; a template cannot range over it, and `limit 5` of it panics at `Len` | `return data`, the slice unchanged | high, not executed | TemplateFuncs.LimitAsWritten, TemplateFuncs.LimitAsWrittenTwoOfFive | TemplateFuncs.Limit, TemplateFuncs.LimitIdempotent |

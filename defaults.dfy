/** The default-metadata back-fill that both revisions run after
    extracting a page's metadata (bog.go:61-67, pageinfo.go:67-73), and
    each revision's table of defaults. */
module MetaDefaults {
  import opened Values
  import Paths

  /** The default title: the file's base name without its extension. */
  function DefaultTitle(info: FileInfo): (v: Value)
    ensures v.Str?
    ensures v.s + Paths.Ext(Paths.Base(info.name)) == Paths.Base(info.name)
  {
    Str(Paths.RemoveExt(Paths.Base(info.name)))
  }

  /** `defaultMeta` of bog.go: a title only. */
  function LegacyDefaults(info: FileInfo): (d: map<string, Value>)
    ensures d.Keys == {"title"}
  {
    map["title" := DefaultTitle(info)]
  }

  /** `defaultMeta` of pageinfo.go: a title and the file's modification
      time. */
  function PageDefaults(info: FileInfo): (d: map<string, Value>)
    ensures d.Keys == {"title", "time"}
  {
    map["title" := DefaultTitle(info), "time" := Time(info.modTime)]
  }

  /** The back-fill loop of bog.go:61-67 and pageinfo.go:67-73: each
      default key absent from the map gets its default, the keys taken in
      any order; every supplied key keeps its value. */
  method BackFill(meta: ValueMap, defaults: map<string, Value>) returns (r: ValueMap)
    ensures r.Keys == meta.Keys + defaults.Keys
    ensures forall k :: k in meta ==> r[k] == meta[k]
    ensures forall k :: k in defaults && k !in meta ==> r[k] == defaults[k]
  {
    r := meta;
    var todo := defaults.Keys;
    while todo != {}
      invariant todo <= defaults.Keys
      invariant r.Keys == meta.Keys + (defaults.Keys - todo)
      invariant forall k :: k in meta ==> r[k] == meta[k]
      invariant forall k :: k in defaults && k !in todo && k !in meta ==> r[k] == defaults[k]
      decreases todo
    {
      var k :| k in todo;
      if k !in r {
        r := r[k := defaults[k]];
      }
      todo := todo - {k};
    }
  }
}

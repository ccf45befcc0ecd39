/** path.go: `RemoveExt`, together with the two `path/filepath`
    functions it is built from (`Ext`, and `Base`, used by the default
    title), for slash-separated paths. */
module Paths {

  /** The final element of `p`: everything after its last '/'. */
  function Final(p: string): (f: string)
    ensures |f| <= |p| && f == p[|p| - |f|..]
    ensures '/' !in f
    ensures |f| < |p| ==> p[|p| - |f| - 1] == '/'
  {
    if p == [] || p[|p| - 1] == '/' then []
    else Final(p[..|p| - 1]) + [p[|p| - 1]]
  }

  /** `filepath.Ext`: scanning `p` from its end back to the last '/', the
      suffix that starts at the first '.' met, or "" when there is none.
      Written here from the right end, one character at a time. */
  function Ext(p: string): (e: string)
    ensures |e| <= |p| && e == p[|p| - |e|..]
    ensures e != [] ==> IsExtension(e)
  {
    if p == [] || p[|p| - 1] == '/' then []
    else if p[|p| - 1] == '.' then ['.']
    else
      var e := Ext(p[..|p| - 1]);
      if e == [] then [] else e + [p[|p| - 1]]
  }

  /** A file extension: a '.' followed by characters that are neither '.'
      nor '/'. */
  predicate IsExtension(e: string)
  {
    e != [] && e[0] == '.' && forall j :: 1 <= j < |e| ==> e[j] != '.' && e[j] != '/'
  }

  /** `RemoveExt(path)`: the path cut short by the length of its
      `filepath.Ext`. */
  function RemoveExt(p: string): (r: string)
    ensures r + Ext(p) == p
    ensures r <= p
  {
    p[..|p| - |Ext(p)|]
  }

  /** `filepath.Base` on a slash-separated path: "." for "", "/" for a
      path of slashes only, otherwise the final element once trailing
      slashes are removed. */
  function Base(p: string): (b: string)
    ensures b != []
  {
    if p == [] then "."
    else
      var t := TrimTrailingSlashes(p);
      if t == [] then "/" else Final(t)
  }

  function TrimTrailingSlashes(p: string): (t: string)
    ensures t <= p
    ensures t != [] ==> t[|t| - 1] != '/'
  {
    if p != [] && p[|p| - 1] == '/' then TrimTrailingSlashes(p[..|p| - 1]) else p
  }

  /** `Ext` is empty exactly when the final element holds no '.'. */
  lemma {:induction false} ExtEmptyIffNoDot(p: string)
    ensures Ext(p) == [] <==> '.' !in Final(p)
  {
    if p == [] || p[|p| - 1] == '/' {
    } else if p[|p| - 1] == '.' {
      assert Final(p)[|Final(p)| - 1] == '.';
    } else {
      var init := p[..|p| - 1];
      ExtEmptyIffNoDot(init);
      assert Final(p) == Final(init) + [p[|p| - 1]];
    }
  }

  /** `RemoveExt` returns its argument unchanged exactly when the final
      element has no '.': a '.' in a directory component does not count. */
  lemma RemoveExtUnchangedIffNoDot(p: string)
    ensures RemoveExt(p) == p <==> '.' !in Final(p)
  {
    ExtEmptyIffNoDot(p);
    if RemoveExt(p) == p {
      assert |Ext(p)| == 0;
    }
  }

  /** What `RemoveExt` drops is one extension: a '.' followed by no
      further '.' and no '/'. */
  lemma RemoveExtDropsOneExtension(p: string)
    ensures var dropped := p[|RemoveExt(p)|..];
      dropped == [] || IsExtension(dropped)
  {
    assert p[|RemoveExt(p)|..] == Ext(p);
  }

  /** A file name without '/' is its own `Base`. */
  lemma {:induction false} BaseOfName(name: string)
    requires name != [] && '/' !in name
    ensures Base(name) == name
  {
    forall j | 0 <= j < |name| ensures name[j] != '/' {
      assert name[j] in name;
    }
    FinalOfName(name);
    assert TrimTrailingSlashes(name) == name;
  }

  /** A name none of whose characters is '/' is its own final element. */
  lemma {:induction false} FinalOfName(name: string)
    requires forall j :: 0 <= j < |name| ==> name[j] != '/'
    ensures Final(name) == name
  {
    if name != [] {
      var init := name[..|name| - 1];
      FinalOfName(init);
      assert init + [name[|name| - 1]] == name;
    }
  }

  /** One more character at the end of a path: how `Ext` changes. */
  lemma ExtSnoc(p: string, c: char)
    ensures c == '/' ==> Ext(p + [c]) == []
    ensures c == '.' ==> Ext(p + [c]) == "."
    ensures c != '/' && c != '.' ==>
      Ext(p + [c]) == if Ext(p) == [] then [] else Ext(p) + [c]
  {
    assert (p + [c])[..|p|] == p;
  }

  /** Appending an extension (a '.' and then neither '.' nor '/') to any
      path makes it the path's `Ext`. */
  lemma {:induction false} ExtOfAppendedExtension(p: string, e: string)
    requires IsExtension(e)
    ensures Ext(p + e) == e
  {
    if |e| == 1 {
      assert p + e == p + ['.'];
      ExtSnoc(p, '.');
    } else {
      var init := e[..|e| - 1];
      var c := e[|e| - 1];
      assert IsExtension(init);
      assert c != '.' && c != '/';
      ExtOfAppendedExtension(p, init);
      var q := p + init;
      assert q + [c] == p + e;
      ExtSnoc(q, c);
      assert Ext(q + [c]) == init + [c];
      assert init + [c] == e;
    }
  }

  /** Removing the extension of a path that ends in an appended
      extension gives the path back. */
  lemma RemoveExtOfAppendedExtension(p: string, e: string)
    requires IsExtension(e)
    ensures RemoveExt(p + e) == p
  {
    ExtOfAppendedExtension(p, e);
    assert (p + e)[..|p|] == p;
  }

  /** Only the last extension goes, so `RemoveExt` is not idempotent. */
  lemma RemoveExtOnlyLastExtension()
    ensures RemoveExt("a.tar.gz") == "a.tar"
    ensures RemoveExt(RemoveExt("a.tar.gz")) == "a"
  {
    assert IsExtension(".gz") && IsExtension(".tar");
    assert "a.tar" + ".gz" == "a.tar.gz";
    assert "a" + ".tar" == "a.tar";
    RemoveExtOfAppendedExtension("a.tar", ".gz");
    RemoveExtOfAppendedExtension("a", ".tar");
  }

  /** A name that is all extension becomes empty. */
  lemma RemoveExtOfDotName()
    ensures RemoveExt(".md") == ""
  {
    assert IsExtension(".md");
    assert "" + ".md" == ".md";
    RemoveExtOfAppendedExtension("", ".md");
  }

  /** A dot in a directory is ignored. */
  lemma RemoveExtIgnoresDirectoryDot()
    ensures RemoveExt("d.x/f") == "d.x/f"
  {
    var d := "d.x";
    ExtSnoc(d, '/');
    ExtSnoc(d + ['/'], 'f');
    assert d + ['/'] + ['f'] == "d.x/f";
  }
}

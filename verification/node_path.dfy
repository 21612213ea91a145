/**
 * The part of Node's POSIX `path.extname` the storage layer relies on
 * (lib/basic-storage/index.js and lib/secure-storage/functions.js call it).
 * Trailing slashes are ignored, only the last path segment is examined, and
 * the extension runs from the last dot of that segment to its end, except that
 * a segment whose only dot is its first character (".txt") and the segment ".."
 * have no extension.
 */
module NodePath {
  import opened Wrappers

  /** The index of the last occurrence of `ch` in `s`. */
  function LastIndexOf(s: string, ch: char): (r: Option<nat>)
    ensures r.None? <==> ch !in s
    ensures r.Some? ==> r.value < |s| && s[r.value] == ch && ch !in s[r.value + 1..]
  {
    if |s| == 0 then None
    else if s[|s| - 1] == ch then Some(|s| - 1)
    else
      var r := LastIndexOf(s[..|s| - 1], ch);
      assert s == s[..|s| - 1] + [s[|s| - 1]];
      if r.Some? then
        assert s[r.value + 1..] == s[..|s| - 1][r.value + 1..] + [s[|s| - 1]];
        r
      else
        r
  }

  function TrimTrailingSlashes(p: string): (r: string)
    ensures r <= p
    ensures |r| == 0 || r[|r| - 1] != '/'
  {
    if |p| > 0 && p[|p| - 1] == '/' then TrimTrailingSlashes(p[..|p| - 1]) else p
  }

  /** The text after the last slash (the whole text when there is none). */
  function LastSegment(p: string): (r: string)
    ensures '/' !in r
    ensures |r| <= |p| && r == p[|p| - |r|..]
  {
    match LastIndexOf(p, '/')
    case None => p
    case Some(k) => p[k + 1..]
  }

  /** `path.basename` without a suffix argument. */
  function Basename(p: string): string {
    LastSegment(TrimTrailingSlashes(p))
  }

  /** The extension of a single path segment: from its last dot, unless that dot leads or the segment is "..". */
  function SegmentExtension(b: string): (e: string)
    ensures e == "" || (e[0] == '.' && '.' !in e[1..])
    ensures |e| <= |b| && e == b[|b| - |e|..]
  {
    match LastIndexOf(b, '.')
    case None => ""
    case Some(d) =>
      if d == 0 || b == ".." then ""
      else
        assert b[d..][1..] == b[d + 1..];
        b[d..]
  }

  /** A suffix of a text avoids every character the text avoids. */
  lemma SuffixAvoids(b: string, e: string, ch: char)
    requires ch !in b
    requires |e| <= |b| && e == b[|b| - |e|..]
    ensures ch !in e
  {
    forall i | 0 <= i < |e|
      ensures e[i] != ch
    {
      assert e[i] == b[|b| - |e| + i];
    }
  }

  /** `path.extname`: "" or a dot followed by dot-free, slash-free text. */
  function Extname(p: string): (e: string)
    ensures e == "" || (e[0] == '.' && '.' !in e[1..])
    ensures '/' !in e
  {
    var b := Basename(p);
    var e := SegmentExtension(b);
    SuffixAvoids(b, e, '/');
    e
  }

  /** The extension is the end of the base name: nothing of the directory part and no trailing slash. */
  lemma ExtnameEndsBasename(p: string)
    ensures |Extname(p)| <= |Basename(p)|
    ensures Extname(p) == Basename(p)[|Basename(p)| - |Extname(p)|..]
  {
    var b := Basename(p);
    assert Extname(p) == SegmentExtension(b);
  }

  /** In `dir + "/" + name` with a slash-free name, the last slash is the one joining the two. */
  lemma LastSlashBeforeName(dir: string, name: string)
    requires '/' !in name
    ensures LastIndexOf(dir + "/" + name, '/') == Some(|dir|)
    ensures LastSegment(dir + "/" + name) == name
  {
    var p := dir + "/" + name;
    assert p[|dir|] == '/';
    assert p[|dir| + 1..] == name;
  }

  /** A path without slashes is its own base name. */
  lemma BasenameOfPlain(p: string)
    requires '/' !in p
    ensures Basename(p) == p
  {
    if |p| > 0 {
      assert p[|p| - 1] in p;
    }
    assert TrimTrailingSlashes(p) == p;
  }

  /** The last dot of a dot-free stem followed by `e` is the first character of `e`. */
  lemma LastDotAfterStem(stem: string, e: string)
    requires '.' !in stem
    requires e != "" && e[0] == '.' && '.' !in e[1..]
    ensures LastIndexOf(stem + e, '.') == Some(|stem|)
  {
    var p := stem + e;
    assert p[|stem|] == '.';
    assert p[|stem| + 1..] == e[1..];
  }

  /**
   * A non-empty stem without dots or slashes followed by `e` has extension `e`
   * when `e` is empty or a dot followed by dot-free text.
   */
  lemma ExtnameOfStem(stem: string, e: string)
    requires stem != "" && '.' !in stem && '/' !in stem
    requires e == "" || (e[0] == '.' && '.' !in e[1..])
    requires '/' !in e
    ensures Extname(stem + e) == e
  {
    var p := stem + e;
    assert '/' !in p by {
      forall i | 0 <= i < |p|
        ensures p[i] != '/'
      {
        if i < |stem| {
          assert p[i] == stem[i];
        } else {
          assert p[i] == e[i - |stem|];
        }
      }
    }
    BasenameOfPlain(p);
    if |e| == 0 {
      assert p == stem;
    } else {
      LastDotAfterStem(stem, e);
      assert p[0] == stem[0];
      assert p[|stem|..] == e;
    }
  }

  /** The extension, without its dot, of a plain stem, a dot and a plain extension. */
  lemma ExtensionOfStem(stem: string, ext: string)
    requires stem != "" && '.' !in stem && '/' !in stem
    requires '.' !in ext && '/' !in ext
    ensures ExtensionOf(stem + "." + ext) == ext
  {
    var e := "." + ext;
    assert e[1..] == ext;
    assert stem + "." + ext == stem + e;
    assert '/' !in e by {
      assert forall i :: 1 <= i < |e| ==> e[i] == ext[i - 1];
    }
    ExtnameOfStem(stem, e);
  }

  /** A name without a dot has no extension. */
  lemma NoDotNoExtension(name: string)
    requires '.' !in name
    ensures Extname(name) == ""
  {
    var b := Basename(name);
    ExtnameEndsBasename(name);
    assert b == TrimTrailingSlashes(name)[|TrimTrailingSlashes(name)| - |b|..];
    assert '.' !in b by {
      forall i | 0 <= i < |b|
        ensures b[i] != '.'
      {
        assert b[i] == name[|TrimTrailingSlashes(name)| - |b| + i];
      }
    }
  }

  /** A name whose only dot is its first character has no extension. */
  lemma HiddenNameHasNoExtension(rest: string)
    requires rest != "" && '.' !in rest && '/' !in rest
    ensures Extname("." + rest) == ""
  {
    var p := "." + rest;
    assert p[|p| - 1] == rest[|rest| - 1];
    assert TrimTrailingSlashes(p) == p;
    assert '/' !in p;
    assert Basename(p) == p;
    assert p[1..] == rest;
  }

  /** An extension without its leading dot. */
  function WithoutDot(e: string): (ext: string)
    requires e == "" || (e[0] == '.' && '.' !in e[1..])
    requires '/' !in e
    ensures '.' !in ext && '/' !in ext
    ensures e == "" ==> ext == ""
    ensures e != "" ==> e == "." + ext
  {
    if |e| == 0 then ""
    else
      assert e == "." + e[1..];
      SuffixAvoids(e, e[1..], '/');
      e[1..]
  }

  /** The extension as the upload check compares it: `extname(name).substr(1)`, without its dot. */
  function ExtensionOf(name: string): (ext: string)
    ensures '.' !in ext && '/' !in ext
    ensures Extname(name) == "" ==> ext == ""
    ensures Extname(name) != "" ==> Extname(name) == "." + ext
  {
    WithoutDot(Extname(name))
  }
}

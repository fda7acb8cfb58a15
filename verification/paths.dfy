/** The POSIX `os.path` helpers the pipeline uses to name its outputs and to
    pick a codec: `basename`, `join` of two parts and the extension half of
    `splitext`. Paths are plain strings with '/' as the separator. */
module Paths {
  import opened Builtins

  /** `os.path.basename(p)`: everything after the last '/', that is, the
      longest suffix of `p` without a '/'. */
  function Basename(p: string): (b: string)
    ensures '/' !in b
    ensures EndsWith(p, b)
    ensures |b| < |p| ==> p[|p| - |b| - 1] == '/'
    decreases |p|
  {
    if |p| == 0 || p[|p| - 1] == '/' then []
    else Basename(p[..|p| - 1]) + [p[|p| - 1]]
  }

  /** `os.path.join(dir, name)`: an absolute `name` replaces `dir`; a
      relative one goes below `dir`, with exactly one '/' between the two
      when `dir` is not empty (none is added when `dir` already ends with
      one). */
  function Join(dir: string, name: string): (j: string)
    ensures |name| > 0 && name[0] == '/' ==> j == name
    ensures (|name| == 0 || name[0] != '/') ==> |dir| + |name| <= |j| <= |dir| + |name| + 1
  {
    if |name| > 0 && name[0] == '/' then name
    else if |dir| == 0 || dir[|dir| - 1] == '/' then dir + name
    else dir + "/" + name
  }

  /** Index of the last '.' in `b`, or -1 when there is none. */
  function LastDot(b: string): (d: int)
    ensures -1 <= d < |b|
    ensures d >= 0 ==> b[d] == '.' && '.' !in b[d + 1..]
    ensures d < 0 ==> '.' !in b
    decreases |b|
  {
    if |b| == 0 then -1
    else if b[|b| - 1] == '.' then |b| - 1
    else LastDot(b[..|b| - 1])
  }

  /** `os.path.splitext(p)[1]`: the last component's suffix from its last
      '.', or "" when that component has no '.' or only dots before its last
      one (so ".mp4" and "..mp4" alone have no extension): a non-empty
      extension always leaves a character other than '.' in front of it. */
  function Extension(p: string): (e: string)
    ensures e == [] || (e[0] == '.' && '/' !in e && '.' !in e[1..] && EndsWith(p, e))
    ensures e != [] ==>
      (|e| <= |Basename(p)| && exists i :: 0 <= i < |Basename(p)| - |e| && Basename(p)[i] != '.')
  {
    var b := Basename(p);
    var d := LastDot(b);
    if 0 <= d && exists i :: 0 <= i < d && b[i] != '.' then
      SuffixOfSuffix(p, b, d);
      b[d..]
    else []
  }

  /** A suffix of a suffix is a suffix. */
  lemma SuffixOfSuffix(p: string, b: string, d: nat)
    requires EndsWith(p, b) && d <= |b|
    ensures EndsWith(p, b[d..])
  {
  }

  /** Behind a separator (or at the start), the base name of `x + name` is
      `name` itself when `name` holds no '/'. */
  lemma {:induction false} BasenameAfterSeparator(x: string, name: string)
    requires |x| == 0 || x[|x| - 1] == '/'
    requires '/' !in name
    ensures Basename(x + name) == name
    decreases |name|
  {
    if |name| == 0 {
      assert x + name == x;
    } else {
      var last := name[|name| - 1];
      assert (x + name)[..|x + name| - 1] == x + name[..|name| - 1];
      assert (x + name)[|x + name| - 1] == last;
      assert last in name;
      BasenameAfterSeparator(x, name[..|name| - 1]);
      assert name[..|name| - 1] + [last] == name;
    }
  }

  /** Joining a directory and a separator-free name gives back that name as
      the base name: an output file keeps its input's name. */
  lemma BasenameOfJoin(dir: string, name: string)
    requires '/' !in name
    ensures Basename(Join(dir, name)) == name
  {
    assert |name| == 0 || name[0] != '/' by {
      if |name| > 0 { assert name[0] in name; }
    }
    if |dir| == 0 || dir[|dir| - 1] == '/' {
      BasenameAfterSeparator(dir, name);
    } else {
      assert dir + "/" + name == (dir + "/") + name;
      BasenameAfterSeparator(dir + "/", name);
    }
  }

  /** A relative name is joined below `dir`: the joined path starts with
      `dir`, ends with the name, and when `dir` is not empty the two are
      separated by exactly one '/' (the one `dir` already ends with, or the
      one inserted). */
  lemma JoinExtends(dir: string, name: string)
    requires |name| == 0 || name[0] != '/'
    ensures |dir| <= |Join(dir, name)| && Join(dir, name)[..|dir|] == dir
    ensures EndsWith(Join(dir, name), name)
    ensures |dir| > 0 ==> |dir| + |name| < |Join(dir, name)| + 1 && Join(dir, name)[|Join(dir, name)| - |name| - 1] == '/'
    ensures |dir| == 0 || dir[|dir| - 1] == '/' ==> Join(dir, name) == dir + name
  {
  }

  /** Characters without a '.' appended after `b` do not move its last '.'. */
  lemma {:induction false} LastDotAppend(b: string, tail: string)
    requires '.' !in tail
    ensures LastDot(b + tail) == LastDot(b)
    decreases |tail|
  {
    if |tail| == 0 {
      assert b + tail == b;
    } else {
      var front := tail[..|tail| - 1];
      assert (b + tail)[..|b + tail| - 1] == b + front;
      assert tail[|tail| - 1] in tail;
      assert forall ch :: ch in front ==> ch in tail;
      LastDotAppend(b, front);
    }
  }

  /** The last '.' of `stem + ext` is the first character of `ext`. */
  lemma LastDotOfName(stem: string, ext: string)
    requires |ext| > 0 && ext[0] == '.' && '.' !in ext[1..]
    ensures LastDot(stem + ext) == |stem|
  {
    var dotted := stem + ".";
    assert LastDot(dotted) == |stem| by {
      assert dotted[|dotted| - 1] == '.';
    }
    assert stem + ext == dotted + ext[1..];
    LastDotAppend(dotted, ext[1..]);
  }

  /** Two parts without '/' make a name without '/'. */
  lemma NoSeparatorInConcat(a: string, b: string)
    requires '/' !in a && '/' !in b
    ensures '/' !in a + b
  {
    forall n | 0 <= n < |a + b|
      ensures (a + b)[n] != '/'
    {
      if n < |a| { assert a[n] in a; }
      else { assert b[n - |a|] in b; }
    }
  }

  /** A hidden file whose base name is a '.' followed by no other '.' (such
      as `.avi`) has no extension: the dot starts the name, not a suffix. */
  lemma DotFileHasNoExtension(p: string)
    requires |Basename(p)| > 0 && Basename(p)[0] == '.' && '.' !in Basename(p)[1..]
    ensures Extension(p) == []
  {
  }

  /** A path whose base name is `stem + ext` has the extension `ext`, when
      `ext` is a '.' followed by no other '.' and `stem` holds some
      character other than '.'. */
  lemma ExtensionOfBasename(p: string, stem: string, ext: string)
    requires Basename(p) == stem + ext
    requires |ext| > 0 && ext[0] == '.' && '.' !in ext[1..]
    requires exists i :: 0 <= i < |stem| && stem[i] != '.'
    ensures Extension(p) == ext
  {
    var name := stem + ext;
    LastDotOfName(stem, ext);
    var i :| 0 <= i < |stem| && stem[i] != '.';
    assert name[i] != '.';
    assert name[|stem|..] == ext;
  }

  /** The extension of a file named `stem + ext` in any directory is `ext`,
      when `ext` is a '.' followed by no other '.', and `stem` holds some
      character other than '.' (a name made of dots only before its last
      '.' has no extension). */
  lemma ExtensionOfJoin(dir: string, stem: string, ext: string)
    requires '/' !in stem && '/' !in ext
    requires |ext| > 0 && ext[0] == '.' && '.' !in ext[1..]
    requires exists i :: 0 <= i < |stem| && stem[i] != '.'
    ensures Extension(Join(dir, stem + ext)) == ext
  {
    NoSeparatorInConcat(stem, ext);
    BasenameOfJoin(dir, stem + ext);
    ExtensionOfBasename(Join(dir, stem + ext), stem, ext);
  }
}

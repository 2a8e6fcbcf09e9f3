/** The `os.path` operations the submission scripts use on POSIX paths
    (`basename`, `dirname`, `join` of two parts) and the file stem
    `'.'.join(name.split('.')[:-1])`. */
module Paths {
  import opened Text

  /** `os.path.basename(p)`: everything after the last '/'. */
  function Basename(p: string): (name: string)
    ensures |name| <= |p| && name == p[|p| - |name|..]
    ensures '/' !in name
    ensures |name| < |p| ==> p[|p| - |name| - 1] == '/'
  {
    if |p| == 0 || p[|p| - 1] == '/' then ""
    else
      var name := Basename(p[..|p| - 1]) + [p[|p| - 1]];
      assert p == p[..|p| - 1] + [p[|p| - 1]];
      name
  }

  /** The part of p before its basename, slash included. */
  function Head(p: string): (head: string)
    ensures p == head + Basename(p)
  {
    p[..|p| - |Basename(p)|]
  }

  /** Nothing but slashes (including the empty string). */
  predicate AllSlashes(s: string)
  {
    forall k :: 0 <= k < |s| ==> s[k] == '/'
  }

  /** `os.path.dirname(p)`: the head without its trailing slashes, unless
      the head is nothing but slashes. */
  function Dirname(p: string): (dir: string)
    ensures |dir| <= |Head(p)| && dir == Head(p)[..|dir|]
    ensures !AllSlashes(Head(p)) ==> |dir| > 0 && dir[|dir| - 1] != '/'
    ensures forall k :: |dir| <= k < |Head(p)| ==> Head(p)[k] == '/'
    ensures AllSlashes(Head(p)) ==> dir == Head(p)
  {
    var head := Head(p);
    if !AllSlashes(head) then StripTrailing(head, '/') else head
  }

  /** `os.path.join(a, b)`: an absolute b replaces a; otherwise b follows a,
      with a '/' between them unless a is empty or already ends with one. */
  function PathJoin(a: string, b: string): (p: string)
    ensures |b| > 0 && b[0] == '/' ==> p == b
    ensures !(|b| > 0 && b[0] == '/') ==> |b| <= |p| && p[|p| - |b|..] == b
  {
    if |b| > 0 && b[0] == '/' then b
    else if |a| == 0 || a[|a| - 1] == '/' then a + b
    else a + "/" + b
  }

  /** A path that is empty or ends with a slash has an empty basename. */
  lemma BasenameOfDirectory(head: string)
    requires |head| == 0 || head[|head| - 1] == '/'
    ensures Basename(head) == ""
  {
  }

  /** Appending a character other than a slash appends it to the
      basename. */
  lemma BasenameSnoc(q: string, ch: char)
    requires ch != '/'
    ensures Basename(q + [ch]) == Basename(q) + [ch]
  {
    assert (q + [ch])[..|q|] == q;
  }

  /** A name without a slash after a head that is empty or ends with a
      slash is the basename. */
  lemma {:induction false} BasenameAfterHead(head: string, name: string)
    requires |head| == 0 || head[|head| - 1] == '/'
    requires '/' !in name
    ensures Basename(head + name) == name
    decreases |name|
  {
    if |name| == 0 {
      assert head + name == head;
      BasenameOfDirectory(head);
    } else {
      var init, last := name[..|name| - 1], name[|name| - 1];
      assert head + name == (head + init) + [last];
      BasenameSnoc(head + init, last);
      BasenameAfterHead(head, init);
      assert name == init + [last];
    }
  }

  /** The basename of a joined path is its last part. */
  lemma BasenameOfJoin(dir: string, name: string)
    requires |name| > 0 && '/' !in name
    ensures Basename(PathJoin(dir, name)) == name
  {
    if |dir| == 0 || dir[|dir| - 1] == '/' {
      BasenameAfterHead(dir, name);
    } else {
      assert PathJoin(dir, name) == (dir + "/") + name;
      BasenameAfterHead(dir + "/", name);
    }
  }

  /** The dirname of a joined path is its first part, when that part is a
      nonempty directory name without a trailing slash. */
  lemma DirnameOfJoin(dir: string, name: string)
    requires |name| > 0 && '/' !in name
    requires |dir| > 0 && dir[|dir| - 1] != '/'
    ensures Dirname(PathJoin(dir, name)) == dir
  {
    var p := PathJoin(dir, name);
    assert p == dir + "/" + name;
    BasenameOfJoin(dir, name);
    var head := Head(p);
    assert head == dir + "/";
    assert head[|dir| - 1] != '/';
    assert StripTrailing(head, '/') == StripTrailing(dir, '/');
  }

  /** `'.'.join(name.split('.')[:-1])`: name without its last
      '.'-separated component. */
  function Stem(name: string): (stem: string)
  {
    var parts := Split(name, '.');
    Join(parts[..|parts| - 1], '.')
  }

  /** The stem of a file path: the stem of its basename. */
  function FileStem(path: string): (stem: string)
  {
    Stem(Basename(path))
  }

  /** Splitting a string whose last piece is y. */
  lemma {:induction false} SplitSnoc(x: string, c: char, y: string)
    requires c !in y
    ensures Split(x + [c] + y, c) == Split(x, c) + [y]
    decreases |x|
  {
    if c !in x {
      SplitCons(x, c, y);
    } else {
      var i := IndexOf(x, c);
      var x' := x[i + 1..];
      assert x == x[..i] + [c] + x';
      assert x + [c] + y == x[..i] + [c] + (x' + [c] + y);
      SplitCons(x[..i], c, x' + [c] + y);
      SplitCons(x[..i], c, x');
      SplitSnoc(x', c, y);
    }
  }

  /** A name without a dot has the empty stem. */
  lemma StemWithoutDot(name: string)
    requires '.' !in name
    ensures Stem(name) == ""
  {
  }

  /** The stem of x + "." + ext is x when ext has no dot. */
  lemma StemOfExtension(x: string, ext: string)
    requires '.' !in ext
    ensures Stem(x + "." + ext) == x
  {
    SplitSnoc(x, '.', ext);
    var parts := Split(x + "." + ext, '.');
    assert parts[..|parts| - 1] == Split(x, '.');
    JoinSplit(x, '.');
  }

  /** The stem of x + ext is x when ext is a dot followed by no other dot. */
  lemma StemOfSuffix(x: string, ext: string)
    requires |ext| >= 1 && ext[0] == '.' && '.' !in ext[1..]
    ensures Stem(x + ext) == x
  {
    assert x + ext == x + "." + ext[1..];
    StemOfExtension(x, ext[1..]);
  }

  /** A name with a dot is its stem, a dot and a last component without a
      dot. */
  lemma StemSplits(name: string)
    requires '.' in name
    ensures exists ext :: '.' !in ext && name == Stem(name) + "." + ext
  {
    var parts := Split(name, '.');
    SplitCount(name, '.');
    var n := |parts|;
    assert parts == parts[..n - 1] + [parts[n - 1]];
    JoinSnoc(parts[..n - 1], '.', parts[n - 1]);
    JoinSplit(name, '.');
    assert name == Stem(name) + "." + parts[n - 1];
  }

  /** The stem is a prefix of the name, so it has no slash when the name
      has none. */
  lemma StemIsPrefix(name: string)
    ensures |Stem(name)| <= |name| && Stem(name) == name[..|Stem(name)|]
  {
    if '.' in name {
      StemSplits(name);
    }
  }

  /** A file stem contains no slash. */
  lemma FileStemHasNoSlash(path: string)
    ensures '/' !in FileStem(path)
  {
    var name := Basename(path);
    StemIsPrefix(name);
    forall k | 0 <= k < |FileStem(path)|
      ensures FileStem(path)[k] != '/'
    {
      assert FileStem(path)[k] == name[k];
    }
  }
}

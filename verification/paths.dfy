/** Path strings, `os.path.join`/`basename`, and the filesystem snapshot the
    scripts query through `glob`, `os.path.exists` and `os.path.isfile`.
    Paths are compared as strings: no normalisation, no symbolic links. */
module Paths {
  import opened Strings
  import opened Lists

  type Path = string

  predicate NoSlash(s: string) {
    forall i :: 0 <= i < |s| ==> s[i] != '/'
  }

  /** The directory part `os.path.join` puts in front of a relative name:
      empty, or ending in exactly the separator the caller wrote. */
  function DirPrefix(d: Path): (r: Path)
    ensures r == "" || r[|r| - 1] == '/'
    ensures IsPrefix(d, r)
  {
    if d == "" || d[|d| - 1] == '/' then d else d + "/"
  }

  /** `os.path.join(a, b)`: an absolute `b` replaces `a`; otherwise a `/`
      is inserted unless `a` is empty or already ends with one. */
  function Join(a: Path, b: string): (r: Path)
    ensures IsSuffix(b, r)
    ensures (b == "" || b[0] != '/') ==> IsPrefix(a, r)
  {
    if b != "" && b[0] == '/' then b else DirPrefix(a) + b
  }

  lemma NoSlashConcat(a: string, b: string)
    requires NoSlash(a) && NoSlash(b)
    ensures NoSlash(a + b)
  {
    forall i | 0 <= i < |a + b| ensures (a + b)[i] != '/' {
      if i >= |a| {
        assert (a + b)[i] == b[i - |a|];
      }
    }
  }

  /** `os.path.basename(p)`: the text after the last `/`. */
  function Basename(p: Path): (r: string)
    ensures NoSlash(r)
    ensures IsSuffix(r, p)
    ensures r == p || p[|p| - |r| - 1] == '/'
  {
    match LastIndexOf(p, "/")
    case None =>
      assert forall i :: 0 <= i < |p| ==> p[i] != '/' by {
        forall i | 0 <= i < |p| ensures p[i] != '/' {
          assert !OccursAt(p, "/", i);
          assert p[i..i + 1] == [p[i]];
        }
      }
      p
    case Some(i) =>
      var r := p[i + 1..];
      assert forall k :: 0 <= k < |r| ==> r[k] != '/' by {
        forall k | 0 <= k < |r| ensures r[k] != '/' {
          assert !OccursAt(p, "/", i + 1 + k);
          assert p[i + 1 + k..i + 2 + k] == [r[k]];
        }
      }
      assert p[i..i + 1] == "/";
      r
  }

  /** A name without `/` is its own basename. */
  lemma BasenameOfName(n: string)
    requires NoSlash(n)
    ensures Basename(n) == n
  {
  }

  /** The last component of a joined path is the name that was joined. */
  lemma BasenameOfJoin(a: Path, b: string)
    requires NoSlash(b)
    ensures Basename(Join(a, b)) == b
  {
    var d := DirPrefix(a);
    var p := Join(a, b);
    if b != "" {
      assert b[0] != '/';
    }
    assert p == d + b;
    var r := Basename(p);
    assert r == p[|p| - |r|..];
  }

  /** Joining distinct slash-free names onto the same or any directories
      gives distinct paths. */
  lemma JoinInjective(a1: Path, b1: string, a2: Path, b2: string)
    requires NoSlash(b1) && NoSlash(b2)
    requires Join(a1, b1) == Join(a2, b2)
    ensures b1 == b2
  {
    BasenameOfJoin(a1, b1);
    BasenameOfJoin(a2, b2);
  }

  /** `os.path.join(a, c1, c2, ...)`. */
  function JoinAll(a: Path, cs: seq<string>): Path
    decreases |cs|
  {
    if cs == [] then a else JoinAll(Join(a, cs[0]), cs[1..])
  }

  /** A snapshot of the directory tree: the regular files and the
      directories, each in the order a directory listing returns them. */
  datatype FileSystem = FileSystem(files: seq<Path>, dirs: seq<Path>) {

    /** `os.path.isfile(p)`. */
    predicate IsFile(p: Path) {
      p in files
    }

    /** `os.path.exists(p)`. */
    predicate Exists(p: Path) {
      p in files || p in dirs
    }

    /** What `glob` can return: files and directories alike. */
    function Entries(): seq<Path> {
      files + dirs
    }
  }

  /** `e` is a name directly inside `dir` (the single-level `dir/pattern`
      glob), and that name is `Basename(e)`. */
  predicate IsChildOf(dir: Path, e: Path) {
    var d := DirPrefix(dir);
    IsPrefix(d, e) && |e| > |d| && NoSlash(e[|d|..])
  }

  /** `e` lies at any depth below `dir` (a recursive glob whose directory
      part ends in a double star). */
  predicate IsBelow(dir: Path, e: Path) {
    var d := DirPrefix(dir);
    IsPrefix(d, e) && |e| > |d|
  }

  lemma ChildIsJoin(dir: Path, e: Path)
    requires IsChildOf(dir, e)
    ensures e == Join(dir, Basename(e))
  {
    var d := DirPrefix(dir);
    var name := e[|d|..];
    assert e == d + name;
    assert name[0] != '/';
    BasenameOfJoin(dir, name);
  }
}

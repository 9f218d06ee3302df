/**
 * Python's `posixpath.join` of two components, which the crawler uses to
 * build the path of a saved page, and `posixpath.basename`, which the
 * crawler does not call but which states what "directly inside a
 * directory" means for such a path.
 */
module PosixPath {

  const Sep: char := '/'

  /**
   * `os.path.join(a, b)` on POSIX: an absolute `b` discards `a`; otherwise a
   * separator is inserted unless `a` is empty or already ends with one.
   */
  function Join(a: string, b: string): (p: string)
    ensures |b| > 0 && b[0] == Sep ==> p == b
    ensures |b| == 0 || b[0] != Sep ==>
      && |a| + |b| <= |p| <= |a| + 1 + |b|
      && p[..|a|] == a
      && p[|p| - |b|..] == b
  {
    if |b| > 0 && b[0] == Sep then b
    else if a == [] || a[|a| - 1] == Sep then a + b
    else a + [Sep] + b
  }

  /** `os.path.basename(p)`: everything after the last separator. */
  function Basename(p: string): (b: string)
    ensures Sep !in b
  {
    if p == [] || p[|p| - 1] == Sep then []
    else Basename(p[..|p| - 1]) + [p[|p| - 1]]
  }

  /** The basename of a directory prefix followed by one separator-free component is that component. */
  lemma {:induction false} BasenameOfComponent(dir: string, c: string)
    requires dir == [] || dir[|dir| - 1] == Sep
    requires Sep !in c
    ensures Basename(dir + c) == c
    decreases |c|
  {
    if c == [] {
      assert dir + c == dir;
    } else {
      var p := dir + c;
      var init, last := c[..|c| - 1], c[|c| - 1];
      assert last in c;
      assert forall x :: x in init ==> x in c;
      assert p[..|p| - 1] == dir + init;
      assert p[|p| - 1] == last;
      BasenameOfComponent(dir, init);
      assert last != Sep;
      assert Basename(p) == Basename(p[..|p| - 1]) + [p[|p| - 1]];
      assert init + [last] == c;
    }
  }

  /**
   * Joining a separator-free component to a directory keeps the directory as
   * a prefix, inserts a separator exactly when the directory is non-empty and
   * does not already end in one, and makes the component the basename of the
   * result: the path names an entry directly inside `a`.
   */
  lemma JoinComponent(a: string, b: string)
    requires Sep !in b
    ensures var p := Join(a, b);
      && |a| <= |p| && p[..|a|] == a
      && p[|p| - |b|..] == b
      && p[..|p| - |b|] == (if a == [] || a[|a| - 1] == Sep then a else a + [Sep])
      && Basename(p) == b
  {
    var p := Join(a, b);
    if |b| > 0 {
      assert b[0] != Sep;
    }
    if a == [] || a[|a| - 1] == Sep {
      assert p == a + b;
      BasenameOfComponent(a, b);
    } else {
      assert p == (a + [Sep]) + b;
      BasenameOfComponent(a + [Sep], b);
    }
  }
}

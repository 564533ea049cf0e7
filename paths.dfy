/** The two `os.path` operations the scripts use, on `/`-separated paths. */
module Paths {

  /** `os.path.join(a, b)`: an absolute `b` replaces `a`; otherwise one `/` between them. */
  function PathJoin(a: string, b: string): string {
    if |b| > 0 && b[0] == '/' then b
    else if a == [] || a[|a| - 1] == '/' then a + b
    else a + "/" + b
  }

  /** `os.path.basename(p)`: what follows the last `/`. */
  function Basename(p: string): (r: string)
    ensures '/' !in r
    ensures '/' !in p ==> r == p
    decreases |p|
  {
    if p == [] then []
    else if p[|p| - 1] == '/' then []
    else Basename(p[..|p| - 1]) + [p[|p| - 1]]
  }

  lemma {:induction false} BasenameAppend(x: string, y: string)
    ensures Basename(x + y) == if '/' in y then Basename(y) else Basename(x) + y
    decreases |y|
  {
    if y == [] {
      assert x + y == x;
    } else {
      var z, last := y[..|y| - 1], y[|y| - 1];
      assert y == z + [last];
      assert (x + y)[..|x + y| - 1] == x + z;
      assert (x + y)[|x + y| - 1] == last;
      if last == '/' {
        assert '/' in y;
      } else {
        BasenameAppend(x, z);
        assert Basename(x + y) == Basename(x + z) + [last];
        assert Basename(y) == Basename(z) + [last];
        assert '/' in y <==> '/' in z;
        if '/' !in z {
          assert Basename(x) + z + [last] == Basename(x) + y;
        }
      }
    }
  }

  /** The last component of a joined path is the last component of its second part. */
  lemma BasenameOfJoin(a: string, b: string)
    ensures Basename(PathJoin(a, b)) == Basename(b)
  {
    if |b| > 0 && b[0] == '/' {
    } else if a == [] {
      assert a + b == b;
    } else if a[|a| - 1] == '/' {
      BasenameAppend(a, b);
      BasenameAppend(a[..|a| - 1], [a[|a| - 1]]);
      assert a[..|a| - 1] + [a[|a| - 1]] == a;
    } else {
      BasenameAppend(a + "/", b);
      BasenameAppend(a, "/");
    }
  }
}

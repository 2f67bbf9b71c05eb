/** Go's `path.Dir` and `path.Join` as the resolver uses them, for slash-separated
    paths whose elements are never "." or "..". */
module Paths {
  import opened Oracles

  /** Drops trailing slashes, but never the first character. */
  function TrimTrailingSlashes(p: string): (q: string)
    requires |p| > 0
    ensures 0 < |q| <= |p| && q == p[..|q|]
    ensures |q| == 1 || q[|q| - 1] != '/'
  {
    if |p| > 1 && p[|p| - 1] == '/' then TrimTrailingSlashes(p[..|p| - 1]) else p
  }

  /** Only slashes are dropped. */
  lemma {:induction false} TrimTrailingSlashesDropsSlashes(p: string)
    requires |p| > 0
    ensures forall k :: |TrimTrailingSlashes(p)| <= k < |p| ==> p[k] == '/'
    decreases |p|
  {
    if |p| > 1 && p[|p| - 1] == '/' {
      TrimTrailingSlashesDropsSlashes(p[..|p| - 1]);
    }
  }

  /** Height of a path: a measure that every step to a different parent lowers. */
  function Height(p: string): nat
  {
    if p == "." then 0 else if '/' !in p then 1 else |p| + 1
  }

  /** `path.Dir`: the path without its last element and the slashes before
      it. The only fixpoints are "." (where every relative path ends) and "/"
      (the root), and every other step is strictly upward, to a proper prefix
      of `p` that is followed by a slash. */
  function Dir(p: string): (q: string)
    ensures q == p <==> p == "." || p == "/"
    ensures q != p ==> Height(q) < Height(p)
    ensures q == "." || q == "/" || (|q| < |p| && q == p[..|q|] && p[|q|] == '/')
    decreases |p|
  {
    if |p| == 0 then "."
    else if p[|p| - 1] != '/' then
      var init := p[..|p| - 1];
      var q := Dir(init);
      assert '/' in p ==> '/' in init;
      assert q != "." && q != "/" ==> q == p[..|q|] && p[|q|] == init[|q|];
      q
    else
      var q := TrimTrailingSlashes(p);
      TrimTrailingSlashesDropsSlashes(p);
      assert |q| < |p| ==> p[|q|] == '/';
      q
  }

  /** Entry `i + 1` of `a` is the parent of entry `i`, which is not a fixpoint,
      and is strictly higher up. */
  predicate ParentStep(a: seq<string>, i: nat)
    requires i + 1 < |a|
  {
    Dir(a[i]) != a[i] && a[i + 1] == Dir(a[i]) && Height(a[i + 1]) < Height(a[i])
  }

  /** The directories the resolver visits when walking up from `p`: `p`, its
      parent, its grandparent, ... up to and including the first fixpoint of
      `Dir`. */
  function Ancestors(p: string): (a: seq<string>)
    ensures |a| >= 1 && a[0] == p
    ensures Dir(a[|a| - 1]) == a[|a| - 1]
    ensures forall i :: 0 <= i < |a| - 1 ==> ParentStep(a, i)
    decreases Height(p)
  {
    if Dir(p) == p then [p]
    else
      var up := Ancestors(Dir(p));
      var a := [p] + up;
      AncestorsCons(p, up);
      a
  }

  lemma AncestorsCons(p: string, up: seq<string>)
    requires Dir(p) != p && |up| >= 1 && up[0] == Dir(p)
    requires forall i :: 0 <= i < |up| - 1 ==> ParentStep(up, i)
    ensures forall i :: 0 <= i < |up| ==> ParentStep([p] + up, i)
  {
    var a := [p] + up;
    forall i | 0 <= i < |up|
      ensures ParentStep(a, i)
    {
      if i > 0 {
        assert a[i] == up[i - 1] && a[i + 1] == up[i];
        assert ParentStep(up, i - 1);
      }
    }
  }

  /** Entry `k` of the way up from `p` is a fixpoint exactly when it is the
      last entry; otherwise the next entry is its parent. */
  lemma AncestorsAt(p: string, k: nat)
    requires k < |Ancestors(p)|
    ensures var a := Ancestors(p);
      && (Dir(a[k]) == a[k] <==> k == |a| - 1)
      && (k < |a| - 1 ==> a[k + 1] == Dir(a[k]))
  {
    var a := Ancestors(p);
    if k < |a| - 1 {
      assert ParentStep(a, k);
    }
  }

  /** A directory in clean form: "", ".", "/" or a path with no trailing slash. */
  predicate CleanDir(dir: string)
  {
    dir == "" || dir == "." || dir == "/" || dir[|dir| - 1] != '/'
  }

  /** A file name that is one path element: not empty, no slash, not "." or "..". */
  predicate FileName(name: string)
  {
    name != "" && name != "." && name != ".." && '/' !in name
  }

  /** `path.Join(dir, name)` for a directory in clean form. `path.Join` drops
      an empty element and cleans the result, so the name alone is returned in
      "" and ".", the directory alone for an empty name, and otherwise the two
      joined by one slash. For a file name the result lies in `dir`: its parent
      is `dir` (or "." for ""), and it ends with the name. */
  function Join(dir: string, name: string): (r: string)
    ensures name == "" ==> r == dir
    ensures (dir == "" || dir == ".") && name != "" ==> r == name
    ensures FileName(name) && CleanDir(dir) ==>
      && Dir(r) == (if dir == "" then "." else dir)
      && |name| <= |r| && r[|r| - |name|..] == name
  {
    if name == "" then dir
    else if dir == "" || dir == "." then
      DirOfLastElement("", name);
      name
    else if dir[|dir| - 1] == '/' then
      DirOfLastElement(dir, name);
      dir + name
    else
      DirOfLastElement(dir + "/", name);
      assert TrimTrailingSlashes(dir + "/") == TrimTrailingSlashes((dir + "/")[..|dir|]);
      assert (dir + "/")[..|dir|] == dir;
      dir + "/" + name
  }

  /** Appending slash-free text to a path that is "" or ends with a slash does
      not change its parent. */
  lemma {:induction false} DirOfLastElement(p: string, n: string)
    requires p == "" || p[|p| - 1] == '/'
    ensures '/' !in n ==> Dir(p + n) == Dir(p)
    decreases |n|
  {
    if |n| > 0 && '/' !in n {
      var init := n[..|n| - 1];
      assert (p + n)[..|p + n| - 1] == p + init;
      assert (p + n)[|p + n| - 1] == n[|n| - 1];
      assert n[|n| - 1] in n;
      assert forall c :: c in init ==> c in n;
      DirOfLastElement(p, init);
    } else if |n| == 0 {
      assert p + n == p;
    }
  }
}

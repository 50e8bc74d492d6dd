/** Day 7: the device's file system, rebuilt from a terminal session. The
    directories live in one list; each knows its parent's index and its
    children's indices, and the root is entry 0. A directory's size is the
    size of its files plus the sizes of its subdirectories. */
module FileTree {
  import opened Util

  // ---------------------------------------------------------------- files

  /** `File`: a name and a size. */
  datatype File = File(name: string, size: nat)

  /** `File::new`: the name is kept as given, and `get_size` reads the size
      back. */
  function NewFile(name: string, size: nat): (f: File)
    ensures f.name == name && GetSize(f) == size
  {
    File(name, size)
  }

  function GetSize(f: File): nat
  {
    f.size
  }

  /** The sum of the file sizes (the fold in `get_directory_size`). */
  function FileSum(files: seq<File>): nat
  {
    if |files| == 0 then 0 else FileSum(files[..|files| - 1]) + GetSize(files[|files| - 1])
  }

  // ---------------------------------------------------------- directories

  /** `Directory`: the parent's index (none for the root), the name, the
      children's indices and the files. */
  datatype Directory = Directory(parent: Option<nat>, name: string, children: seq<nat>, files: seq<File>)

  /** `has_name`. */
  predicate HasName(d: Directory, name: string)
  {
    d.name == name
  }

  /** `Directory::new`: a directory without parent, children or files. */
  function NewDirectory(name: string): (d: Directory)
    ensures d.parent.None? && d.children == [] && d.files == []
    ensures HasName(d, name) && forall n :: HasName(d, n) ==> n == name
  {
    Directory(None, name, [], [])
  }

  /** `Directory::with_parent`: the same, below `parent`. */
  function WithParent(parent: nat, name: string): (d: Directory)
    ensures d.parent == Some(parent) && d.children == [] && d.files == []
    ensures HasName(d, name) && forall n :: HasName(d, n) ==> n == name
  {
    Directory(Some(parent), name, [], [])
  }

  // ----------------------------------------------------- directory info

  /** `DirectoryInfo`: a directory's name and total size. Equality is over
      both fields, hashing over the name only, ordering over the size only. */
  datatype DirectoryInfo = DirectoryInfo(name: string, size: nat)

  /** `cmp`: compares the sizes and ignores the names. */
  function Cmp(a: DirectoryInfo, b: DirectoryInfo): (r: Ordering)
    ensures r == Less <==> a.size < b.size
    ensures r == Equal <==> a.size == b.size
    ensures r == Greater <==> a.size > b.size
  {
    IntCmp(a.size, b.size)
  }

  /** The ordering is antisymmetric and transitive: a total preorder on
      the sizes. */
  lemma CmpOrder(a: DirectoryInfo, b: DirectoryInfo, c: DirectoryInfo)
    ensures Cmp(b, a) == Cmp(a, b).Reverse()
    ensures Cmp(a, b) != Greater && Cmp(b, c) != Greater ==> Cmp(a, c) != Greater
  {
  }

  /** `partial_cmp` is always defined. */
  function PartialCmp(a: DirectoryInfo, b: DirectoryInfo): (r: Option<Ordering>)
    ensures r.Some? && (r.value == Equal <==> a.size == b.size)
  {
    Some(Cmp(a, b))
  }

  /** What the hash sees: the name. */
  function HashKey(d: DirectoryInfo): string
  {
    d.name
  }

  /** Equal entries hash alike, but entries that compare `Equal` need not
      be equal: two directories of the same size and different names. */
  lemma HashAndOrder()
    ensures forall a: DirectoryInfo, b: DirectoryInfo :: a == b ==> HashKey(a) == HashKey(b)
    ensures Cmp(DirectoryInfo("a", 1), DirectoryInfo("b", 1)) == Equal
    ensures DirectoryInfo("a", 1) != DirectoryInfo("b", 1)
  {
  }

  // --------------------------------------------------------- file system

  /** Every directory but the root has a parent with a smaller index. */
  predicate ParentsBelow(dirs: seq<Directory>)
  {
    forall x :: 0 < x < |dirs| ==> dirs[x].parent.Some? && dirs[x].parent.value < x
  }

  /** Every child index is larger than its parent's, names a directory, and
      that directory names the parent back. */
  predicate ChildrenAbove(dirs: seq<Directory>)
  {
    forall i, k :: 0 <= i < |dirs| && 0 <= k < |dirs[i].children| ==>
      i < dirs[i].children[k] < |dirs| && dirs[dirs[i].children[k]].parent == Some(i)
  }

  /** Children are listed in the order they were added. */
  predicate ChildrenIncreasing(dirs: seq<Directory>)
  {
    forall i, k, l :: 0 <= i < |dirs| && 0 <= k < l < |dirs[i].children| ==>
      dirs[i].children[k] < dirs[i].children[l]
  }

  /** Every directory but the root is listed among its parent's children. */
  predicate Registered(dirs: seq<Directory>)
    requires ParentsBelow(dirs)
  {
    forall x :: 0 < x < |dirs| ==> x in dirs[dirs[x].parent.value].children
  }

  /** The shape every directory list built by these operations has: a tree
      rooted at entry 0. */
  predicate Tree(dirs: seq<Directory>)
  {
    |dirs| >= 1 && dirs[0].parent.None? &&
    ParentsBelow(dirs) && ChildrenAbove(dirs) && ChildrenIncreasing(dirs) && Registered(dirs)
  }

  /** `FileSystem`: the directory list and the index of the current one. */
  datatype FileSystem = FileSystem(dirs: seq<Directory>, current: nat)
  {
    predicate Valid()
    {
      Tree(dirs) && current < |dirs|
    }
  }

  /** `FileSystem::new`: just the root `/`, which is current. */
  function New(): (fs: FileSystem)
    ensures fs.Valid() && |fs.dirs| == 1 && fs.current == 0 && HasName(fs.dirs[0], "/")
  {
    FileSystem([NewDirectory("/")], 0)
  }

  /** `go_up_one`: to the parent, or to the root from the root. */
  function GoUpOne(fs: FileSystem): (r: FileSystem)
    requires fs.current < |fs.dirs|
    ensures r.dirs == fs.dirs
    ensures fs.dirs[fs.current].parent.Some? ==> r.current == fs.dirs[fs.current].parent.value
    ensures fs.dirs[fs.current].parent.None? ==> r.current == 0
    ensures fs.Valid() ==> r.Valid() && (fs.current > 0 ==> r.current < fs.current)
  {
    match fs.dirs[fs.current].parent
    case Some(p) => fs.(current := p)
    case None => fs.(current := 0)
  }

  /** `go_to_root`. */
  function GoToRoot(fs: FileSystem): (r: FileSystem)
    ensures r.dirs == fs.dirs && r.current == 0
    ensures fs.Valid() ==> r.Valid()
  {
    fs.(current := 0)
  }

  /** The position of the first of `cs`, from `from` on, whose directory
      is called `name`. */
  function FirstNamed(dirs: seq<Directory>, cs: seq<nat>, name: string, from: nat): (r: Option<nat>)
    requires from <= |cs| && forall k :: 0 <= k < |cs| ==> cs[k] < |dirs|
    ensures r.Some? ==> from <= r.value < |cs| && HasName(dirs[cs[r.value]], name)
    ensures r.Some? ==> forall k :: from <= k < r.value ==> !HasName(dirs[cs[k]], name)
    ensures r.None? <==> forall k :: from <= k < |cs| ==> !HasName(dirs[cs[k]], name)
    decreases |cs| - from
  {
    if from == |cs| then None
    else if HasName(dirs[cs[from]], name) then Some(from)
    else FirstNamed(dirs, cs, name, from + 1)
  }

  /** Directory `cur` has a child called `name`. */
  predicate HasChildNamed(dirs: seq<Directory>, cur: nat, name: string)
    requires cur < |dirs| && ChildrenAbove(dirs)
  {
    exists k :: 0 <= k < |dirs[cur].children| && HasName(dirs[dirs[cur].children[k]], name)
  }

  /** `go_down_to`: to the first child of that name; nothing happens when
      there is none. */
  function GoDownTo(fs: FileSystem, name: string): (r: FileSystem)
    requires fs.Valid()
    ensures r.dirs == fs.dirs && r.Valid()
    ensures r.current != fs.current <==> HasChildNamed(fs.dirs, fs.current, name)
    ensures r.current != fs.current ==> r.current in fs.dirs[fs.current].children && HasName(fs.dirs[r.current], name)
  {
    var cs := fs.dirs[fs.current].children;
    match FirstNamed(fs.dirs, cs, name, 0)
    case Some(k) =>
      assert fs.current < cs[k];
      fs.(current := cs[k])
    case None => fs
  }

  /** Going down into a child and back up returns where it started. */
  lemma DownThenUp(fs: FileSystem, name: string)
    requires fs.Valid()
    ensures GoDownTo(fs, name).current != fs.current ==> GoUpOne(GoDownTo(fs, name)) == fs
  {
    var r := GoDownTo(fs, name);
    if r.current != fs.current {
      var k :| 0 <= k < |fs.dirs[fs.current].children| && fs.dirs[fs.current].children[k] == r.current;
      assert fs.dirs[r.current].parent == Some(fs.current);
    }
  }

  /** The directory list after `add_directory`: a new last entry below
      `cur`, registered as its newest child. */
  function Extend(dirs: seq<Directory>, cur: nat, name: string): (r: seq<Directory>)
    requires cur < |dirs|
    ensures |r| == |dirs| + 1 && r[|dirs|] == WithParent(cur, name)
    ensures r[cur] == dirs[cur].(children := dirs[cur].children + [|dirs|])
    ensures forall i :: 0 <= i < |dirs| && i != cur ==> r[i] == dirs[i]
  {
    dirs[cur := dirs[cur].(children := dirs[cur].children + [|dirs|])] + [WithParent(cur, name)]
  }

  lemma ExtendParents(dirs: seq<Directory>, cur: nat, name: string)
    requires cur < |dirs| && ParentsBelow(dirs)
    ensures ParentsBelow(Extend(dirs, cur, name))
    ensures forall x :: 0 <= x < |dirs| ==> Extend(dirs, cur, name)[x].parent == dirs[x].parent
  {
  }

  lemma ExtendChildren(dirs: seq<Directory>, cur: nat, name: string)
    requires cur < |dirs| && ChildrenAbove(dirs)
    ensures ChildrenAbove(Extend(dirs, cur, name))
  {
    var r := Extend(dirs, cur, name);
    forall i, k | 0 <= i < |r| && 0 <= k < |r[i].children|
      ensures i < r[i].children[k] < |r| && r[r[i].children[k]].parent == Some(i)
    {
      if i == cur && k == |dirs[i].children| {
        assert r[i].children[k] == |dirs|;
      } else {
        assert r[i].children[k] == dirs[i].children[k];
      }
    }
  }

  lemma ExtendIncreasing(dirs: seq<Directory>, cur: nat, name: string)
    requires cur < |dirs| && ChildrenAbove(dirs) && ChildrenIncreasing(dirs)
    ensures ChildrenIncreasing(Extend(dirs, cur, name))
  {
    var r := Extend(dirs, cur, name);
    forall i, k, l | 0 <= i < |r| && 0 <= k < l < |r[i].children|
      ensures r[i].children[k] < r[i].children[l]
    {
      if i == cur && l == |dirs[i].children| {
        assert r[i].children[k] == dirs[i].children[k];
      }
    }
  }

  lemma ExtendRegistered(dirs: seq<Directory>, cur: nat, name: string)
    requires cur < |dirs| && ParentsBelow(dirs) && Registered(dirs)
    ensures ParentsBelow(Extend(dirs, cur, name)) && Registered(Extend(dirs, cur, name))
  {
    var r := Extend(dirs, cur, name);
    ExtendParents(dirs, cur, name);
    forall x | 0 < x < |r| ensures x in r[r[x].parent.value].children {
      if x < |dirs| {
        var p := dirs[x].parent.value;
        assert x in dirs[p].children;
        assert dirs[p].children <= r[p].children;
      } else {
        assert r[cur].children[|dirs[cur].children|] == x;
      }
    }
  }

  /** Adding a directory keeps the tree shape and every parent link, and
      links the new entry below `cur`. */
  lemma ExtendTree(dirs: seq<Directory>, cur: nat, name: string)
    requires cur < |dirs| && Tree(dirs)
    ensures Tree(Extend(dirs, cur, name))
    ensures Parents(Extend(dirs, cur, name)) == Parents(dirs) + [Some(cur)]
  {
    ExtendParents(dirs, cur, name);
    ExtendChildren(dirs, cur, name);
    ExtendIncreasing(dirs, cur, name);
    ExtendRegistered(dirs, cur, name);
  }

  /** `add_directory`: the current directory stays. */
  function AddDirectory(fs: FileSystem, name: string): (r: FileSystem)
    requires fs.current < |fs.dirs|
    ensures r.dirs == Extend(fs.dirs, fs.current, name) && r.current == fs.current
  {
    fs.(dirs := Extend(fs.dirs, fs.current, name))
  }

  /** The directory list after `add_file`: the file is appended to
      directory `cur`, and nothing else changes. */
  function Append(dirs: seq<Directory>, cur: nat, f: File): (r: seq<Directory>)
    requires cur < |dirs|
    ensures |r| == |dirs| && r[cur] == dirs[cur].(files := dirs[cur].files + [f])
    ensures forall i :: 0 <= i < |dirs| && i != cur ==> r[i] == dirs[i]
  {
    dirs[cur := dirs[cur].(files := dirs[cur].files + [f])]
  }

  /** Adding a file keeps the tree shape and every parent link. */
  lemma AppendTree(dirs: seq<Directory>, cur: nat, f: File)
    requires cur < |dirs|
    ensures ChildrenAbove(dirs) ==> ChildrenAbove(Append(dirs, cur, f))
    ensures Tree(dirs) ==> Tree(Append(dirs, cur, f))
    ensures Parents(Append(dirs, cur, f)) == Parents(dirs)
  {
    var r := Append(dirs, cur, f);
    assert forall i :: 0 <= i < |dirs| ==> r[i].children == dirs[i].children && r[i].parent == dirs[i].parent;
  }

  /** `add_file`: the current directory stays. */
  function AddFile(fs: FileSystem, f: File): (r: FileSystem)
    requires fs.current < |fs.dirs|
    ensures r.dirs == Append(fs.dirs, fs.current, f) && r.current == fs.current
  {
    fs.(dirs := Append(fs.dirs, fs.current, f))
  }

  /** Both additions keep a valid file system valid. */
  lemma AddValid(fs: FileSystem, name: string, f: File)
    requires fs.Valid()
    ensures AddDirectory(fs, name).Valid() && AddFile(fs, f).Valid()
  {
    ExtendTree(fs.dirs, fs.current, name);
    AppendTree(fs.dirs, fs.current, f);
  }

  // ---------------------------------------------------------------- sizes

  /** `get_directory_size`: the files' sizes plus the children's sizes. */
  function DirSize(dirs: seq<Directory>, i: nat): nat
    requires ChildrenAbove(dirs) && i < |dirs|
    decreases |dirs| - i, 1
  {
    FileSum(dirs[i].files) + ChildSum(dirs, i, |dirs[i].children|)
  }

  /** The sizes of the first `n` children of directory `i`. */
  function ChildSum(dirs: seq<Directory>, i: nat, n: nat): nat
    requires ChildrenAbove(dirs) && i < |dirs| && n <= |dirs[i].children|
    decreases |dirs| - i, 0, n
  {
    if n == 0 then 0
    else ChildSum(dirs, i, n - 1) + DirSize(dirs, dirs[i].children[n - 1])
  }

  /** `get_used_size`: the size of the root. */
  function UsedSize(fs: FileSystem): nat
    requires fs.Valid()
  {
    DirSize(fs.dirs, 0)
  }

  /** The parent links, which decide the subtrees. */
  function Parents(dirs: seq<Directory>): (ps: seq<Option<nat>>)
    ensures |ps| == |dirs| && forall x :: 0 <= x < |ps| ==> ps[x] == dirs[x].parent
  {
    seq(|dirs|, x requires 0 <= x < |dirs| => dirs[x].parent)
  }

  /** Directory `x` lies in the subtree of `i`: following parents from `x`
      reaches `i`. */
  predicate InSubtree(ps: seq<Option<nat>>, x: nat, i: nat)
    requires x < |ps|
    decreases x
  {
    x == i || (x > i && ps[x].Some? && ps[x].value < x && InSubtree(ps, ps[x].value, i))
  }

  /** The directory on the way from `x` up to `i` whose parent is `i`. */
  function Toward(ps: seq<Option<nat>>, x: nat, i: nat): (r: nat)
    requires x < |ps| && InSubtree(ps, x, i) && x != i
    ensures i < r <= x && ps[r] == Some(i) && InSubtree(ps, x, r)
    decreases x
  {
    var p := ps[x].value;
    if p == i then x else Toward(ps, p, i)
  }

  /** For a child `c` of `i`, the subtree of `c` holds exactly the part of
      the subtree of `i` reached through `c`. */
  lemma {:induction false} ChildSubtree(ps: seq<Option<nat>>, x: nat, c: nat, i: nat)
    requires x < |ps| && c < |ps| && i < c && ps[c] == Some(i)
    ensures InSubtree(ps, x, c) <==> (InSubtree(ps, x, i) && x != i && Toward(ps, x, i) == c)
    decreases x
  {
    if x == c {
      assert InSubtree(ps, i, i);
    } else if x > c && ps[x].Some? && ps[x].value < x && ps[x].value != i {
      ChildSubtree(ps, ps[x].value, c, i);
    }
  }

  /** Every directory lies in the root's subtree. */
  lemma {:induction false} RootReaches(dirs: seq<Directory>, x: nat)
    requires Tree(dirs) && x < |dirs|
    ensures InSubtree(Parents(dirs), x, 0)
    decreases x
  {
    if x > 0 {
      RootReaches(dirs, dirs[x].parent.value);
    }
  }

  /** Some child among the first `n` of `i` has `x` in its subtree. */
  predicate ReachedBy(dirs: seq<Directory>, x: nat, i: nat, n: nat)
    requires ChildrenAbove(dirs) && x < |dirs| && i < |dirs| && n <= |dirs[i].children|
  {
    exists k :: 0 <= k < n && InSubtree(Parents(dirs), x, dirs[i].children[k])
  }

  /** `x` is reached through a child of `i` exactly when it lies strictly
      below `i`. */
  lemma ReachedByBelow(dirs: seq<Directory>, x: nat, i: nat)
    requires Tree(dirs) && x < |dirs| && i < |dirs|
    ensures ReachedBy(dirs, x, i, |dirs[i].children|) <==> InSubtree(Parents(dirs), x, i) && x != i
  {
    var ps := Parents(dirs);
    var ch := dirs[i].children;
    if InSubtree(ps, x, i) && x != i {
      var t := Toward(ps, x, i);
      assert t in ch;
      var k :| 0 <= k < |ch| && ch[k] == t;
      assert InSubtree(ps, x, ch[k]);
    }
    if ReachedBy(dirs, x, i, |ch|) {
      var k :| 0 <= k < |ch| && InSubtree(ps, x, ch[k]);
      ChildSubtree(ps, x, ch[k], i);
    }
  }

  lemma ReachedByStep(dirs: seq<Directory>, x: nat, i: nat, n: nat)
    requires ChildrenAbove(dirs) && x < |dirs| && i < |dirs| && 0 < n <= |dirs[i].children|
    ensures ReachedBy(dirs, x, i, n) <==> ReachedBy(dirs, x, i, n - 1) || InSubtree(Parents(dirs), x, dirs[i].children[n - 1])
  {
  }

  /** Only one child of `i` can have `x` in its subtree. */
  lemma ReachedOnce(dirs: seq<Directory>, x: nat, i: nat, n: nat)
    requires Tree(dirs) && x < |dirs| && i < |dirs| && 0 < n <= |dirs[i].children|
    requires InSubtree(Parents(dirs), x, dirs[i].children[n - 1])
    ensures !ReachedBy(dirs, x, i, n - 1)
  {
    var ps := Parents(dirs);
    var ch := dirs[i].children;
    ChildSubtree(ps, x, ch[n - 1], i);
    forall k | 0 <= k < n - 1 ensures !InSubtree(ps, x, ch[k]) {
      ChildSubtree(ps, x, ch[k], i);
      assert ch[k] < ch[n - 1];
    }
  }

  /** Adding a file of size `s` adds `s` to the size of the current
      directory and of each directory above it, and leaves every other
      size alone. */
  lemma {:induction false} AppendSize(dirs: seq<Directory>, cur: nat, f: File, i: nat)
    requires Tree(dirs) && cur < |dirs| && i < |dirs|
    ensures ChildrenAbove(Append(dirs, cur, f))
    ensures DirSize(Append(dirs, cur, f), i) ==
      DirSize(dirs, i) + (if InSubtree(Parents(dirs), cur, i) then f.size else 0)
    decreases |dirs| - i, 1
  {
    AppendTree(dirs, cur, f);
    var r := Append(dirs, cur, f);
    AppendChildSum(dirs, cur, f, i, |dirs[i].children|);
    ReachedByBelow(dirs, cur, i);
    if i == cur {
      assert r[i].files[..|r[i].files| - 1] == dirs[i].files;
    }
  }

  /** The same over the first `n` children of `i`. */
  lemma {:induction false} AppendChildSum(dirs: seq<Directory>, cur: nat, f: File, i: nat, n: nat)
    requires Tree(dirs) && cur < |dirs| && i < |dirs| && n <= |dirs[i].children|
    ensures ChildrenAbove(Append(dirs, cur, f))
    ensures ChildSum(Append(dirs, cur, f), i, n) ==
      ChildSum(dirs, i, n) + (if ReachedBy(dirs, cur, i, n) then f.size else 0)
    decreases |dirs| - i, 0, n
  {
    AppendTree(dirs, cur, f);
    if n > 0 {
      var r := Append(dirs, cur, f);
      var c := dirs[i].children[n - 1];
      assert r[i].children == dirs[i].children;
      assert ChildSum(r, i, n) == ChildSum(r, i, n - 1) + DirSize(r, c);
      AppendChildSum(dirs, cur, f, i, n - 1);
      AppendSize(dirs, cur, f, c);
      ReachedByStep(dirs, cur, i, n);
      if InSubtree(Parents(dirs), cur, c) {
        ReachedOnce(dirs, cur, i, n);
      }
    }
  }

  /** Adding a directory leaves every existing size as it was. */
  lemma {:induction false} ExtendSize(dirs: seq<Directory>, cur: nat, name: string, i: nat)
    requires Tree(dirs) && cur < |dirs| && i < |dirs|
    ensures ChildrenAbove(Extend(dirs, cur, name))
    ensures DirSize(Extend(dirs, cur, name), i) == DirSize(dirs, i)
    decreases |dirs| - i, 1
  {
    ExtendTree(dirs, cur, name);
    var r := Extend(dirs, cur, name);
    var ch := dirs[i].children;
    ExtendChildSum(dirs, cur, name, i, |ch|);
    if i == cur {
      assert r[i].children[|ch|] == |dirs|;
      assert DirSize(r, |dirs|) == 0;
    }
  }

  lemma {:induction false} ExtendChildSum(dirs: seq<Directory>, cur: nat, name: string, i: nat, n: nat)
    requires Tree(dirs) && cur < |dirs| && i < |dirs| && n <= |dirs[i].children|
    ensures ChildrenAbove(Extend(dirs, cur, name))
    ensures ChildSum(Extend(dirs, cur, name), i, n) == ChildSum(dirs, i, n)
    decreases |dirs| - i, 0, n
  {
    ExtendChildren(dirs, cur, name);
    if n > 0 {
      var c := dirs[i].children[n - 1];
      assert Extend(dirs, cur, name)[i].children[n - 1] == c;
      ExtendChildSum(dirs, cur, name, i, n - 1);
      ExtendSize(dirs, cur, name, c);
    }
  }

  /** The used size rises by exactly the size of an added file. */
  lemma AddFileUsed(fs: FileSystem, f: File)
    requires fs.Valid()
    ensures AddFile(fs, f).Valid() && UsedSize(AddFile(fs, f)) == UsedSize(fs) + f.size
  {
    AppendTree(fs.dirs, fs.current, f);
    AppendSize(fs.dirs, fs.current, f, 0);
    RootReaches(fs.dirs, fs.current);
  }

  /** The used size does not change when a directory is added. */
  lemma AddDirectoryUsed(fs: FileSystem, name: string)
    requires fs.Valid()
    ensures AddDirectory(fs, name).Valid() && UsedSize(AddDirectory(fs, name)) == UsedSize(fs)
  {
    ExtendTree(fs.dirs, fs.current, name);
    ExtendSize(fs.dirs, fs.current, name, 0);
  }

  // -------------------------------------------------------------- queries

  /** Each directory's name and size, in index order. */
  function Infos(dirs: seq<Directory>): (r: seq<DirectoryInfo>)
    requires ChildrenAbove(dirs)
    ensures |r| == |dirs|
    ensures forall i :: 0 <= i < |r| ==> r[i] == DirectoryInfo(dirs[i].name, DirSize(dirs, i))
  {
    seq(|dirs|, i requires 0 <= i < |dirs| => DirectoryInfo(dirs[i].name, DirSize(dirs, i)))
  }

  /** The entries of size at most `limit` in a list. */
  function BelowOf(infos: seq<DirectoryInfo>, limit: nat): (r: set<DirectoryInfo>)
    ensures forall d :: d in r <==> d in infos && d.size <= limit
  {
    set i | 0 <= i < |infos| && infos[i].size <= limit :: infos[i]
  }

  /** `get_directories_with_size_below`: the set of entries of size at most
      `limit`; entries with the same name and size are one element. */
  function SizesBelow(fs: FileSystem, limit: nat): (r: set<DirectoryInfo>)
    requires fs.Valid()
    ensures forall d :: d in r <==> d.size <= limit && exists i :: 0 <= i < |fs.dirs| && d == DirectoryInfo(fs.dirs[i].name, DirSize(fs.dirs, i))
  {
    var infos := Infos(fs.dirs);
    assert forall d :: d in infos <==> exists i :: 0 <= i < |infos| && d == infos[i];
    BelowOf(infos, limit)
  }

  /** The total size of a set of entries, in no particular order. */
  ghost function SetTotal(s: set<DirectoryInfo>): nat
    decreases |s|
  {
    if s == {} then 0 else var d :| d in s; d.size + SetTotal(s - {d})
  }

  /** Any element can be taken out first. */
  lemma {:induction false} SetTotalRemove(s: set<DirectoryInfo>, d: DirectoryInfo)
    requires d in s
    ensures SetTotal(s) == d.size + SetTotal(s - {d})
    decreases |s|
  {
    var e :| e in s && SetTotal(s) == e.size + SetTotal(s - {e});
    if e != d {
      SetTotalRemove(s - {e}, d);
      SetTotalRemove(s - {d}, e);
      assert s - {e} - {d} == s - {d} - {e};
    }
  }

  /** The fold over the hash set, with the set's duplicates dropped: each
      entry of size at most `limit` counts the first time it appears. */
  function DistinctTotal(infos: seq<DirectoryInfo>, limit: nat): nat
  {
    if |infos| == 0 then 0
    else
      var d := infos[|infos| - 1];
      var rest := infos[..|infos| - 1];
      DistinctTotal(rest, limit) + (if d.size <= limit && d !in rest then d.size else 0)
  }

  /** The fold adds up each element of the set once. */
  lemma {:induction false} DistinctTotalIsSetTotal(infos: seq<DirectoryInfo>, limit: nat)
    ensures DistinctTotal(infos, limit) == SetTotal(BelowOf(infos, limit))
    decreases |infos|
  {
    if |infos| == 0 {
      assert BelowOf(infos, limit) == {};
    } else {
      var d := infos[|infos| - 1];
      var rest := infos[..|infos| - 1];
      DistinctTotalIsSetTotal(rest, limit);
      var before := BelowOf(rest, limit);
      var after := BelowOf(infos, limit);
      assert infos == rest + [d];
      if d.size <= limit && d !in rest {
        assert after - {d} == before;
        SetTotalRemove(after, d);
      } else {
        assert after == before;
      }
    }
  }

  /** Part one: the sizes in the set, added up. */
  function PartOne(fs: FileSystem, limit: nat): (total: nat)
    requires fs.Valid()
  {
    DistinctTotal(Infos(fs.dirs), limit)
  }

  /** Part one adds every element of the set exactly once. */
  lemma PartOneTotal(fs: FileSystem, limit: nat)
    requires fs.Valid()
    ensures PartOne(fs, limit) == SetTotal(SizesBelow(fs, limit))
  {
    DistinctTotalIsSetTotal(Infos(fs.dirs), limit);
  }

  /** The index the sort puts first among the entries of size at least
      `limit`: the smallest size, and of equal sizes the earliest (the
      sort is stable). */
  function Smallest(infos: seq<DirectoryInfo>, limit: nat): (r: Option<nat>)
    ensures r.None? <==> forall j :: 0 <= j < |infos| ==> infos[j].size < limit
    ensures r.Some? ==> r.value < |infos| && infos[r.value].size >= limit
    ensures r.Some? ==> forall j :: 0 <= j < |infos| && infos[j].size >= limit ==> infos[r.value].size <= infos[j].size
    ensures r.Some? ==> forall j :: 0 <= j < r.value && infos[j].size >= limit ==> infos[j].size > infos[r.value].size
  {
    if |infos| == 0 then None
    else
      var n := |infos| - 1;
      var best := Smallest(infos[..n], limit);
      if infos[n].size >= limit && (best.None? || infos[n].size < infos[best.value].size) then Some(n)
      else best
  }

  /** `get_first_directory_bigger_than`: `None` when no directory is that
      large (indexing the empty list panics). */
  function FirstBiggerThan(fs: FileSystem, limit: nat): (r: Option<DirectoryInfo>)
    requires fs.Valid()
    ensures r.None? <==> forall i :: 0 <= i < |fs.dirs| ==> DirSize(fs.dirs, i) < limit
    ensures r.Some? ==> exists i :: 0 <= i < |fs.dirs| && r.value == DirectoryInfo(fs.dirs[i].name, DirSize(fs.dirs, i))
    ensures r.Some? ==> r.value.size >= limit
    ensures r.Some? ==> forall i :: 0 <= i < |fs.dirs| && DirSize(fs.dirs, i) >= limit ==> r.value.size <= DirSize(fs.dirs, i)
  {
    var infos := Infos(fs.dirs);
    assert forall i :: 0 <= i < |infos| ==> infos[i].size == DirSize(fs.dirs, i);
    match Smallest(infos, limit)
    case None => None
    case Some(k) =>
      assert infos[k] == DirectoryInfo(fs.dirs[k].name, DirSize(fs.dirs, k));
      Some(infos[k])
  }
}

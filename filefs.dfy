/**
 * The query and ingestion layer of filefs.c on top of the namespace tree.
 *
 * The mounted file system is one `Tree` rooted at "/" built from the lines of a
 * listing file.  A node with children is a directory; every other node is a
 * read-only regular file whose content is "<path> is in <listing file>".
 * The FUSE callbacks are modelled as methods that return what the C functions
 * return (0, a count or a negated errno), together with the `stat` they fill
 * and the entries they pass to `filler`; `ffs_read` copies into the caller's array.
 */
module FileFs {
  import opened Paths
  import opened NTree

  const ENOENT: int := 2
  const ENOTDIR: int := 20

  const S_IFDIR: nat := 0x4000
  const S_IFREG: nat := 0x8000
  /** `S_IFDIR | 0755`: the permission bits and the type bits do not overlap. */
  const DirMode: nat := S_IFDIR + 0x1ED
  /** `S_IFREG | 0444`. */
  const FileMode: nat := S_IFREG + 0x124

  const IsIn: string := " is in "

  /** The `struct stat` fields the callbacks set: mode and size. */
  datatype Stat = Stat(mode: nat, size: nat)

  /** One call of `filler`: an entry name with the attributes passed along with it. */
  datatype Entry = Entry(name: string, attr: Stat)

  /** The synthesised content of every file: "<path> is in <listing>". */
  function Content(path: string, listing: string): (c: string)
    ensures |c| == |path| + |IsIn| + |listing|
    ensures c[..|path|] == path && c[|path| + |IsIn|..] == listing
    ensures c[|path|..|path| + |IsIn|] == IsIn
  {
    path + IsIn + listing
  }

  /**
   * The bytes `ffs_read` copies: from `offset`, at most `size` of them, clamped to the
   * end of `data`; nothing when `offset` is at or past the end.  `offset < len` is a
   * comparison with an unsigned length in C, so a negative offset also reads nothing.
   */
  function ReadSlice(data: string, offset: int, size: nat): (r: string)
    ensures |r| <= size
    ensures !(0 <= offset < |data|) ==> r == []
    ensures 0 <= offset < |data| ==> |r| == (if size < |data| - offset then size else |data| - offset)
    ensures 0 <= offset < |data| ==> forall m :: 0 <= m < |r| ==> r[m] == data[offset + m]
  {
    if 0 <= offset < |data| then
      data[offset..if offset + size > |data| then |data| else offset + size]
    else []
  }

  /** Reading `a` bytes then `b` bytes from where the first read ended is reading `a + b` bytes. */
  lemma ReadSliceChunks(data: string, offset: int, a: nat, b: nat)
    requires 0 <= offset
    ensures ReadSlice(data, offset, a) + ReadSlice(data, offset + |ReadSlice(data, offset, a)|, b)
            == ReadSlice(data, offset, a + b)
  {
    var first := ReadSlice(data, offset, a);
    if offset < |data| && offset + a < |data| {
      assert |first| == a;
      var e := if offset + a + b > |data| then |data| else offset + a + b;
      assert data[offset..offset + a] + data[offset + a..e] == data[offset..e];
    }
  }

  /** A read of at least the whole length from offset 0 yields the whole content. */
  lemma ReadSliceWhole(data: string, size: nat)
    requires |data| <= size
    ensures ReadSlice(data, 0, size) == data
  {
    if data != [] {
      assert data[0..|data|] == data;
    }
  }

  /** The line as passed to `create_entities`: one trailing '\n', if present, removed. */
  function TrimNewline(line: string): (r: string)
    requires line != []
    ensures line == r + "\n" || (line == r && line[|line| - 1] != '\n')
  {
    if line[|line| - 1] == '\n' then line[..|line| - 1] else line
  }

  /**
   * A buffer read as a C string, as `create_entities` reads the line: the characters
   * before the first NUL.
   */
  function CString(s: string): (r: string)
    ensures r <= s && '\0' !in r
    ensures r == s || s[|r|] == '\0'
  {
    if s == [] || s[0] == '\0' then [] else [s[0]] + CString(s[1..])
  }

  /** The path a listing line inserts: the line less one trailing '\n', up to its first NUL. */
  function ListedPath(line: string): (r: string)
    requires line != []
    ensures r <= line && '\0' !in r
  {
    CString(TrimNewline(line))
  }

  /** A NUL inside a line ends the path: "/a\0/b\n" inserts "/a" and nothing of "/b". */
  lemma EmbeddedNulEndsPath()
    ensures ListedPath("/a\0/b\n") == "/a"
    ensures Segments(ListedPath("/a\0/b\n")) == ["a"]
  {
    var t := TrimNewline("/a\0/b\n");
    assert t == "/a\0/b";
    assert CString(t[2..]) == [];
    assert CString(t[1..]) == "a";
    var s := "/a";
    assert SkipSlashes(s, 0) == 1 && TokenEnd(s, 1) == 2;
    assert Strtok(s, 0) == Tok("a", 2);
    assert Strtok(s, 2) == End;
  }


  lemma ExtendsTrans(k1: map<Node, seq<Node>>, k2: map<Node, seq<Node>>, k3: map<Node, seq<Node>>)
    requires Extends(k1, k2) && Extends(k2, k3)
    ensures Extends(k1, k3)
  {
    forall n | n in k1
      ensures n in k3 && k1[n] <= k3[n]
    {
      assert k1[n] <= k2[n] <= k3[n];
    }
  }

  /**
   * One step of `create_entities` that creates a node: appending `m`, named `x`, below
   * the node `cur` reached by `done`, when `cur` has no child named `x`, grows the tree,
   * keeps sibling names unique and makes `done + [x]` resolve to `m`.
   */
  lemma HangStep(s: Shape, root: Node, cur: Node, m: Node, done: seq<string>, x: string)
    requires cur in s.kids && cur in s.depth && m !in s.kids
    requires Walk(s.kids, root, done) == cur && Child(s.kids, cur, x) == null
    requires m.name == x && IsSegment(x)
    requires UniqueSiblings(s.kids) && SegmentNames(s.kids)
    ensures Extends(s.kids, s.Hang(cur, m).kids)
    ensures UniqueSiblings(s.Hang(cur, m).kids) && SegmentNames(s.Hang(cur, m).kids)
    ensures Walk(s.Hang(cur, m).kids, root, done + [x]) == m
  {
    var k1, k2 := s.kids, s.Hang(cur, m).kids;
    assert k2 == k1[cur := k1[cur] + [m]][m := []];
    forall n | n in k1
      ensures n in k2 && k1[n] <= k2[n]
    {
      if n == cur {
        assert k1[n] <= k1[n] + [m];
      }
    }
    forall p, i, j | p in k2 && 0 <= i < j < |k2[p]|
      ensures k2[p][i].name != k2[p][j].name
    {
      if p == cur && j == |k1[cur]| {
        assert k2[p][i] == k1[cur][i];
      }
    }
    forall p, i | p in k2 && 0 <= i < |k2[p]|
      ensures IsSegment(k2[p][i].name)
    {
      if p == cur && i < |k1[cur]| {
        assert k2[p][i] == k1[cur][i];
      }
    }
    WalkExtends(k1, k2, root, done);
    WalkAppend(k2, root, done, [x]);
    FirstNamedAppend(k1[cur], m, x);
    assert Walk(k2, cur, [x]) == Walk(k2, Child(k2, cur, x), []);
  }

  /** One more `strtok_r` call moves its token from the rest of the path to the part done. */
  lemma PathStep(path: string, pos: nat, done: seq<string>)
    requires pos <= |path| && Strtok(path, pos).Tok?
    requires done + SegmentsFrom(path, pos) == Segments(path)
    ensures (done + [Strtok(path, pos).text]) + SegmentsFrom(path, Strtok(path, pos).saved) == Segments(path)
  {
    var t := Strtok(path, pos);
    SegmentsFromTok(path, pos, t.text, t.saved);
    assert done + ([t.text] + SegmentsFrom(path, t.saved)) == (done + [t.text]) + SegmentsFrom(path, t.saved);
  }

  /** Resolving one more segment is looking up that child. */
  lemma WalkStep(k: map<Node, seq<Node>>, root: Node, done: seq<string>, x: string)
    ensures Walk(k, root, done + [x]) == Child(k, Walk(k, root, done), x)
  {
    WalkAppend(k, root, done, [x]);
    assert Walk(k, Walk(k, root, done), [x]) == Walk(k, Child(k, Walk(k, root, done), x), []);
  }

  /** `q` is one of the nodes resolved by a non-empty prefix of `segs`. */
  ghost predicate OnPath(k: map<Node, seq<Node>>, root: Node, segs: seq<string>, q: Node) {
    exists i :: 0 < i <= |segs| && Walk(k, root, segs[..i]) == q
  }

  /** Growing the tree and the path keeps a node on the path. */
  lemma OnPathGrow(k1: map<Node, seq<Node>>, k2: map<Node, seq<Node>>, root: Node, segs: seq<string>, x: string,
                   q: Node)
    requires Extends(k1, k2) && OnPath(k1, root, segs, q)
    ensures OnPath(k2, root, segs + [x], q)
  {
    var i :| 0 < i <= |segs| && Walk(k1, root, segs[..i]) == q;
    WalkExtends(k1, k2, root, segs[..i]);
    assert (segs + [x])[..i] == segs[..i];
  }

  /** The node the whole path resolves to is on the path. */
  lemma OnPathLast(k: map<Node, seq<Node>>, root: Node, segs: seq<string>, q: Node)
    requires segs != [] && Walk(k, root, segs) == q
    ensures OnPath(k, root, segs, q)
  {
    assert segs[..|segs|] == segs;
  }

  /** A node on a path stays on it when the tree only grows. */
  lemma OnPathKeep(k1: map<Node, seq<Node>>, k2: map<Node, seq<Node>>, root: Node, segs: seq<string>, q: Node)
    requires Extends(k1, k2) && OnPath(k1, root, segs, q)
    ensures OnPath(k2, root, segs, q)
  {
    var i :| 0 < i <= |segs| && Walk(k1, root, segs[..i]) == q;
    WalkExtends(k1, k2, root, segs[..i]);
  }

  /** Every path of `ps` resolves. */
  ghost predicate AllResolve(k: map<Node, seq<Node>>, root: Node, ps: seq<string>) {
    forall j :: 0 <= j < |ps| ==> Walk(k, root, Segments(ps[j])) != null
  }

  /** `q` lies on one of the paths of `ps`. */
  ghost predicate OnSomePath(k: map<Node, seq<Node>>, root: Node, ps: seq<string>, q: Node) {
    exists j :: 0 <= j < |ps| && OnPath(k, root, Segments(ps[j]), q)
  }

  /** Growing the tree keeps earlier paths resolving; a new one that resolves joins them. */
  lemma AllResolveGrow(k1: map<Node, seq<Node>>, k2: map<Node, seq<Node>>, root: Node, ps: seq<string>, p: string)
    requires Extends(k1, k2) && AllResolve(k1, root, ps) && Walk(k2, root, Segments(p)) != null
    ensures AllResolve(k2, root, ps + [p])
  {
    forall j | 0 <= j < |ps| + 1
      ensures Walk(k2, root, Segments((ps + [p])[j])) != null
    {
      if j < |ps| {
        WalkExtends(k1, k2, root, Segments(ps[j]));
      }
    }
  }

  /**
   * A node of the grown tree that lay on an earlier path, or lies on the new one,
   * lies on one of the paths so far.
   */
  lemma OnSomePathGrow(k1: map<Node, seq<Node>>, k2: map<Node, seq<Node>>, root: Node, ps: seq<string>, p: string,
                       q: Node)
    requires Extends(k1, k2)
    requires OnSomePath(k1, root, ps, q) || OnPath(k2, root, Segments(p), q)
    ensures OnSomePath(k2, root, ps + [p], q)
  {
    if OnSomePath(k1, root, ps, q) {
      var j :| 0 <= j < |ps| && OnPath(k1, root, Segments(ps[j]), q);
      OnPathKeep(k1, k2, root, Segments(ps[j]), q);
      assert (ps + [p])[j] == ps[j];
    } else {
      assert (ps + [p])[|ps|] == p;
    }
  }

  /** `done` holds the paths of the first `|done|` lines of the listing. */
  ghost predicate ListedPrefix(done: seq<string>, lines: seq<string>) {
    && |done| <= |lines|
    && forall j :: 0 <= j < |done| ==> lines[j] != [] && done[j] == ListedPath(lines[j])
  }

  /**
   * The state while reading a listing: the tree grew from `k0` to `k`, every path of
   * `done` resolves, and every node of `added` lies on one of them.
   */
  ghost predicate Grown(k0: map<Node, seq<Node>>, k: map<Node, seq<Node>>, root: Node, done: seq<string>,
                        added: set<Node>) {
    && Extends(k0, k)
    && AllResolve(k, root, done)
    && forall m :: m in added ==> OnSomePath(k, root, done, m)
  }

  /**
   * One line of a listing inserted: the tree grew from `k1` to `k2` so that `p`
   * resolves, and every node added since `k0` was added before or lies on `p`.
   */
  lemma ListingGrows(k0: map<Node, seq<Node>>, k1: map<Node, seq<Node>>, k2: map<Node, seq<Node>>, root: Node,
                     ps: seq<string>, p: string, added1: set<Node>, added2: set<Node>)
    requires Grown(k0, k1, root, ps, added1)
    requires Extends(k1, k2) && Walk(k2, root, Segments(p)) != null
    requires forall m :: m in added2 ==> m in added1 || OnPath(k2, root, Segments(p), m)
    ensures Grown(k0, k2, root, ps + [p], added2)
  {
    AllResolveGrow(k1, k2, root, ps, p);
    forall m | m in added2
      ensures OnSomePath(k2, root, ps + [p], m)
    {
      OnSomePathGrow(k1, k2, root, ps, p, m);
    }
    ExtendsTrans(k0, k1, k2);
  }

  /** Once `done` holds every trimmed line, its facts are facts about the listing. */
  lemma ListingDone(k0: map<Node, seq<Node>>, k: map<Node, seq<Node>>, root: Node, done: seq<string>,
                    lines: seq<string>, added: set<Node>)
    requires ListedPrefix(done, lines) && |done| == |lines|
    requires Grown(k0, k, root, done, added)
    ensures forall i :: 0 <= i < |lines| ==> Walk(k, root, Segments(ListedPath(lines[i]))) != null
    ensures forall m :: m in added ==>
              exists i :: 0 <= i < |lines| && OnPath(k, root, Segments(ListedPath(lines[i])), m)
  {
    forall m | m in added
      ensures exists i :: 0 <= i < |lines| && OnPath(k, root, Segments(ListedPath(lines[i])), m)
    {
      var j :| 0 <= j < |done| && OnPath(k, root, Segments(done[j]), m);
      assert done[j] == ListedPath(lines[j]);
    }
  }

  /** Appending the next trimmed line keeps `done` a trimmed prefix of `lines`. */
  lemma AppendPointwise(done: seq<string>, lines: seq<string>)
    requires ListedPrefix(done, lines) && |done| < |lines| && lines[|done|] != []
    ensures ListedPrefix(done + [ListedPath(lines[|done|])], lines)
  {
    var line := ListedPath(lines[|done|]);
    forall j | 0 <= j < |done| + 1
      ensures lines[j] != [] && (done + [line])[j] == ListedPath(lines[j])
    {
      if j < |done| {
        assert (done + [line])[j] == done[j];
      }
    }
  }

  /**
   * The path `path + "/" + name` of the i-th child of the node `path` resolves to that
   * child, because sibling names are unique segments.
   */
  lemma ChildPathResolves(k: map<Node, seq<Node>>, root: Node, path: string, n: Node, i: nat)
    requires UniqueSiblings(k) && SegmentNames(k)
    requires Walk(k, root, Segments(path)) == n && n in k && i < |k[n]|
    ensures Walk(k, root, Segments(path + "/" + k[n][i].name)) == k[n][i]
  {
    var x := k[n][i].name;
    SegmentsJoin(path, x);
    SegmentsOfSegment(x);
    WalkAppend(k, root, Segments(path), [x]);
    FirstNamedUnique(k[n], i);
    assert Walk(k, n, [x]) == Walk(k, Child(k, n, x), []);
  }

  /** Every child listed in `k` has a child list of its own in `k`: `k` is a whole tree. */
  ghost predicate Closed(k: map<Node, seq<Node>>) {
    forall n, j {:trigger k[n][j]} :: n in k && 0 <= j < |k[n]| ==> k[n][j] in k
  }

  /**
   * One listing line's insertion took the children map `k1` to the whole tree `k2`:
   * the tree was only extended, the line's path resolves, and every new node lies
   * on that path.
   */
  ghost predicate Inserted(k1: map<Node, seq<Node>>, k2: map<Node, seq<Node>>, root: Node, p: string) {
    && Extends(k1, k2) && Closed(k2)
    && Walk(k2, root, Segments(p)) != null
    && forall m :: m in k2 && m !in k1 ==> OnPath(k2, root, Segments(p), m)
  }

  /** The `j`-th path of `done` took `steps[j]` to `steps[j + 1]`. */
  ghost predicate InsertedAt(steps: seq<map<Node, seq<Node>>>, root: Node, done: seq<string>, j: nat)
    requires |steps| == |done| + 1 && j < |done|
  {
    Inserted(steps[j], steps[j + 1], root, done[j])
  }

  /** The paths of `done` were inserted in order, the `j`-th taking `steps[j]` to `steps[j + 1]`. */
  ghost predicate InsertedInOrder(steps: seq<map<Node, seq<Node>>>, root: Node, done: seq<string>) {
    && |steps| == |done| + 1
    && forall j :: 0 <= j < |done| ==> InsertedAt(steps, root, done, j)
  }

  /** `create_entities` as its contract states it, read over the children maps. */
  lemma CreatedInserted(k1: map<Node, seq<Node>>, k2: map<Node, seq<Node>>, r1: set<Node>, r2: set<Node>,
                        root: Node, p: string)
    requires k1.Keys == r1 && k2.Keys == r2
    requires Extends(k1, k2) && Closed(k2) && Walk(k2, root, Segments(p)) != null
    requires forall m :: m in r2 - r1 ==> OnPath(k2, root, Segments(p), m)
    ensures Inserted(k1, k2, root, p)
  {
    forall m | m in k2 && m !in k1
      ensures OnPath(k2, root, Segments(p), m)
    {
      assert m in r2 - r1;
    }
  }

  /**
   * The state while reading a listing: the summary since `k0` holds, and `steps`
   * records the insertions of `done`, from `k0` up to `k`.
   */
  ghost predicate ReadSoFar(k0: map<Node, seq<Node>>, k: map<Node, seq<Node>>, root: Node, done: seq<string>,
                            added: set<Node>, steps: seq<map<Node, seq<Node>>>) {
    && Grown(k0, k, root, done, added)
    && InsertedInOrder(steps, root, done)
    && steps[0] == k0 && steps[|done|] == k
  }

  /**
   * One line of a listing inserted by `create_entities`, from `k1` to `k2`: both
   * the summary since `k0` and the record of insertions gain the line.
   */
  lemma LineInserted(k0: map<Node, seq<Node>>, k1: map<Node, seq<Node>>, k2: map<Node, seq<Node>>,
                     r0: set<Node>, r1: set<Node>, r2: set<Node>, root: Node,
                     steps: seq<map<Node, seq<Node>>>, done: seq<string>, p: string)
    requires k1.Keys == r1 && k2.Keys == r2
    requires ReadSoFar(k0, k1, root, done, r1 - r0, steps)
    requires Extends(k1, k2) && Closed(k2) && Walk(k2, root, Segments(p)) != null
    requires forall m :: m in r2 - r1 ==> OnPath(k2, root, Segments(p), m)
    ensures ReadSoFar(k0, k2, root, done + [p], r2 - r0, steps + [k2])
  {
    CreatedInserted(k1, k2, r1, r2, root, p);
    InsertedInOrderAppend(steps, root, done, k2, p);
    ListingGrows(k0, k1, k2, root, done, p, r1 - r0, r2 - r0);
  }

  /** The map at position `t` of a sequence of children maps is extended by the next one. */
  ghost predicate ExtendsAt(steps: seq<map<Node, seq<Node>>>, t: nat)
    requires t + 1 < |steps|
  {
    Extends(steps[t], steps[t + 1])
  }

  /** Along a sequence of maps each extending the one before, every map extends all earlier ones. */
  lemma {:induction false} StepsExtend(steps: seq<map<Node, seq<Node>>>, a: nat, b: nat)
    requires forall t :: 0 <= t && t + 1 < |steps| ==> ExtendsAt(steps, t)
    requires a <= b < |steps|
    ensures Extends(steps[a], steps[b])
    decreases b - a
  {
    if a == b {
      assert Extends(steps[a], steps[a]);
    } else {
      assert ExtendsAt(steps, a);
      StepsExtend(steps, a + 1, b);
      ExtendsTrans(steps[a], steps[a + 1], steps[b]);
    }
  }

  /**
   * Insertion order is sibling order: a child `x` that node `p` has once line `i`
   * is inserted comes, in the final tree, before a child `y` of `p` that line
   * `j > i` created.
   */
  lemma LaterLineLaterSibling(steps: seq<map<Node, seq<Node>>>, root: Node, lines: seq<string>,
                              i: nat, j: nat, p: Node, x: Node, y: Node)
    requires |steps| == |lines| + 1 && forall t :: 0 <= t < |lines| ==> lines[t] != []
    requires forall t {:trigger lines[t]} :: 0 <= t < |lines| ==>
               Inserted(steps[t], steps[t + 1], root, ListedPath(lines[t]))
    requires i < j < |lines|
    requires p in steps[i + 1] && x in steps[i + 1][p]
    requires y in steps[j + 1] && y !in steps[j]
    requires p in steps[j + 1] && y in steps[j + 1][p]
    ensures p in steps[|lines|]
    ensures var ks := steps[|lines|][p];
      exists a, b :: 0 <= a < b < |ks| && ks[a] == x && ks[b] == y
  {
    forall t | 0 <= t && t + 1 < |steps|
      ensures ExtendsAt(steps, t)
    {
      RecordStep(steps, root, lines, t);
    }
    StepsExtend(steps, i + 1, j);
    StepsExtend(steps, j, j + 1);
    StepsExtend(steps, j + 1, |lines|);
    var k1, k2, k3, k4 := steps[i + 1], steps[j], steps[j + 1], steps[|lines|];
    assert Extends(k1, k2) && Extends(k2, k3) && Extends(k3, k4);
    RecordStep(steps, root, lines, j - 1);
    var before, after, ks := k2[p], k3[p], k4[p];
    assert k1[p] <= before <= after <= ks;
    OrderedIn(k1[p], before, after, ks, x, y);
  }

  /** Each map of a listing's record extends the one before and is a whole tree. */
  lemma RecordStep(steps: seq<map<Node, seq<Node>>>, root: Node, lines: seq<string>, t: nat)
    requires |steps| == |lines| + 1 && forall t :: 0 <= t < |lines| ==> lines[t] != []
    requires forall t {:trigger lines[t]} :: 0 <= t < |lines| ==>
               Inserted(steps[t], steps[t + 1], root, ListedPath(lines[t]))
    requires t < |lines|
    ensures ExtendsAt(steps, t) && Closed(steps[t + 1])
  {
    assert Inserted(steps[t], steps[t + 1], root, ListedPath(lines[t]));
  }

  /** A member of a prefix comes before an element that only a longer prefix has. */
  lemma OrderedIn(s0: seq<Node>, s1: seq<Node>, s2: seq<Node>, s3: seq<Node>, x: Node, y: Node)
    requires s0 <= s1 <= s2 <= s3 && x in s0 && y in s2 && y !in s1
    ensures exists a, b :: 0 <= a < b < |s3| && s3[a] == x && s3[b] == y
  {
    var a :| 0 <= a < |s0| && s0[a] == x;
    var b :| 0 <= b < |s2| && s2[b] == y;
    assert s1[a] == x;
    assert b >= |s1|;
    assert s3[a] == x && s3[b] == y;
  }

  /**
   * A listing "/d/u", "/d/v" of one-character names (such as "/a/x", "/a/y") read
   * into a tree holding only its root: in any record of its insertions, `d` ends
   * with `u` before `v` among its children.
   */
  lemma ListingOrderExample(steps: seq<map<Node, seq<Node>>>, root: Node, lines: seq<string>, d: char, u: char, v: char)
    requires d !in "/\0\n" && u !in "/\0\n" && v !in "/\0\n" && d != v && u != v && root.name != [v]
    requires lines == ["/" + [d] + "/" + [u], "/" + [d] + "/" + [v]]
    requires |steps| == 3 && steps[0] == map[root := []]
    requires forall t {:trigger lines[t]} :: 0 <= t < |lines| ==>
               Inserted(steps[t], steps[t + 1], root, ListedPath(lines[t]))
    ensures var k := steps[2]; var a := Walk(k, root, [[d]]);
      a != null && a in k &&
      exists i, j :: 0 <= i < j < |k[a]| && k[a][i] == Walk(k, root, [[d], [u]]) && k[a][j] == Walk(k, root, [[d], [v]])
  {
    SlashTwo(lines[0]);
    SlashTwo(lines[1]);
    var p1, p2 := ListedPath(lines[0]), ListedPath(lines[1]);
    assert Inserted(steps[0], steps[1], root, p1) && Inserted(steps[1], steps[2], root, p2);
    InsertedTwice(steps[0], steps[1], steps[2], root, p1, p2, [d], [u], [v]);
    TwoLinesOrder(steps[1], steps[2], root, [d], [u], [v]);
  }

  /**
   * Two insertions into a tree holding only its root, of "d/u" then "d/v", where
   * neither the root nor the first path is named `v`.
   */
  lemma InsertedTwice(k0: map<Node, seq<Node>>, k1: map<Node, seq<Node>>, k2: map<Node, seq<Node>>, root: Node,
                      p1: string, p2: string, d: string, u: string, v: string)
    requires k0 == map[root := []] && root.name != v && d != v && u != v
    requires Segments(p1) == [d, u] && Segments(p2) == [d, v]
    requires Inserted(k0, k1, root, p1) && Inserted(k1, k2, root, p2)
    ensures Extends(k1, k2) && Closed(k1) && forall m :: m in k1 ==> m.name != v
    ensures Walk(k1, root, [d, u]) != null && Walk(k2, root, [d, v]) != null
  {
    InsertedNames(k0, k1, root, p1, v);
  }

  /**
   * "d/u" resolves before a line makes "d/v" resolve in a whole tree where no
   * node was named `v`: the child for `v` comes after the child for `u` under `d`.
   */
  lemma TwoLinesOrder(k1: map<Node, seq<Node>>, k2: map<Node, seq<Node>>, root: Node, d: string, u: string, v: string)
    requires Extends(k1, k2) && Closed(k1) && forall m :: m in k1 ==> m.name != v
    requires Walk(k1, root, [d, u]) != null && Walk(k2, root, [d, v]) != null
    ensures var a := Walk(k2, root, [d]);
      a != null && a in k2 &&
      exists i, j :: 0 <= i < j < |k2[a]| && k2[a][i] == Walk(k2, root, [d, u]) && k2[a][j] == Walk(k2, root, [d, v])
  {
    var a, x := WalkTwoFound(k1, root, d, u);
    WalkExtends(k1, k2, root, [d]);
    WalkExtends(k1, k2, root, [d, u]);
    var a', y := WalkTwoFound(k2, root, d, v);
    assert y !in k1 && y !in k1[a];
    OrderedIn(k1[a], k1[a], k2[a], k2[a], x, y);
  }

  /** Inserting a path adds no node named by anything but one of its segments. */
  lemma InsertedNames(k1: map<Node, seq<Node>>, k2: map<Node, seq<Node>>, root: Node, p: string, v: string)
    requires Inserted(k1, k2, root, p) && v !in Segments(p)
    requires forall m :: m in k1 ==> m.name != v
    ensures forall m :: m in k2 ==> m.name != v
  {
    forall m | m in k2
      ensures m.name != v
    {
      if m !in k1 {
        OnPathNamed(k2, root, Segments(p), m);
      }
    }
  }

  /** A node on a path is named by one of its segments. */
  lemma OnPathNamed(k: map<Node, seq<Node>>, root: Node, segs: seq<string>, q: Node)
    requires OnPath(k, root, segs, q)
    ensures q.name in segs
  {
    var i :| 0 < i <= |segs| && Walk(k, root, segs[..i]) == q;
    assert segs[..i][i - 1] == segs[i - 1];
  }

  /** The whole listing read: what the reading state says, in terms of the lines. */
  lemma ListingRead(k0: map<Node, seq<Node>>, k: map<Node, seq<Node>>, root: Node, done: seq<string>,
                    lines: seq<string>, added: set<Node>, steps: seq<map<Node, seq<Node>>>)
    requires ListedPrefix(done, lines) && |done| == |lines|
    requires ReadSoFar(k0, k, root, done, added, steps)
    ensures Extends(k0, k)
    ensures forall i :: 0 <= i < |lines| ==> Walk(k, root, Segments(ListedPath(lines[i]))) != null
    ensures forall m :: m in added ==>
              exists i :: 0 <= i < |lines| && OnPath(k, root, Segments(ListedPath(lines[i])), m)
    ensures |steps| == |lines| + 1 && steps[0] == k0 && steps[|lines|] == k
    ensures forall i {:trigger lines[i]} :: 0 <= i < |lines| ==>
              Inserted(steps[i], steps[i + 1], root, ListedPath(lines[i]))
  {
    ListingDone(k0, k, root, done, lines, added);
    InsertedLines(steps, root, done, lines);
  }

  /** Once every line is inserted, the record speaks of the lines' own paths. */
  lemma InsertedLines(steps: seq<map<Node, seq<Node>>>, root: Node, done: seq<string>, lines: seq<string>)
    requires InsertedInOrder(steps, root, done) && ListedPrefix(done, lines) && |done| == |lines|
    ensures forall i {:trigger lines[i]} :: 0 <= i < |lines| ==>
              Inserted(steps[i], steps[i + 1], root, ListedPath(lines[i]))
  {
    forall i | 0 <= i < |lines|
      ensures Inserted(steps[i], steps[i + 1], root, ListedPath(lines[i]))
    {
      assert InsertedAt(steps, root, done, i);
      assert done[i] == ListedPath(lines[i]);
    }
  }

  /** One more insertion, from the last map of `steps` to `k`, extends the record. */
  lemma InsertedInOrderAppend(steps: seq<map<Node, seq<Node>>>, root: Node, done: seq<string>,
                              k: map<Node, seq<Node>>, p: string)
    requires InsertedInOrder(steps, root, done)
    requires Inserted(steps[|done|], k, root, p)
    ensures InsertedInOrder(steps + [k], root, done + [p])
  {
    forall j | 0 <= j < |done| + 1
      ensures InsertedAt(steps + [k], root, done + [p], j)
    {
      if j < |done| {
        assert InsertedAt(steps, root, done, j);
      }
      InsertedAtAppend(steps, root, done, k, p, j);
    }
  }

  /** Position `j` of the record extended by one insertion, from the last map of `steps` to `k`. */
  lemma InsertedAtAppend(steps: seq<map<Node, seq<Node>>>, root: Node, done: seq<string>,
                         k: map<Node, seq<Node>>, p: string, j: nat)
    requires |steps| == |done| + 1 && j <= |done|
    requires j < |done| ==> InsertedAt(steps, root, done, j)
    requires j == |done| ==> Inserted(steps[|done|], k, root, p)
    ensures InsertedAt(steps + [k], root, done + [p], j)
  {
    var s2, d2 := steps + [k], done + [p];
    if j < |done| {
      assert s2[j] == steps[j] && s2[j + 1] == steps[j + 1] && d2[j] == done[j];
    } else {
      assert s2[j] == steps[|done|] && s2[j + 1] == k && d2[j] == p;
    }
  }

  /** The mounted file system: `fs_root` and `options.listing_file`. */
  class FileSystem {
    const tree: Tree
    const listing: string

    /** The tree is valid and its sibling names are unique path segments. */
    ghost predicate Valid()
      reads tree, tree.Repr
    {
      tree.Valid() && UniqueSiblings(tree.shape.kids) && SegmentNames(tree.shape.kids)
    }

    /** The node a path names, or null. */
    ghost function Lookup(path: string): Node?
      reads tree
    {
      Walk(tree.shape.kids, tree.root, Segments(path))
    }

    /** The children of `n` in sibling order (none for null). */
    ghost function Children(n: Node?): seq<Node>
      reads tree
    {
      if n != null && n in tree.shape.kids then tree.shape.kids[n] else []
    }

    /**
     * The `stat` buffer after `ffs_getattr` fills it for the node `n` reached by `path`,
     * when it held `st0` before: a directory when `n` has a child, whose size is left
     * as it was; otherwise a read-only file whose size is its content's length.
     */
    ghost function Filled(st0: Stat, n: Node, path: string): (st: Stat)
      reads tree
      ensures st.mode == DirMode <==> Children(n) != []
      ensures st.mode == DirMode ==> st.size == st0.size
      ensures st.mode != DirMode ==> st.mode == FileMode && st.size == |path| + |IsIn| + |listing|
    {
      if Children(n) != [] then Stat(DirMode, st0.size) else Stat(FileMode, |Content(path, listing)|)
    }

    /**
     * The attributes FUSE reports for node `n` reached by `path`: libfuse zeroes the
     * buffer before it calls `ffs_getattr`, so a directory has size 0.
     */
    ghost function AttrOf(n: Node, path: string): (st: Stat)
      reads tree
      ensures st.mode == DirMode <==> Children(n) != []
      ensures st.mode == DirMode ==> st.size == 0
    {
      Filled(Stat(0, 0), n, path)
    }

    /** Start-up in `main`: `fs_root = new_node("/")`, with the listing file's name. */
    constructor (listingFile: string)
      ensures Valid() && fresh(tree) && fresh(tree.Repr)
      ensures listing == listingFile && tree.root.name == "/" && tree.shape.kids == map[tree.root := []]
    {
      tree := new Tree("/");
      listing := listingFile;
    }

    /**
     * `create_entities(path)`: for each segment, reuse the child of that name or
     * append a new one, and descend.
     */
    method CreateEntities(path: string)
      requires Valid()
      modifies tree, tree.Repr
      ensures Valid() && fresh(tree.Repr - old(tree.Repr))
      ensures Extends(old(tree.shape.kids), tree.shape.kids)
      ensures Lookup(path) != null
      ensures old(Lookup(path)) != null ==> tree.shape == old(tree.shape) && tree.Repr == old(tree.Repr)
      ensures forall m :: m in tree.Repr - old(tree.Repr) ==> OnPath(tree.shape.kids, tree.root, Segments(path), m)
    {
      var cur := tree.root;
      var pos := 0;
      var t := Strtok(path, pos);
      ghost var done: seq<string> := [];
      while t.Tok?
        invariant pos <= |path| && t == Strtok(path, pos)
        invariant done + SegmentsFrom(path, pos) == Segments(path)
        invariant Valid() && fresh(tree.Repr - old(tree.Repr))
        invariant cur in tree.Repr && Walk(tree.shape.kids, tree.root, done) == cur
        invariant Extends(old(tree.shape.kids), tree.shape.kids)
        invariant old(Lookup(path)) != null ==> tree.shape == old(tree.shape) && tree.Repr == old(tree.Repr)
        invariant forall m :: m in tree.Repr - old(tree.Repr) ==> OnPath(tree.shape.kids, tree.root, done, m)
        decreases |path| - pos
      {
        ghost var k1 := tree.shape.kids;
        PathStep(path, pos, done);
        WalkStep(k1, tree.root, done, t.text);
        if old(Lookup(path)) != null {
          // Every segment already exists, so `get_child` finds it.
          WalkPrefix(k1, tree.root, done + [t.text], SegmentsFrom(path, t.saved));
        }
        var n := tree.GetChild(cur, t.text);
        if n != null {
          forall q | q in tree.Repr - old(tree.Repr)
            ensures OnPath(k1, tree.root, done + [t.text], q)
          {
            OnPathGrow(k1, k1, tree.root, done, t.text, q);
          }
          cur := n;
        } else {
          ghost var s1 := tree.shape;
          var m := tree.AddChild(cur, t.text);
          HangStep(s1, tree.root, cur, m, done, t.text);
          ExtendsTrans(old(tree.shape.kids), k1, tree.shape.kids);
          forall q | q in tree.Repr - old(tree.Repr)
            ensures OnPath(tree.shape.kids, tree.root, done + [t.text], q)
          {
            if q == m {
              OnPathLast(tree.shape.kids, tree.root, done + [t.text], m);
            } else {
              OnPathGrow(k1, tree.shape.kids, tree.root, done, t.text, q);
            }
          }
          cur := m;
        }
        done := done + [t.text];
        pos := t.saved;
        t := Strtok(path, pos);
      }
      assert done == Segments(path);
    }

    /**
     * `file_exists`: true for every path that resolves, so the root and directories
     * count as files too.
     */
    method FileExists(path: string) returns (b: bool)
      requires Valid()
      ensures b <==> Lookup(path) != null
    {
      var n := tree.GetNode(tree.root, path);
      b := n != null;
    }

    /** `dir_exists`: a directory is any node that has a child; there is no stored flag. */
    method DirExists(path: string) returns (b: bool)
      requires Valid()
      ensures b <==> Children(Lookup(path)) != []
    {
      var n := tree.GetNode(tree.root, path);
      if n == null {
        return false;
      }
      assert tree.shape.LinkOf(tree.root, n).child == Head(tree.shape.kids[n]);
      b := n.child != null;
    }

    /** `ffs_open`: any resolvable path may be opened, a directory included. */
    method Open(path: string) returns (res: int)
      requires Valid()
      ensures res == 0 || res == -ENOENT
      ensures res == 0 <==> Lookup(path) != null
    {
      var e := FileExists(path);
      if !e {
        return -ENOENT;
      }
      return 0;
    }

    /**
     * `ffs_getattr` on a `stat` buffer holding `st0`: -ENOENT, with the buffer left
     * alone, for a path that does not resolve; otherwise the buffer is filled for a
     * directory when the node has a child and for a read-only regular file sized to
     * its content when it has none.  The length of the path is taken before the lookup.
     */
    method Getattr(path: string, st0: Stat) returns (res: int, st: Stat)
      requires Valid()
      ensures res == 0 || res == -ENOENT
      ensures res == -ENOENT <==> Lookup(path) == null
      ensures res == -ENOENT ==> st == st0
      ensures res == 0 ==> st == Filled(st0, Lookup(path), path)
    {
      var pathLen := |path|;
      var n := tree.GetNode(tree.root, path);
      if n == null {
        return -ENOENT, st0;
      }
      assert tree.shape.LinkOf(tree.root, n).child == Head(tree.shape.kids[n]);
      if n.child != null {
        st := Stat(DirMode, st0.size);
      } else {
        st := Stat(FileMode, pathLen + |IsIn| + |listing|);
      }
      res := 0;
    }

    /**
     * Whatever the buffer held, filling it gives the type FUSE reports, and for a file
     * exactly the attributes FUSE reports.
     */
    lemma FilledAgrees(st0: Stat, n: Node, path: string)
      ensures Filled(st0, n, path).mode == AttrOf(n, path).mode
      ensures Children(n) == [] ==> Filled(st0, n, path) == AttrOf(n, path)
    {
    }

    /** What the `stat` buffer holds before entry `i` is filled. */
    static function BufferBefore(entries: seq<Entry>, stale: Stat, i: nat): Stat
      requires i <= |entries|
    {
      if i == 0 then stale else entries[i - 1].attr
    }

    /**
     * The entry `e` describes the child `c` of the directory `path`, when the `stat`
     * buffer held `prev` before: it carries the child's name, and the buffer as
     * `ffs_getattr` fills it for the child's own path, which resolves to the child.
     */
    ghost predicate Describes(e: Entry, c: Node, path: string, prev: Stat)
      reads tree
    {
      && e.name == c.name
      && Lookup(path + "/" + c.name) == c
      && e.attr == Filled(prev, c, path + "/" + c.name)
    }

    /** Every entry so far describes its child, the buffer carried over from the entry before. */
    ghost predicate DescribesAll(entries: seq<Entry>, ks: seq<Node>, path: string, stale: Stat)
      reads tree
    {
      && |entries| <= |ks|
      && forall j {:trigger ks[j]} :: 0 <= j < |entries| ==>
           Describes(entries[j], ks[j], path, BufferBefore(entries, stale, j))
    }

    lemma DescribesAppend(entries: seq<Entry>, ks: seq<Node>, path: string, stale: Stat, e: Entry)
      requires DescribesAll(entries, ks, path, stale) && |entries| < |ks|
      requires Describes(e, ks[|entries|], path, BufferBefore(entries, stale, |entries|))
      ensures DescribesAll(entries + [e], ks, path, stale)
    {
      var es := entries + [e];
      forall j | 0 <= j < |es|
        ensures Describes(es[j], ks[j], path, BufferBefore(es, stale, j))
      {
        var prev := BufferBefore(entries, stale, j);
        assert BufferBefore(es, stale, j) == prev;
        if j < |entries| {
          assert Describes(entries[j], ks[j], path, prev);
          assert es[j] == entries[j];
        } else {
          assert es[j] == e;
        }
      }
    }

    /**
     * `ffs_readdir`: -ENOTDIR unless the path resolves to a node with a child;
     * otherwise one entry per child, in sibling order, carrying the `stat` buffer
     * as `ffs_getattr` filled it for the child's own path.  The buffer is a local
     * that is never cleared: `stale` is what it holds before the first child, and a
     * directory child's entry keeps the size the buffer held before it.
     */
    method Readdir(path: string, stale: Stat) returns (res: int, entries: seq<Entry>)
      requires Valid()
      ensures res == 0 || res == -ENOTDIR
      ensures res == -ENOTDIR <==> Children(Lookup(path)) == []
      ensures res == -ENOTDIR ==> entries == []
      ensures res == 0 ==> |entries| == |Children(Lookup(path))|
      ensures res == 0 ==> forall i :: 0 <= i < |entries| ==>
                Describes(entries[i], Children(Lookup(path))[i], path, BufferBefore(entries, stale, i))
      ensures res == 0 ==> forall i :: 0 <= i < |entries| ==>
                entries[i].attr.mode == AttrOf(Children(Lookup(path))[i], path + "/" + entries[i].name).mode
      ensures res == 0 ==> forall i :: 0 <= i < |entries| && Children(Children(Lookup(path))[i]) == [] ==>
                entries[i].attr == AttrOf(Children(Lookup(path))[i], path + "/" + entries[i].name)
      ensures forall i, j :: 0 <= i < j < |entries| ==> entries[i].name != entries[j].name
    {
      var n := tree.GetNode(tree.root, path);
      if n == null {
        return -ENOTDIR, [];
      }
      ghost var ks := tree.shape.kids[n];
      assert tree.shape.LinkOf(tree.root, n).child == Head(ks);
      if n.child == null {
        return -ENOTDIR, [];
      }
      var c := n.child;
      var st := stale;
      ghost var i := 0;
      entries := [];
      while c != null
        invariant 0 <= i <= |ks| && c == (if i < |ks| then ks[i] else null)
        invariant |entries| == i && st == BufferBefore(entries, stale, i)
        invariant DescribesAll(entries, ks, path, stale)
        decreases |ks| - i
      {
        var filepath := path + "/" + c.name;
        ChildPathResolves(tree.shape.kids, tree.root, path, n, i);
        ghost var prev := st;
        var r;
        r, st := Getattr(filepath, st);
        DescribesAppend(entries, ks, path, stale, Entry(c.name, st));
        entries := entries + [Entry(c.name, st)];
        tree.SiblingNext(n, i);
        c := c.next;
        i := i + 1;
      }
      forall j | 0 <= j < |entries|
        ensures entries[j].attr.mode == AttrOf(ks[j], path + "/" + entries[j].name).mode
        ensures Children(ks[j]) == [] ==> entries[j].attr == AttrOf(ks[j], path + "/" + entries[j].name)
      {
        FilledAgrees(BufferBefore(entries, stale, j), ks[j], path + "/" + entries[j].name);
      }
      res := 0;
    }

    /** `memcpy(dst, src + from, count)`: the first `count` cells of `dst` receive the run. */
    static method Memcpy(dst: array<char>, src: string, from: nat, count: nat)
      requires from + count <= |src| && count <= dst.Length
      modifies dst
      ensures dst[..count] == src[from..from + count]
      ensures dst[count..] == old(dst[count..])
    {
      var j := 0;
      while j < count
        invariant 0 <= j <= count
        invariant forall k :: 0 <= k < j ==> dst[k] == src[from + k]
        invariant forall k :: j <= k < dst.Length ==> dst[k] == old(dst[k])
      {
        dst[j] := src[from + j];
        j := j + 1;
      }
    }

    /**
     * `ffs_read`: the content is built from the path before the lookup; then
     * -ENOENT for a path that does not resolve, otherwise at most `size` characters
     * of the content from `offset` on are copied to the front of `buf` and their
     * number returned.  Nothing past them is written.
     */
    method Read(path: string, buf: array<char>, size: nat, offset: int) returns (res: int)
      requires Valid()
      requires size <= buf.Length
      modifies buf
      ensures Lookup(path) == null ==> res == -ENOENT && buf[..] == old(buf[..])
      ensures Lookup(path) != null ==>
                0 <= res <= size &&
                buf[..res] == ReadSlice(Content(path, listing), offset, size) &&
                buf[res..] == old(buf[res..])
    {
      var data := path + IsIn + listing;
      var len := |data|;
      var e := FileExists(path);
      if !e {
        return -ENOENT;
      }
      var n := size;
      if 0 <= offset < len {
        if offset + n > len {
          n := len - offset;
        }
        Memcpy(buf, data, offset, n);
      } else {
        n := 0;
      }
      res := n;
    }

    /**
     * `ffs_getattr` and `ffs_read` agree on a file: the size reported is the length
     * of the content, so a read of that many characters from offset 0 yields the
     * whole content and a read from that offset yields nothing.
     */
    lemma SizeMatchesRead(path: string, n: nat)
      requires Lookup(path) != null && Children(Lookup(path)) == []
      ensures AttrOf(Lookup(path), path).mode == FileMode
      ensures ReadSlice(Content(path, listing), 0, AttrOf(Lookup(path), path).size) == Content(path, listing)
      ensures ReadSlice(Content(path, listing), AttrOf(Lookup(path), path).size, n) == []
    {
      ReadSliceWhole(Content(path, listing), |Content(path, listing)|);
    }

    /**
     * One pass of the loop of `parse_listing_file`: the line loses one trailing
     * newline and `create_entities` inserts it, read as a C string.  The reading
     * state since `k0` (and the nodes `r0`) gains the line's path and the new tree.
     */
    method InsertLine(line: string, ghost k0: map<Node, seq<Node>>, ghost r0: set<Node>,
                      ghost done: seq<string>, ghost steps: seq<map<Node, seq<Node>>>)
      requires Valid() && line != []
      requires ReadSoFar(k0, tree.shape.kids, tree.root, done, tree.Repr - r0, steps)
      modifies tree, tree.Repr
      ensures Valid() && fresh(tree.Repr - old(tree.Repr))
      ensures ReadSoFar(k0, tree.shape.kids, tree.root, done + [ListedPath(line)], tree.Repr - r0,
                        steps + [tree.shape.kids])
    {
      ghost var k1, r1 := tree.shape.kids, tree.Repr;
      var trimmed := TrimNewline(line);
      var path := CString(trimmed);
      CreateEntities(path);
      forall n, j | n in tree.shape.kids && 0 <= j < |tree.shape.kids[n]|
        ensures tree.shape.kids[n][j] in tree.shape.kids
      {
        assert tree.shape.kids[n][j] in tree.shape.parent;
      }
      LineInserted(k0, k1, tree.shape.kids, r0, r1, tree.Repr, tree.root, steps, done, path);
    }

    /**
     * `parse_listing_file` without the file: each line loses one trailing newline
     * and is inserted up to its first NUL, as `create_entities` reads it as a C
     * string.  The lines are inserted one after another, in order: `steps` holds
     * the children map before each line and after the last, and line `i` takes
     * `steps[i]` to `steps[i + 1]`.  Afterwards every listed path resolves, and
     * every node that was added lies on one of the listed paths.
     */
    method ParseListing(lines: seq<string>) returns (ghost steps: seq<map<Node, seq<Node>>>)
      requires Valid()
      requires forall i :: 0 <= i < |lines| ==> lines[i] != []
      modifies tree, tree.Repr
      ensures Valid() && fresh(tree.Repr - old(tree.Repr))
      ensures Extends(old(tree.shape.kids), tree.shape.kids)
      ensures forall i :: 0 <= i < |lines| ==> Lookup(ListedPath(lines[i])) != null
      ensures forall m :: m in tree.Repr - old(tree.Repr) ==>
                exists i :: 0 <= i < |lines| && OnPath(tree.shape.kids, tree.root, Segments(ListedPath(lines[i])), m)
      ensures |steps| == |lines| + 1
      ensures steps[0] == old(tree.shape.kids) && steps[|lines|] == tree.shape.kids
      ensures forall i {:trigger lines[i]} :: 0 <= i < |lines| ==>
                Inserted(steps[i], steps[i + 1], tree.root, ListedPath(lines[i]))
    {
      var i := 0;
      ghost var done: seq<string> := [];
      steps := [tree.shape.kids];
      while i < |lines|
        invariant fresh(tree.Repr - old(tree.Repr))
        invariant 0 <= i <= |lines| && |done| == i && ListedPrefix(done, lines)
        invariant Valid()
        invariant ReadSoFar(old(tree.shape.kids), tree.shape.kids, tree.root, done, tree.Repr - old(tree.Repr), steps)
      {
        InsertLine(lines[i], old(tree.shape.kids), old(tree.Repr), done, steps);
        steps := steps + [tree.shape.kids];
        AppendPointwise(done, lines);
        done := done + [ListedPath(lines[i])];
        i := i + 1;
      }
      ListingRead(old(tree.shape.kids), tree.shape.kids, tree.root, done, lines, tree.Repr - old(tree.Repr), steps);
    }
  }

  /**
   * The path `ffs_readdir` hands to `ffs_getattr` for the child `name` of `path`, as
   * written: `get_node` has already cut the caller's `path` after its first segment
   * (see `AfterStrtok`), and the child's path is built from what is left.
   */
  function ReaddirStatPathAsWritten(path: string, name: string): (p: string)
    ensures Segments(p) == (if Segments(path) == [] then [] else [Segments(path)[0]]) + Segments(name)
  {
    AfterStrtokFirstSegment(path);
    SegmentsJoin(AfterStrtok(path), name);
    AfterStrtok(path) + "/" + name
  }

  /**
   * As written, the path whose attributes are reported for a child keeps only the
   * first segment of the directory's path: below the first level it names another node.
   */
  lemma ReaddirStatPathLosesSegments(path: string, name: string)
    requires Segments(path) != [] && IsSegment(name)
    ensures Segments(ReaddirStatPathAsWritten(path, name)) == [Segments(path)[0], name]
  {
    SegmentsOfSegment(name);
  }

  /**
   * In a hand-built tree of the shape the listing "/a/c/e.dat" gives, listing the directory
   * "/a/c" as written asks for the attributes of "/a/e.dat", which does not resolve,
   * so `ffs_getattr` fails and the entry for "e.dat" is filled with whatever the
   * attribute buffer held.  The intended path "/a/c/e.dat" resolves to the child.
   */
  lemma ReaddirStatPathCounterexample(root: Node, a: Node, c: Node, e: Node)
    requires root.name == "/" && a.name == "a" && c.name == "c" && e.name == "e.dat"
    ensures UniqueSiblings(ExampleKids(root, a, c, e)) && SegmentNames(ExampleKids(root, a, c, e))
    ensures Walk(ExampleKids(root, a, c, e), root, Segments("/a/c")) == c
    ensures ExampleKids(root, a, c, e)[c] == [e]
    ensures Walk(ExampleKids(root, a, c, e), root, Segments("/a/c" + "/" + e.name)) == e
    ensures Walk(ExampleKids(root, a, c, e), root, Segments(ReaddirStatPathAsWritten("/a/c", e.name))) == null
  {
    var k := ExampleKids(root, a, c, e);
    ExampleKidsShape(root, a, c, e);
    WalkOne(k, root, a, "a");
    WalkOne(k, a, c, "c");
    WalkOne(k, c, e, "e.dat");
    assert Child(k, a, "e.dat") == null;
    SlashAC();
    SegmentsOfSegment("e.dat");
    SegmentsJoin("/a/c", "e.dat");
    assert Segments("/a/c" + "/" + e.name) == ["a", "c"] + ["e.dat"];
    WalkThree(k, root, "a", "c", "e.dat");
    ReaddirStatPathLosesSegments("/a/c", "e.dat");
    WalkTwo(k, root, "a", "e.dat");
    WalkTwo(k, root, "a", "c");
  }

  /**
   * A hand-built children map of the shape the listing line "/a/c/e.dat" gives:
   * the chain "/", "a", "c", "e.dat" of single children.
   */
  ghost function ExampleKids(root: Node, a: Node, c: Node, e: Node): map<Node, seq<Node>> {
    map[root := [a], a := [c], c := [e], e := []]
  }

  /** With distinct names, the example is a chain root, a, c, e of single children. */
  lemma ExampleKidsShape(root: Node, a: Node, c: Node, e: Node)
    requires root.name == "/" && a.name == "a" && c.name == "c" && e.name == "e.dat"
    ensures var k := ExampleKids(root, a, c, e);
      && k.Keys == {root, a, c, e}
      && k[root] == [a] && k[a] == [c] && k[c] == [e] && k[e] == []
      && UniqueSiblings(k) && SegmentNames(k)
  {
    var k: map<Node, seq<Node>> := ExampleKids(root, a, c, e);
    assert root != a && root != c && root != e && a != c && a != e && c != e;
    assert IsSegment("a") && IsSegment("c") && IsSegment("e.dat");
    forall p: Node, i: int | p in k && 0 <= i < |k[p]|
      ensures IsSegment(k[p][i].name)
    {
      assert p == root || p == a || p == c;
    }
  }

  /** The segments of "/a/c". */
  /** "/u/v" for two one-character names segments to those names, and is its own C string. */
  lemma SlashTwo(s: string)
    requires |s| == 4 && s[0] == '/' && s[2] == '/'
    requires s[1] !in "/\0" && s[3] !in "/\0\n"
    ensures ListedPath(s) == s
    ensures Segments(s) == [[s[1]], [s[3]]]
  {
    assert TrimNewline(s) == s;
    assert CString(s[4..]) == [];
    assert CString(s[3..]) == s[3..];
    assert CString(s[2..]) == s[2..];
    assert CString(s[1..]) == s[1..];
    assert SkipSlashes(s, 0) == 1 && TokenEnd(s, 1) == 2;
    assert Strtok(s, 0) == Tok([s[1]], 3);
    assert SkipSlashes(s, 3) == 3 && TokenEnd(s, 3) == 4;
    assert Strtok(s, 3) == Tok([s[3]], 4);
    assert Strtok(s, 4) == End;
    assert SegmentsFrom(s, 4) == [];
    assert SegmentsFrom(s, 3) == [[s[3]]];
    assert SegmentsFrom(s, 0) == [[s[1]], [s[3]]];
  }

  lemma SlashAC()
    ensures Segments("/a/c") == ["a", "c"]
  {
    var s := "/a/c";
    assert SkipSlashes(s, 0) == 1 && TokenEnd(s, 1) == 2;
    assert Strtok(s, 0) == Tok("a", 3);
    assert SkipSlashes(s, 3) == 3 && TokenEnd(s, 3) == 4;
    assert Strtok(s, 3) == Tok("c", 4);
    assert Strtok(s, 4) == End;
  }

  /** The child named `x` of a node with the single child `m`. */
  lemma WalkOne(k: map<Node, seq<Node>>, n: Node, m: Node, x: string)
    requires n in k && k[n] == [m] && m.name == x
    ensures Child(k, n, x) == m
  {
    assert Position(k[n], x) == 0;
  }

  /** Resolving two segments. */
  lemma WalkTwo(k: map<Node, seq<Node>>, n: Node?, x: string, y: string)
    ensures Walk(k, n, [x, y]) == Child(k, Child(k, n, x), y)
  {
    assert [x, y][1..] == [y];
    assert [y][1..] == [];
    assert Walk(k, Child(k, n, x), [y]) == Walk(k, Child(k, Child(k, n, x), y), []);
  }

  /** A two-segment path that resolves passes through a child of `n` that lists the node it reaches. */
  lemma WalkTwoFound(k: map<Node, seq<Node>>, n: Node, x: string, y: string) returns (a: Node, b: Node)
    requires Walk(k, n, [x, y]) != null
    ensures a == Walk(k, n, [x]) && b == Walk(k, n, [x, y])
    ensures a in k && b in k[a] && b.name == y
  {
    WalkTwo(k, n, x, y);
    assert Walk(k, n, [x]) == Walk(k, Child(k, n, x), []);
    a, b := Child(k, n, x), Child(k, Child(k, n, x), y);
  }

  /** Resolving three segments. */
  lemma WalkThree(k: map<Node, seq<Node>>, n: Node?, x: string, y: string, z: string)
    ensures Walk(k, n, [x, y, z]) == Child(k, Child(k, Child(k, n, x), y), z)
  {
    assert [x, y, z][1..] == [y, z];
    WalkTwo(k, Child(k, n, x), y, z);
  }
}

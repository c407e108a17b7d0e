/**
 * The n-ary tree of n_tree.c / n_tree.h.  Each node has a name and two links:
 * `child` (head of its children) and `next` (next sibling on the same level).
 * The root has no sibling; the children of a node form a NULL-terminated `next`
 * chain headed by that node's `child`.
 *
 * A `Tree` owns the nodes reachable from `root`.  Its ghost map `kids` gives,
 * for each node, its children in sibling order; `Valid()` ties the `child` and
 * `next` fields to that map and states the tree shape (one parent per node,
 * depth growing along `child` links).  `FirstNamed`, `Child` and `Walk` are the
 * specification of lookup and path resolution over `kids`.
 */
module NTree {
  import opened Paths

  /** `struct node`: a name and exactly two links. */
  class Node {
    const name: string
    var child: Node?
    var next: Node?

    /** `new_node(data)`: a fresh node named `data`, with neither child nor sibling. */
    constructor (data: string)
      ensures name == data && child == null && next == null
    {
      name := data;
      child := null;
      next := null;
    }
  }

  /** The position of the first node in `ks` named `s`, or `|ks|` if there is none. */
  function Position(ks: seq<Node>, s: string): (i: nat)
    ensures i <= |ks|
    ensures forall j :: 0 <= j < i ==> ks[j].name != s
    ensures i < |ks| ==> ks[i].name == s
  {
    if ks == [] then 0
    else if ks[0].name == s then 0
    else 1 + Position(ks[1..], s)
  }

  /** The first node in `ks` whose name equals `s` exactly, or null. */
  function FirstNamed(ks: seq<Node>, s: string): (r: Node?)
    ensures r == null <==> forall j :: 0 <= j < |ks| ==> ks[j].name != s
    ensures r != null ==> r in ks && r.name == s
  {
    var i := Position(ks, s);
    if i < |ks| then ks[i] else null
  }

  /** The child of `n` named `s` in the children map `k` (null for a null or unknown node). */
  function Child(k: map<Node, seq<Node>>, n: Node?, s: string): (r: Node?)
    ensures r != null <==> n != null && n in k && exists j :: 0 <= j < |k[n]| && k[n][j].name == s
    ensures r != null ==> r in k[n] && r.name == s
  {
    if n == null || n !in k then null else FirstNamed(k[n], s)
  }

  /** Path resolution: follow children by name, one segment at a time. */
  function Walk(k: map<Node, seq<Node>>, n: Node?, segs: seq<string>): (r: Node?)
    ensures segs == [] ==> r == n
    ensures segs != [] && r != null ==> r.name == segs[|segs| - 1] && exists p :: p in k && r in k[p]
  {
    if segs == [] then n else Walk(k, Child(k, n, segs[0]), segs[1..])
  }

  /** The successor of position `i` on a sibling chain: the next element, or NULL at the end. */
  function NextIn(ks: seq<Node>, i: nat): Node?
    requires i < |ks|
  {
    if i + 1 < |ks| then ks[i + 1] else null
  }

  /** `k2` grows `k1`: no node lost, every child list extended at its end only. */
  ghost predicate Extends(k1: map<Node, seq<Node>>, k2: map<Node, seq<Node>>) {
    forall n :: n in k1 ==> n in k2 && k1[n] <= k2[n]
  }

  /** No two siblings share a name. */
  ghost predicate UniqueSiblings(k: map<Node, seq<Node>>) {
    forall p, i, j :: p in k && 0 <= i < j < |k[p]| ==> k[p][i].name != k[p][j].name
  }

  /** Every child is named by a path segment. */
  ghost predicate SegmentNames(k: map<Node, seq<Node>>) {
    forall p, i :: p in k && 0 <= i < |k[p]| ==> IsSegment(k[p][i].name)
  }

  lemma FirstNamedPrefix(a: seq<Node>, b: seq<Node>, s: string)
    requires FirstNamed(a, s) != null
    ensures FirstNamed(a + b, s) == FirstNamed(a, s)
  {
    var i := Position(a, s);
    assert forall j :: 0 <= j < |a| ==> (a + b)[j] == a[j];
    assert (a + b)[i] == a[i];
  }

  lemma FirstNamedAppend(a: seq<Node>, x: Node, s: string)
    requires FirstNamed(a, s) == null && x.name == s
    ensures FirstNamed(a + [x], s) == x
  {
    assert forall j :: 0 <= j < |a| ==> (a + [x])[j] == a[j];
    assert (a + [x])[|a|] == x;
  }

  lemma FirstNamedUnique(ks: seq<Node>, i: nat)
    requires i < |ks|
    requires forall a, b :: 0 <= a < b < |ks| ==> ks[a].name != ks[b].name
    ensures FirstNamed(ks, ks[i].name) == ks[i]
  {
    var j := Position(ks, ks[i].name);
  }

  lemma {:induction false} WalkNull(k: map<Node, seq<Node>>, q: seq<string>)
    ensures Walk(k, null, q) == null
  {
    if q != [] {
      WalkNull(k, q[1..]);
    }
  }

  /** Resolving `a + b` is resolving `a`, then `b` from there. */
  lemma {:induction false} WalkAppend(k: map<Node, seq<Node>>, n: Node?, a: seq<string>, b: seq<string>)
    ensures Walk(k, n, a + b) == Walk(k, Walk(k, n, a), b)
  {
    if a != [] {
      assert (a + b)[0] == a[0];
      assert (a + b)[1..] == a[1..] + b;
      WalkAppend(k, Child(k, n, a[0]), a[1..], b);
    } else {
      assert a + b == b;
    }
  }

  /** A resolvable path has resolvable prefixes. */
  lemma WalkPrefix(k: map<Node, seq<Node>>, n: Node?, a: seq<string>, b: seq<string>)
    requires Walk(k, n, a + b) != null
    ensures Walk(k, n, a) != null
  {
    WalkAppend(k, n, a, b);
    if Walk(k, n, a) == null {
      WalkNull(k, b);
    }
  }

  /** Growing the tree never changes where an already resolvable path leads. */
  lemma {:induction false} WalkExtends(k1: map<Node, seq<Node>>, k2: map<Node, seq<Node>>, n: Node?, q: seq<string>)
    requires Extends(k1, k2)
    requires Walk(k1, n, q) != null
    ensures Walk(k2, n, q) == Walk(k1, n, q)
  {
    if q != [] {
      var c := Child(k1, n, q[0]);
      if c == null {
        WalkNull(k1, q[1..]);
      } else {
        FirstNamedPrefix(k1[n], k2[n][|k1[n]|..], q[0]);
        assert k1[n] + k2[n][|k1[n]|..] == k2[n];
        WalkExtends(k1, k2, c, q[1..]);
      }
    }
  }

  /** The two links of one node, as a value. */
  datatype Link = Link(child: Node?, next: Node?)

  /** The head of a sibling chain: its first node, or NULL for an empty chain. */
  function Head(ks: seq<Node>): Node? {
    if ks == [] then null else ks[0]
  }

  /**
   * The ghost shape of a tree: each node's children in sibling order, and each
   * non-root node's owner, its position in the owner's list and its depth.
   */
  datatype Shape = Shape(kids: map<Node, seq<Node>>, parent: map<Node, Node>,
                         pos: map<Node, nat>, depth: map<Node, nat>)
  {
    /**
     * Ownership: every listed child is owned by the list's node, sits at one
     * position of that list and is one level deeper; every owned node but the
     * root has such an owner.
     */
    ghost predicate Owns(root: Node) {
      && depth.Keys == kids.Keys
      && parent.Keys == kids.Keys - {root} && pos.Keys == kids.Keys - {root}
      && root in kids && depth[root] == 0
      && (forall p, i :: p in kids && 0 <= i < |kids[p]| ==>
            kids[p][i] in parent && parent[kids[p][i]] == p && pos[kids[p][i]] == i)
      && (forall c {:trigger parent[c]} :: c in parent ==>
            parent[c] in kids && pos[c] < |kids[parent[c]]| && kids[parent[c]][pos[c]] == c &&
            depth[c] == depth[parent[c]] + 1)
    }

    /** The shape after `r` is appended to the children of `p`, with no children itself. */
    ghost function Hang(p: Node, r: Node): Shape
      requires p in kids && p in depth
    {
      Shape(kids[p := kids[p] + [r]][r := []], parent[r := p], pos[r := |kids[p]|], depth[r := depth[p] + 1])
    }

    /**
     * The links the shape prescribes for node `c`: `child` heads its child list and
     * `next` is the following node of its owner's list (NULL at the end, and for the root).
     */
    ghost function LinkOf(root: Node, c: Node): Link
      requires Owns(root) && c in kids
    {
      Link(Head(kids[c]), if c == root then null else NextIn(kids[parent[c]], pos[c]))
    }
  }

  /** Appending a new node to the child list of `p` keeps ownership. */
  lemma HangOwns(s: Shape, root: Node, p: Node, r: Node)
    requires s.Owns(root)
    requires p in s.kids && r !in s.kids
    ensures s.Hang(p, r).Owns(root)
  {
    var t := s.Hang(p, r);
    forall q, i | q in t.kids && 0 <= i < |t.kids[q]|
      ensures t.kids[q][i] in t.parent && t.parent[t.kids[q][i]] == q && t.pos[t.kids[q][i]] == i
    {
      if q == p && i == |s.kids[p]| {
        assert t.kids[q][i] == r;
      } else {
        assert t.kids[q][i] == s.kids[q][i];
        assert s.kids[q][i] in s.kids;
      }
    }
    forall c {:trigger t.parent[c]} | c in t.parent
      ensures t.parent[c] in t.kids && t.pos[c] < |t.kids[t.parent[c]]| && t.kids[t.parent[c]][t.pos[c]] == c
      ensures t.depth[c] == t.depth[t.parent[c]] + 1
    {
      if c == r {
        assert t.kids[p][|s.kids[p]|] == r;
      } else {
        assert t.kids[s.parent[c]][s.pos[c]] == c;
      }
    }
  }

  /**
   * Hanging `r` below `p` changes the prescribed links of two nodes only: `r` has
   * none, and the new node becomes `p`'s `child` if `p` had no children, and
   * otherwise the `next` of `p`'s last child.
   */
  lemma HangLinks(s: Shape, root: Node, p: Node, r: Node, c: Node)
    requires s.Owns(root) && p in s.kids && r !in s.kids && (c in s.kids || c == r)
    requires s.Hang(p, r).Owns(root)
    ensures s.Hang(p, r).LinkOf(root, c) ==
      if c == r then Link(null, null)
      else if c == p && s.kids[p] == [] then Link(r, s.LinkOf(root, c).next)
      else if s.kids[p] != [] && c == s.kids[p][|s.kids[p]| - 1] then Link(s.LinkOf(root, c).child, r)
      else s.LinkOf(root, c)
  {
    var t := s.Hang(p, r);
    if c != r {
      if s.kids[p] != [] {
        assert t.kids[p][0] == s.kids[p][0];
        assert t.kids[p][|s.kids[p]|] == r;
      }
      if c != root && s.parent[c] == p && s.pos[c] + 1 < |s.kids[p]| {
        assert t.kids[p][s.pos[c] + 1] == s.kids[p][s.pos[c] + 1];
      }
    }
  }

  /**
   * Hanging `m` as the only child of `p` by setting `p.child` keeps the tree valid.
   * (`p` and `m` are `new` parameters so that only `t` needs to be allocated before:
   * the shape and links `p` had then are read through `old(t.shape)`.)
   */
  twostate lemma HangFirstValid(t: Tree, new p: Node, new m: Node)
    requires old(t.Valid())
    requires p in old(t.Repr) && m !in old(t.Repr) && old(t.shape).kids[p] == []
    requires t.Repr == old(t.Repr) + {m} && t.shape == old(t.shape).Hang(p, m)
    requires m.child == null && m.next == null
    requires p.child == m && p.next == old(t.shape).LinkOf(t.root, p).next
    requires unchanged(old(t.Repr) - {p})
    ensures t.Valid()
  {
    HangOwns(old(t.shape), t.root, p, m);
    forall c | c in t.Repr
      ensures Link(c.child, c.next) == t.shape.LinkOf(t.root, c)
    {
      HangLinks(old(t.shape), t.root, p, m, c);
    }
  }

  /** Hanging `m` after `last`, the last child of `p`, by setting `last.next` keeps the tree valid. */
  twostate lemma HangLastValid(t: Tree, new p: Node, new last: Node, new m: Node)
    requires old(t.Valid())
    requires p in old(t.Repr) && m !in old(t.Repr)
    requires old(t.shape).kids[p] != [] && last == old(t.shape).kids[p][|old(t.shape).kids[p]| - 1]
    requires t.Repr == old(t.Repr) + {m} && t.shape == old(t.shape).Hang(p, m)
    requires m.child == null && m.next == null
    requires last.next == m && last.child == old(t.shape).LinkOf(t.root, last).child
    requires unchanged(old(t.Repr) - {last})
    ensures t.Valid()
  {
    HangOwns(old(t.shape), t.root, p, m);
    forall c | c in t.Repr
      ensures Link(c.child, c.next) == t.shape.LinkOf(t.root, c)
    {
      HangLinks(old(t.shape), t.root, p, m, c);
    }
  }

  /** The namespace tree: the root node and the nodes it owns. */
  class Tree {
    const root: Node
    ghost var Repr: set<Node>
    ghost var shape: Shape

    /** Every owned node's `child` and `next` are the links its shape prescribes. */
    ghost predicate Valid()
      reads this, Repr
    {
      && shape.Owns(root) && shape.kids.Keys == Repr
      && forall c {:trigger shape.LinkOf(root, c)} :: c in Repr ==> Link(c.child, c.next) == shape.LinkOf(root, c)
    }

    /** A tree holding only a root named `rootName`. */
    constructor (rootName: string)
      ensures Valid() && fresh(Repr)
      ensures root.name == rootName && Repr == {root} && shape.kids == map[root := []]
    {
      var r := new Node(rootName);
      root := r;
      Repr, shape := {r}, Shape(map[r := []], map[], map[], map[r := 0]);
    }

    /**
     * `add_sibling(n, data)`: walk to the end of `n`'s sibling chain and hang a new
     * node there.  The root has no siblings, so `n` is never the root.
     */
    method AddSibling(n: Node?, s: string) returns (r: Node?)
      requires Valid()
      requires n == null || (n in Repr && n != root)
      modifies this, Repr
      ensures Valid() && fresh(Repr - old(Repr))
      ensures n == null ==> r == null && unchanged(this) && unchanged(Repr)
      ensures n != null ==> r != null && fresh(r) && r.name == s && Repr == old(Repr) + {r}
      ensures n != null ==> shape == old(shape).Hang(old(shape).parent[n], r)
    {
      if n == null {
        return null;
      }
      ghost var p, i := shape.parent[n], shape.pos[n];
      var cur := n;
      while cur.next != null
        invariant 0 <= i < |shape.kids[p]| && cur == shape.kids[p][i]
        decreases |shape.kids[p]| - i
      {
        assert shape.LinkOf(root, cur).next == NextIn(shape.kids[p], i);
        cur := cur.next;
        i := i + 1;
      }
      assert shape.LinkOf(root, cur) == Link(cur.child, null);
      assert i == |shape.kids[p]| - 1;
      var m := new Node(s);
      cur.next, Repr, shape := m, Repr + {m}, shape.Hang(p, m);
      HangLastValid(this, p, cur, m);
      r := m;
    }

    /**
     * `add_child(n, data)`: a new node that becomes `n`'s first child if it had
     * none, and otherwise its last child.
     */
    method AddChild(n: Node?, s: string) returns (r: Node?)
      requires Valid()
      requires n == null || n in Repr
      modifies this, Repr
      ensures Valid() && fresh(Repr - old(Repr))
      ensures n == null ==> r == null && unchanged(this) && unchanged(Repr)
      ensures n != null ==> r != null && fresh(r) && r.name == s && Repr == old(Repr) + {r}
      ensures n != null ==> shape == old(shape).Hang(n, r)
    {
      if n == null {
        return null;
      }
      assert shape.LinkOf(root, n).child == Head(shape.kids[n]);
      if n.child != null {
        assert shape.parent[n.child] == n;
        r := AddSibling(n.child, s);
      } else {
        var m := new Node(s);
        n.child, Repr, shape := m, Repr + {m}, shape.Hang(n, m);
        HangFirstValid(this, n, m);
        r := m;
      }
    }

    /** `get_child(n, data)`: the first child of `n`, in sibling order, named `data`. */
    method GetChild(n: Node?, s: string) returns (r: Node?)
      requires Valid()
      requires n == null || n in Repr
      ensures r == Child(shape.kids, n, s)
      ensures r != null ==> r in Repr && r.name == s
    {
      if n == null {
        return null;
      }
      ghost var ks := shape.kids[n];
      assert shape.LinkOf(root, n).child == Head(ks);
      if n.child == null {
        return null;
      }
      var cur := n.child;
      ghost var i := 0;
      while cur != null
        invariant 0 <= i <= |ks|
        invariant cur == (if i < |ks| then ks[i] else null)
        invariant forall j :: 0 <= j < i ==> ks[j].name != s
        decreases |ks| - i
      {
        if cur.name == s {
          return cur;
        }
        assert shape.LinkOf(root, cur).next == NextIn(ks, i);
        cur := cur.next;
        i := i + 1;
      }
      return null;
    }

    /**
     * `get_node(root, path)`: tokenise `path` on '/' and follow the named child for
     * each token; NULL as soon as one is missing, `start` itself for no token.
     */
    method GetNode(start: Node?, path: string) returns (r: Node?)
      requires Valid()
      requires start == null || start in Repr
      ensures r == Walk(shape.kids, start, Segments(path))
      ensures r != null ==> r in Repr
    {
      var cur := start;
      var pos := 0;
      var t := Strtok(path, pos);
      while t.Tok?
        invariant pos <= |path| && t == Strtok(path, pos)
        invariant cur == null || cur in Repr
        invariant Walk(shape.kids, cur, SegmentsFrom(path, pos)) == Walk(shape.kids, start, Segments(path))
        decreases |path| - pos
      {
        cur := GetChild(cur, t.text);
        if cur == null {
          WalkNull(shape.kids, SegmentsFrom(path, t.saved));
          return null;
        }
        pos := t.saved;
        t := Strtok(path, pos);
      }
      r := cur;
    }

    /** The node reached from `c` by following `steps` `next` links. */
    ghost function Follow(c: Node?, steps: nat): Node?
      reads this, Repr
    {
      if steps == 0 || c == null || c !in Repr then c else Follow(c.next, steps - 1)
    }

    /** The `next` link of the i-th child of `p` is the (i+1)-th child, or NULL after the last. */
    lemma SiblingNext(p: Node, i: nat)
      requires Valid() && p in Repr && i < |shape.kids[p]|
      ensures shape.kids[p][i].next == NextIn(shape.kids[p], i)
    {
      assert shape.LinkOf(root, shape.kids[p][i]).next == NextIn(shape.kids[p], i);
    }

    lemma {:induction false} FollowSiblings(p: Node, i: nat, m: nat)
      requires Valid() && p in Repr
      requires i < |shape.kids[p]| && i + m <= |shape.kids[p]|
      ensures Follow(shape.kids[p][i], m) == if i + m < |shape.kids[p]| then shape.kids[p][i + m] else null
      decreases m
    {
      if m > 0 {
        SiblingNext(p, i);
        if i + 1 < |shape.kids[p]| {
          FollowSiblings(p, i + 1, m - 1);
        }
      }
    }

    /**
     * The children of `p` are exactly the nodes on the `next` chain that starts at
     * `p.child`, in chain order, and that chain reaches NULL right after them.
     */
    lemma ChildrenAreChain(p: Node)
      requires Valid() && p in Repr
      ensures forall i :: 0 <= i < |shape.kids[p]| ==> Follow(p.child, i) == shape.kids[p][i]
      ensures Follow(p.child, |shape.kids[p]|) == null
    {
      assert shape.LinkOf(root, p).child == Head(shape.kids[p]);
      forall i | 0 <= i < |shape.kids[p]|
        ensures Follow(p.child, i) == shape.kids[p][i]
      {
        FollowSiblings(p, 0, i);
      }
      if shape.kids[p] != [] {
        FollowSiblings(p, 0, |shape.kids[p]|);
      }
    }

    /** A `child` link goes to the first child, one level down. */
    lemma ChildLink(m: Node)
      requires Valid() && m in Repr && m.child != null
      ensures m.child in shape.parent && shape.parent[m.child] == m && shape.pos[m.child] == 0
      ensures shape.depth[m.child] == shape.depth[m] + 1
    {
      assert shape.LinkOf(root, m).child == Head(shape.kids[m]);
    }

    /** A `next` link goes to the following sibling, on the same level. */
    lemma NextLink(m: Node)
      requires Valid() && m in Repr && m.next != null
      ensures m != root && m.next in shape.parent
      ensures shape.parent[m.next] == shape.parent[m] && shape.pos[m.next] == shape.pos[m] + 1
      ensures shape.depth[m.next] == shape.depth[m]
    {
      assert shape.LinkOf(root, m).next == m.next;
      var q := shape.parent[m];
      assert shape.kids[q][shape.pos[m]] == m;
      assert NextIn(shape.kids[q], shape.pos[m]) == m.next;
    }

    /**
     * The structure is a tree: the root is the target of no link, and every other
     * node of exactly one `child` or `next` link.
     */
    lemma OneIncomingLink(c: Node)
      requires Valid() && c in Repr
      ensures c == root <==> forall m :: m in Repr ==> m.child != c && m.next != c
      ensures forall m1, m2 :: m1 in Repr && m2 in Repr &&
                (m1.child == c || m1.next == c) && (m2.child == c || m2.next == c)
                ==> m1 == m2 && !(m1.child == c && m1.next == c)
    {
      forall m | m in Repr && m.child == c
        ensures c != root && shape.parent[c] == m && shape.pos[c] == 0
      {
        ChildLink(m);
      }
      forall m | m in Repr && m.next == c
        ensures m != root && c != root && shape.parent[c] == shape.parent[m] && shape.pos[c] == shape.pos[m] + 1
      {
        NextLink(m);
      }
      if c != root {
        var p := shape.parent[c];
        if shape.pos[c] == 0 {
          assert shape.LinkOf(root, p).child == Head(shape.kids[p]);
          assert p.child == c;
        } else {
          var b := shape.kids[p][shape.pos[c] - 1];
          assert shape.LinkOf(root, b).next == NextIn(shape.kids[p], shape.pos[c] - 1) == c;
        }
      }
      forall m1, m2 | m1 in Repr && m2 in Repr && (m1.child == c || m1.next == c) && (m2.child == c || m2.next == c)
        ensures m1 == m2
      {
        if m1.next == c && m2.next == c {
          var q := shape.parent[c];
          assert shape.kids[q][shape.pos[m1]] == m1 && shape.kids[q][shape.pos[m2]] == m2;
        }
      }
    }
  }
}

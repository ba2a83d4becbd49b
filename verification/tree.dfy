/** The linked trees of cutils/tree.h: what the inserts build, and a preorder walk
    without a stack. */
module Tree {
  import opened Seqs
  import opened TreeShape

  ghost predicate SiblingsLinked(ks: seq<Node>)
    reads ks
  {
    && (forall i, j :: 0 <= i < j < |ks| && j == i + 1 ==> ks[i].right == ks[j] && ks[j].left == ks[i])
    && (ks != [] ==> ks[0].left == null && ks[|ks| - 1].right == null)
  }

  ghost predicate ParentLinked(n: Node, ks: seq<Node>, parent: Node?)
    reads n
  {
    && n.parent == parent
    && n.first == (if ks == [] then null else ks[0])
    && n.last == (if ks == [] then null else ks[|ks| - 1])
  }

  ghost function ParentOf(s: Shape, n: Node): Node? {
    if n in s.up then s.up[n] else null
  }

  ghost predicate NodeLinked(s: Shape, n: Node)
    requires s.Wf() && n in s.kids
    reads s.kids.Keys
  {
    s.KidsIn(n);
    SiblingsLinked(s.kids[n]) && ParentLinked(n, s.kids[n], ParentOf(s, n))
  }

  /** The pointers say what the shape says. */
  ghost predicate Linked(s: Shape)
    reads s.kids.Keys
  {
    && s.Wf() && s.root in s.kids && s.root.left == null && s.root.right == null
    && (forall n :: n in s.kids ==> NodeLinked(s, n))
  }

  /** The same of a tree whose root may stand anywhere. */
  ghost predicate NodeHangs(s: Shape, n: Node)
    requires s.Wf() && n in s.kids
    reads s.kids.Keys
  {
    s.KidsIn(n);
    SiblingsLinked(s.kids[n]) && ParentLinked(n, s.kids[n], if n in s.up then s.up[n] else n.parent)
  }

  ghost predicate Hangs(s: Shape)
    reads s.kids.Keys
  {
    s.Wf() && forall n :: n in s.kids ==> NodeHangs(s, n)
  }

  lemma Neighbours(s: Shape, n: Node)
    requires Linked(s) && n in s.up
    ensures s.up[n] == n.parent && s.up[n] in s.kids && ParentLinked(s.up[n], s.kids[s.up[n]], s.up[n].parent)
    ensures forall k :: k in s.kids[s.up[n]] ==> k in s.kids
    ensures forall i, j :: 0 <= i < j < |s.kids[s.up[n]]| ==> s.kids[s.up[n]][i] != s.kids[s.up[n]][j]
    ensures n in s.kids && s.up[n] in s.kids && n in s.kids[s.up[n]] && n != s.root
    ensures var ks := s.kids[s.up[n]]; var i := IndexOf(ks, n);
            && n.right == (if i + 1 < |ks| then ks[i + 1] else null)
            && n.left == (if i > 0 then ks[i - 1] else null)
  {
    s.Kid(n);
    var ks := s.kids[s.up[n]];
    var i := IndexOf(ks, n);
    s.KidsIn(s.up[n]);
    assert NodeLinked(s, n);
    assert NodeLinked(s, s.up[n]);
    assert i > 0 ==> ks[i - 1].right == ks[i];
  }

  lemma DownFrom(s: Shape, n: Node)
    requires Linked(s) && n in s.kids
    ensures n.first == null ==> s.Todo(n) == s.Rest(n)
    ensures n.first != null ==> n.first in s.kids && s.Todo(n) == [n.first] + s.Todo(n.first)
  {
    s.InUp(n);
    assert NodeLinked(s, n);
    hide Linked, s.Wf, s.Level, s.Todo, s.PreAll;
    if n.first == null {
      DownFromLeaf(s, n);
    } else {
      s.NextDown(n);
    }
  }

  lemma DownFromLeaf(s: Shape, n: Node)
    requires s.Wf() && n in s.kids && s.kids[n] == []
    ensures s.Todo(n) == s.Rest(n)
  {
    hide s.Wf, s.Level;
    s.InUp(n);
    s.NoneLeft(s.depth[n] + 1);
  }

  lemma RightOf(s: Shape, n: Node)
    requires Linked(s) && n in s.kids && n.right != null
    ensures n.right in s.kids && s.Rest(n) == [n.right] + s.Todo(n.right)
  {
    s.InUp(n);
    assert n in s.up;
    Neighbours(s, n);
    var p := s.up[n];
    s.NextRight(p, IndexOf(s.kids[p], n));
  }

  lemma UpFrom(s: Shape, n: Node)
    requires Linked(s) && n in s.kids && n.right == null
    ensures n in s.depth
    ensures n.parent == null ==> n == s.root && s.Rest(n) == []
    ensures n.parent != null ==> n.parent in s.kids && n.parent in s.depth && s.depth[n.parent] < s.depth[n]
    ensures n.parent != null ==> s.Rest(n) == s.Rest(n.parent)
  {
    s.InUp(n);
    assert NodeLinked(s, n);
    if n in s.up {
      Neighbours(s, n);
      s.Kid(n);
      var p := s.up[n];
      s.NextUp(p);
    }
  }

  /** The node where a walk goes on, or the root at its end. */
  ghost predicate GoesOn(s: Shape, todo: seq<Node>, r: Node)
    requires s.Wf()
  {
    if todo == [] then r == s.root else r in s.kids && todo == [r] + s.Todo(r)
  }

  /** TREE_preorder_next: on along the walk, and from its end back to the root. */
  method PreorderNext(current: Node, ghost s: Shape) returns (r: Node)
    requires Linked(s) && current in s.kids
    ensures s.Todo(current) == [] ==> r == s.root
    ensures s.Todo(current) != [] ==> r == s.Todo(current)[0] && r in s.kids && s.Todo(r) == s.Todo(current)[1..]
  {
    assert s.Wf();
    hide Linked, s.Wf, s.Level, s.Todo, s.Rest, s.PreAll;
    r := current;
    DownFrom(s, r);
    if r.first != null {
      r := r.first;
    } else {
      if r.right != null {
        RightOf(s, r);
        r := r.right;
      } else {
        r := NextAbove(r, s);
      }
    }
    assert GoesOn(s, s.Todo(current), r);
    if s.Todo(current) != [] {
      AtHead(r, s.Todo(r));
    }
  }

  /** The loop of it, upwards to the first ancestor with a right sibling. */
  method NextAbove(n: Node, ghost s: Shape) returns (r: Node)
    requires Linked(s) && n in s.kids && n.right == null
    ensures s.Wf() && GoesOn(s, s.Rest(n), r)
  {
    assert s.Wf();
    hide Linked, s.Wf, s.Level, s.Todo, s.Rest, s.PreAll;
    r := n;
    UpFrom(s, r);
    while r.parent != null
      invariant s.Wf() && r in s.kids && r in s.depth && s.Rest(n) == s.Rest(r) && r.right == null
      decreases s.depth[r]
    {
      UpFrom(s, r);
      r := r.parent;
      if r.right != null {
        RightOf(s, r);
        return r.right;
      }
    }
    UpFrom(s, r);
  }

  lemma AtHead(n: Node, todo: seq<Node>)
    ensures [n] + todo != [] && ([n] + todo)[0] == n && ([n] + todo)[1..] == todo
  {
  }

  /** The place of a node in the walk from the root. */
  lemma Place(s: Shape, n: Node, i: nat)
    requires s.Wf() && s.root in s.kids && n in s.kids && i < |s.Pre(s.root)| && s.Pre(s.root)[i] == n
    ensures s.Todo(n) == s.Pre(s.root)[i + 1..] && s.Before(n) == s.Pre(s.root)[..i]
  {
    hide s.Wf, s.Before, s.Todo, s.Pre;
    s.EveryNodeOnce();
    s.Cut(n);
    var w, j := s.Pre(s.root), |s.Before(n)|;
    assert w[j] == n;
    assert i == j;
  }

  lemma WalkFacts(s: Shape)
    requires Linked(s)
    ensures s.Wf() && s.root in s.kids && |s.Pre(s.root)| > 0
    ensures forall m :: m in s.Pre(s.root) <==> m in s.kids
    ensures forall i, j :: 0 <= i < j < |s.Pre(s.root)| ==> s.Pre(s.root)[i] != s.Pre(s.root)[j]
  {
    s.EveryNodeOnce();
  }

  /** All but one of the nodes, from that one around. */
  ghost function Around(w: seq<Node>, i: nat): seq<Node>
    requires i < |w|
  {
    w[i + 1..] + w[..i]
  }

  /** Where the k-th of them is. */
  ghost function PlaceAround(n: nat, i: nat, k: nat): (r: nat)
    requires n > 0
    ensures r < n
  {
    if i + 1 + k < n then i + 1 + k else if i + 1 + k - n < n then i + 1 + k - n else 0
  }

  lemma AroundAt(w: seq<Node>, i: nat, k: nat)
    requires i < |w| && k < |w|
    ensures |Around(w, i)| == |w| - 1
    ensures After(i, |w|) == PlaceAround(|w|, i, 0)
    ensures After(PlaceAround(|w|, i, k), |w|) == PlaceAround(|w|, i, k + 1)
    ensures k < |w| - 1 ==> Around(w, i)[k] == w[PlaceAround(|w|, i, k)] && PlaceAround(|w|, i, k) != i
    ensures k == |w| - 1 ==> PlaceAround(|w|, i, k) == i
  {
  }

  ghost function After(i: nat, n: nat): (r: nat)
    ensures i < n ==> r < n
  {
    if i + 1 == n then 0 else i + 1
  }

  /** TREE_FOREACH_PREORDER: all of the tree but the start, from there around. */
  method ForeachPreorder(tree: Node, ghost s: Shape) returns (visited: seq<Node>)
    requires Linked(s) && tree in s.kids
    ensures visited == s.Todo(tree) + s.Before(tree)
  {
    hide *;
    ghost var w, i := WalkFrom(s, tree);
    AroundAt(w, i, 0);
    visited := [];
    var current := NextInWalk(tree, s, w, i);
    var next := NextInWalk(current, s, w, PlaceAround(|w|, i, 0));
    while current != tree
      invariant |visited| < |w| && visited == Around(w, i)[..|visited|]
      invariant current == w[PlaceAround(|w|, i, |visited|)] && next == w[PlaceAround(|w|, i, |visited| + 1)]
      decreases |w| - |visited|
    {
      ghost var k := |visited|;
      OnceAround(s, w, i, k);
      AroundAt(w, i, k);
      AroundAt(w, i, k + 1);
      visited := visited + [current];
      current := next;
      next := NextInWalk(current, s, w, PlaceAround(|w|, i, k + 1));
    }
    OnceAround(s, w, i, |visited|);
    AroundAt(w, i, |visited|);
    AroundIs(s, w, i);
  }

  /** The walk from the root. */
  ghost predicate WalkOf(s: Shape, w: seq<Node>)
    reads s.kids.Keys
  {
    Linked(s) && w == s.Pre(s.root)
  }

  lemma WalkFrom(s: Shape, n: Node) returns (w: seq<Node>, i: nat)
    requires Linked(s) && n in s.kids
    ensures s.Wf() && WalkOf(s, w) && i < |w| && w[i] == n
  {
    hide s.Wf, s.Pre;
    WalkFacts(s);
    w := s.Pre(s.root);
    i :| i < |w| && w[i] == n;
  }

  lemma OnceAround(s: Shape, w: seq<Node>, i: nat, k: nat)
    requires WalkOf(s, w) && i < |w| && k < |w|
    ensures w[PlaceAround(|w|, i, k)] == w[i] <==> k == |w| - 1
  {
    hide s.Wf, s.Pre, Around, PlaceAround;
    WalkFacts(s);
    AroundAt(w, i, k);
  }

  lemma AroundIs(s: Shape, w: seq<Node>, i: nat)
    requires WalkOf(s, w) && i < |w|
    ensures s.Wf() && w[i] in s.kids && |Around(w, i)| == |w| - 1
    ensures Around(w, i)[..|w| - 1] == s.Todo(w[i]) + s.Before(w[i])
  {
    hide s.Wf, s.Before, s.Todo, s.Pre;
    WalkFacts(s);
    Place(s, w[i], i);
  }

  method NextInWalk(current: Node, ghost s: Shape, ghost w: seq<Node>, ghost i: nat) returns (r: Node)
    requires WalkOf(s, w) && i < |w| && current == w[i]
    ensures r == w[After(i, |w|)]
  {
    hide s.Wf, s.Before, s.Todo, s.Pre;
    WalkFacts(s);
    Place(s, current, i);
    StartOfWalk(s);
    r := PreorderNext(current, s);
  }

  lemma StartOfWalk(s: Shape)
    requires s.Wf() && s.root in s.kids
    ensures |s.Pre(s.root)| > 0 && s.Pre(s.root)[0] == s.root
  {
  }

  /** So the loop stays below its start just when that is the root. */
  lemma StaysBelow(s: Shape, n: Node)
    requires s.Wf() && s.root in s.kids && n in s.kids
    ensures forall m :: m in s.Todo(n) + s.Before(n) ==> m in s.kids
    ensures (forall m :: m in s.Todo(n) + s.Before(n) ==> m in s.kids && s.Below(n, m)) <==> n == s.root
  {
    InWalk(s, n);
    hide s.Wf, s.Before, s.Todo, s.Pre;
    if n == s.root {
      forall m | m in s.kids ensures s.Below(n, m) {
        s.RootAbove(m);
      }
    } else {
      StartsAtRoot(s, n);
      NotBelow(s, n);
    }
  }

  lemma InWalk(s: Shape, n: Node)
    requires s.Wf() && s.root in s.kids && n in s.kids
    ensures forall m :: m in s.Todo(n) + s.Before(n) ==> m in s.kids
  {
    s.OnlyNodes(s.root);
    s.Cut(n);
    hide s.Wf, s.Before, s.Todo, s.Pre;
    assert forall m :: m in s.Todo(n) + s.Before(n) ==> m in s.Before(n) + [n] + s.Todo(n);
  }

  lemma NotBelow(s: Shape, n: Node)
    requires s.Wf() && s.root in s.kids && n in s.kids && n != s.root
    ensures !s.Below(n, s.root)
  {
    s.Kid(n);
  }

  lemma {:induction false} StartsAtRoot(s: Shape, n: Node)
    requires s.Wf() && s.root in s.kids && n in s.kids && n != s.root
    ensures s.root in s.Before(n)
    decreases s.depth[n]
  {
    s.Kid(n);
    if s.up[n] != s.root {
      StartsAtRoot(s, s.up[n]);
    }
  }

  // ----- inserts -----

  /** A node is between its new neighbours, and nothing else among the siblings changed. */
  twostate predicate Between(ks: seq<Node>, new node: Node, new at: nat)
    requires at <= |ks|
    reads ks, node
  {
    && node.left == (if at > 0 then ks[at - 1] else null)
    && node.right == (if at < |ks| then ks[at] else null)
    && (at > 0 ==> ks[at - 1].right == node)
    && (at < |ks| ==> ks[at].left == node)
    && (forall i :: 0 <= i < |ks| && i + 1 != at ==> ks[i].right == old(ks[i].right))
    && (forall i :: 0 <= i < |ks| && i != at ==> ks[i].left == old(ks[i].left))
  }

  twostate lemma BetweenLinked(ks: seq<Node>, new node: Node, new at: nat)
    requires at <= |ks| && old(SiblingsLinked(ks)) && node !in ks && Between(ks, node, at)
    ensures SiblingsLinked(InsertAt(ks, at, node))
  {
    var r := InsertAt(ks, at, node);
    forall i, j | 0 <= i < j < |r| && j == i + 1 ensures r[i].right == r[j] && r[j].left == r[i] {
      if j < at {
        assert r[i] == ks[i] && r[j] == ks[j];
      } else if i > at {
        assert r[i] == ks[i - 1] && r[j] == ks[j - 1];
      }
    }
    assert r[0] == if at == 0 then node else ks[0];
    assert r[|r| - 1] == if at == |ks| then node else ks[|ks| - 1];
  }

  /** The children of different nodes are different. */
  lemma KidsApart(s: Shape, p: Node, q: Node, n: Node)
    requires s.Wf() && p in s.kids && q in s.kids && n in s.kids[p] && (p != q ==> n in s.kids[q])
    ensures p == q && n in s.kids && n != s.root
  {
    var i := IndexOf(s.kids[p], n);
    assert s.IsKid(p, s.kids[p][i]);
    if p != q {
      var j := IndexOf(s.kids[q], n);
      s.KidAt(q, j);
    }
  }

  /** Outside the new siblings nothing changed. */
  twostate predicate Elsewhere(s: Shape, new p: Node)
    requires p in s.kids
    reads s.kids.Keys
  {
    forall n :: n in s.kids ==>
      && n.parent == old(n.parent)
      && (n != p ==> n.first == old(n.first) && n.last == old(n.last))
      && (n !in s.kids[p] ==> n.left == old(n.left) && n.right == old(n.right))
  }

  twostate lemma OthersLinked(s: Shape, new p: Node, new q: Node)
    requires old(Linked(s)) && p in s.kids && q in s.kids && p != q && Elsewhere(s, p)
    ensures SiblingsLinked(s.kids[q])
  {
    var ks := s.kids[q];
    assert old(NodeLinked(s, q));
    forall i | 0 <= i < |ks| ensures ks[i].left == old(ks[i].left) && ks[i].right == old(ks[i].right) {
      assert ks[i] in ks;
      if ks[i] in s.kids[p] {
        KidsApart(s, p, q, ks[i]);
      }
    }
  }

  /** The links of a tree that is hung in and of its new neighbours make the larger one. */
  twostate lemma GraftLinked(s: Shape, new p: Node, new sub: Shape, new at: nat)
    requires old(Linked(s)) && s.Fits(p, sub, at) && Hangs(sub) && sub.root in sub.kids && sub.root.parent == p
    requires ParentLinked(p, InsertAt(s.kids[p], at, sub.root), old(p.parent))
    requires Between(s.kids[p], sub.root, at) && Elsewhere(s, p)
    ensures Linked(s.With(p, sub, at))
  {
    hide NodeLinked, s.With, s.Fits, NodeHangs, Between, SiblingsLinked, ParentLinked;
    var t := s.With(p, sub, at);
    s.Keys(p, sub, at);
    s.WithWf(p, sub, at);
    RootStays(s, p);
    forall n | n in t.kids ensures NodeLinked(t, n) {
      if n in s.kids {
        NodeKept(s, p, sub, at, n);
      } else {
        NodeBrought(s, p, sub, at, n);
      }
    }
  }

  twostate lemma RootStays(s: Shape, new p: Node)
    requires old(Linked(s)) && p in s.kids && Elsewhere(s, p)
    ensures s.root in s.kids && s.root.left == null && s.root.right == null
  {
    RootApart(s, p);
  }

  /** A node of the tree that was there. */
  twostate lemma NodeKept(s: Shape, new p: Node, new sub: Shape, new at: nat, new n: Node)
    requires old(Linked(s)) && s.Fits(p, sub, at) && sub.root in sub.kids && n in s.kids
    requires ParentLinked(p, InsertAt(s.kids[p], at, sub.root), old(p.parent))
    requires Between(s.kids[p], sub.root, at) && Elsewhere(s, p)
    ensures s.With(p, sub, at).Wf() && n in s.With(p, sub, at).kids && NodeLinked(s.With(p, sub, at), n)
  {
    hide s.With, s.Fits, Between, SiblingsLinked, Elsewhere;
    s.WithWf(p, sub, at);
    s.Mine(p, sub, at, n);
    SiblingsKept(s, p, sub, at, n);
    ParentKept(s, p, sub, at, n);
  }

  twostate lemma SiblingsKept(s: Shape, new p: Node, new sub: Shape, new at: nat, new n: Node)
    requires old(Linked(s)) && s.Fits(p, sub, at) && sub.root in sub.kids && n in s.kids
    requires Between(s.kids[p], sub.root, at) && Elsewhere(s, p)
    ensures n in s.With(p, sub, at).kids && SiblingsLinked(s.With(p, sub, at).kids[n])
  {
    hide s.Wf, s.With, s.Fits, Between, Elsewhere, SiblingsLinked;
    s.Mine(p, sub, at, n);
    s.Mine(p, sub, at, p);
    s.Theirs(p, sub, at, sub.root);
    s.KidsIn(p);
    assert old(NodeLinked(s, n));
    if n == p {
      BetweenLinked(s.kids[p], sub.root, at);
    } else {
      OthersLinked(s, p, n);
    }
  }

  twostate lemma ParentKept(s: Shape, new p: Node, new sub: Shape, new at: nat, new n: Node)
    requires old(Linked(s)) && s.Fits(p, sub, at) && n in s.kids
    requires ParentLinked(p, InsertAt(s.kids[p], at, sub.root), old(p.parent)) && Elsewhere(s, p)
    ensures var t := s.With(p, sub, at); n in t.kids && ParentLinked(n, t.kids[n], ParentOf(t, n))
  {
    hide s.Wf, s.With, s.Fits, SiblingsLinked, InsertAt;
    s.Mine(p, sub, at, n);
    assert old(NodeLinked(s, n));
  }

  /** A node of the other one. */
  lemma NodeBrought(s: Shape, p: Node, sub: Shape, at: nat, n: Node)
    requires s.Fits(p, sub, at) && Hangs(sub) && sub.root in sub.kids && sub.root.parent == p && n in sub.kids
    ensures s.With(p, sub, at).Wf() && n in s.With(p, sub, at).kids && NodeLinked(s.With(p, sub, at), n)
  {
    hide s.Wf, s.With, s.Fits, SiblingsLinked;
    s.WithWf(p, sub, at);
    s.Theirs(p, sub, at, n);
    assert NodeHangs(sub, n);
  }

  /** A tree still hangs together when only its root gets other neighbours. */
  twostate lemma HangsStill(s: Shape)
    requires old(Hangs(s)) && s.root in s.kids
    requires forall n :: n in s.kids && n != s.root ==> unchanged(n)
    requires s.root.first == old(s.root.first) && s.root.last == old(s.root.last)
    ensures Hangs(s)
  {
    hide s.Wf;
    forall n | n in s.kids ensures NodeHangs(s, n) {
      assert old(NodeHangs(s, n));
      s.KidsIn(n);
      RootApart(s, n);
      if n in s.up {
        s.Kid(n);
      }
      forall i | 0 <= i < |s.kids[n]| ensures unchanged(s.kids[n][i]) {
        assert s.kids[n][i] in s.kids[n];
      }
    }
  }

  lemma RootApart(s: Shape, p: Node)
    requires s.Wf() && p in s.kids
    ensures s.root !in s.kids[p]
  {
    if s.root in s.kids[p] {
      KidsApart(s, p, p, s.root);
    }
  }

  lemma IsRoot(s: Shape, n: Node)
    requires Linked(s) && n in s.kids
    ensures s.Wf() && (n.parent == null <==> n == s.root) && (n.parent != null ==> n in s.up)
  {
    assert NodeLinked(s, n);
    if n in s.up {
      s.Kid(n);
    }
  }

  lemma ParentFields(n: Node, ks: seq<Node>, parent: Node?)
    ensures ParentLinked(n, ks, parent) <==>
      && n.parent == parent
      && n.first == (if ks == [] then null else ks[0])
      && n.last == (if ks == [] then null else ks[|ks| - 1])
  {
  }

  /** The tree of one node. */
  ghost function Single(node: Node): Shape {
    Shape(node, map[node := []], map[], map[node := 0], 1)
  }

  lemma SingleNode(node: Node)
    ensures var s := Single(node); s.Wf() && s.root == node && s.kids.Keys == {node}
    ensures node.first == node.last == null ==> Hangs(Single(node))
  {
  }

  /** TREE_init_root. */
  method InitRoot(node: Node)
    modifies node
    ensures node.right == node.parent == node.first == node.left == node.last == null
    ensures Linked(Single(node))
  {
    node.right, node.parent, node.first, node.left, node.last := null, null, null, null, null;
  }

  /** A node that is no leaf brings the tree below it. */
  ghost predicate Brings(node: Node, nodeIsLeaf: bool, s: Shape, sub: Shape)
    reads sub.kids.Keys
  {
    !nodeIsLeaf ==> Hangs(sub) && sub.root == node && s.kids.Keys !! sub.kids.Keys
  }

  /** The pointers are those of the tree with the other one in its place. */
  ghost predicate Grafted(s: Shape, p: Node, sub: Shape, at: nat)
    reads s.kids.Keys, sub.kids.Keys
  {
    s.Fits(p, sub, at) && Linked(s.With(p, sub, at))
  }

  twostate lemma Graft(s: Shape, new p: Node, new node: Node, new nodeIsLeaf: bool, new sub: Shape, new at: nat)
    requires old(Linked(s)) && p in s.kids && at <= |s.kids[p]| && node !in s.kids
    requires !nodeIsLeaf ==> Hangs(sub) && sub.root == node && s.kids.Keys !! sub.kids.Keys
    requires nodeIsLeaf ==> node.first == node.last == null
    requires node.parent == p && ParentLinked(p, InsertAt(s.kids[p], at, node), old(p.parent))
    requires Between(s.kids[p], node, at) && Elsewhere(s, p)
    ensures Grafted(s, p, if nodeIsLeaf then Single(node) else sub, at)
  {
    hide Linked, Hangs, Between, Elsewhere, ParentLinked, Single, s.With;
    var t := if nodeIsLeaf then Single(node) else sub;
    SingleNode(node);
    HangsWf(t);
    OldWf(s);
    GraftLinked(s, p, t, at);
  }

  lemma HangsWf(s: Shape)
    ensures Hangs(s) ==> s.Wf() && s.root in s.kids
  {
  }

  twostate lemma OldWf(s: Shape)
    requires old(Linked(s))
    ensures s.Wf()
  {
  }

  /** A node goes between its new neighbours, and the links of all others stay. */
  twostate predicate Spliced(s: Shape, new p: Node, new node: Node, new at: nat)
    requires p in s.kids && at <= |s.kids[p]|
    reads s.kids.Keys, node
  {
    var ks := s.kids[p];
    && node.left == (if at > 0 then ks[at - 1] else null)
    && node.right == (if at < |ks| then ks[at] else null)
    && forall n :: n in s.kids ==>
         && n.parent == old(n.parent)
         && n.right == (if at > 0 && n == ks[at - 1] then node else old(n.right))
         && n.left == (if at < |ks| && n == ks[at] then node else old(n.left))
         && (n != p ==> n.first == old(n.first) && n.last == old(n.last))
  }

  twostate lemma SplicedIs(s: Shape, new p: Node, new node: Node, new at: nat)
    requires p in s.kids && at <= |s.kids[p]| && Spliced(s, p, node, at)
    requires var ks := s.kids[p];
             && (forall i, j :: 0 <= i < j < |ks| ==> ks[i] != ks[j]) && forall i :: 0 <= i < |ks| ==> ks[i] in s.kids
    ensures Between(s.kids[p], node, at) && Elsewhere(s, p)
  {
    var ks := s.kids[p];
    assert at > 0 ==> ks[at - 1] in ks;
    assert at < |ks| ==> ks[at] in ks;
  }

  /** TREE_insert_right_sibling, the links. */
  method LinkRight(
    current: Node, node: Node, nodeIsLeaf: bool, parent: Node, ghost s: Shape, ghost ks: seq<Node>, ghost at: nat)
    requires parent in s.kids && s.kids[parent] == ks && node !in s.kids
    requires 0 < at <= |ks| && ks[at - 1] == current && current.right == if at < |ks| then ks[at] else null
    requires forall i, j :: 0 <= i < j < |ks| ==> ks[i] != ks[j]
    requires node !in ks && node != parent && parent.first == ks[0] && parent.last == ks[|ks| - 1]
    requires forall i :: 0 <= i < |ks| ==> ks[i] in s.kids
    modifies s.kids.Keys, node
    ensures parent.first == old(parent.first) && parent.parent == old(parent.parent)
    ensures Between(ks, node, at) && Elsewhere(s, parent)
    ensures node.parent == parent
    ensures node.first == (if nodeIsLeaf then null else old(node.first))
    ensures node.last == if nodeIsLeaf then null else old(node.last)
    ensures parent.last == if at == |ks| then node else ks[|ks| - 1]
  {
    hide Linked, Single, Between, Elsewhere;
    if nodeIsLeaf {
      InitRoot(node);
    }
    if parent.last == current {
      parent.last := node;
    }
    node.parent := parent;
    node.left := current;
    if current.right != null {
      current.right.left := node;
    }
    node.right := current.right;
    current.right := node;
    SplicedIs(s, parent, node, at);
  }

  /** TREE_insert_left_sibling, the links. */
  method LinkLeft(
    current: Node, node: Node, nodeIsLeaf: bool, parent: Node, ghost s: Shape, ghost ks: seq<Node>, ghost at: nat)
    requires parent in s.kids && s.kids[parent] == ks && node !in s.kids
    requires at < |ks| && ks[at] == current && current.left == if at > 0 then ks[at - 1] else null
    requires forall i, j :: 0 <= i < j < |ks| ==> ks[i] != ks[j]
    requires node !in ks && node != parent && parent.first == ks[0] && parent.last == ks[|ks| - 1]
    requires forall i :: 0 <= i < |ks| ==> ks[i] in s.kids
    modifies s.kids.Keys, node
    ensures parent.last == old(parent.last) && parent.parent == old(parent.parent)
    ensures Between(ks, node, at) && Elsewhere(s, parent)
    ensures node.parent == parent
    ensures node.first == (if nodeIsLeaf then null else old(node.first))
    ensures node.last == if nodeIsLeaf then null else old(node.last)
    ensures parent.first == if at == 0 then node else ks[0]
  {
    hide Linked, Single, Between, Elsewhere;
    if nodeIsLeaf {
      InitRoot(node);
    }
    if parent.first == current {
      parent.first := node;
    }
    node.parent := parent;
    if current.left != null {
      current.left.right := node;
    }
    node.right := current;
    node.left := current.left;
    current.left := node;
    SplicedIs(s, parent, node, at);
  }

  /** TREE_insert_right_sibling, of a leaf or of a node with all below it. */
  method InsertRightSibling(current: Node, node: Node, nodeIsLeaf: bool, ghost s: Shape, ghost sub: Shape)
    returns (rc: int)
    requires Linked(s) && current in s.kids && node !in s.kids && Brings(node, nodeIsLeaf, s, sub)
    modifies s.kids.Keys, node
    ensures rc == if current == s.root then -1 else 0
    ensures rc == -1 ==> Linked(s)
    ensures rc == 0 ==> s.Wf() && current in s.up && s.up[current] in s.kids && current in s.kids[s.up[current]]
    ensures rc == 0 ==> Grafted(s, s.up[current], if nodeIsLeaf then Single(node) else sub,
                                IndexOf(s.kids[s.up[current]], current) + 1)
  {
    hide s.Wf, Linked, Hangs, SiblingsLinked, ParentLinked, Between, Elsewhere, Grafted, IndexOf, InsertAt, Single;
    IsRoot(s, current);
    HangsWf(sub);
    var parent := current.parent;
    if parent == null {
      return -1;
    }
    Neighbours(s, current);
    ghost var ks := s.kids[parent];
    ghost var at := IndexOf(ks, current) + 1;
    ParentFields(parent, ks, parent.parent);
    assert forall i :: 0 <= i < |ks| ==> ks[i] in ks;
    LinkRight(current, node, nodeIsLeaf, parent, s, ks, at);
    LastInserted(ks, node, at);
    ParentFields(parent, InsertAt(ks, at, node), old(parent.parent));
    if !nodeIsLeaf {
      HangsStill(sub);
    }
    Graft(s, parent, node, nodeIsLeaf, sub, at);
    return 0;
  }

  /** TREE_insert_left_sibling, likewise. */
  method InsertLeftSibling(current: Node, node: Node, nodeIsLeaf: bool, ghost s: Shape, ghost sub: Shape)
    returns (rc: int)
    requires Linked(s) && current in s.kids && node !in s.kids && Brings(node, nodeIsLeaf, s, sub)
    modifies s.kids.Keys, node
    ensures rc == if current == s.root then -1 else 0
    ensures rc == -1 ==> Linked(s)
    ensures rc == 0 ==> s.Wf() && current in s.up && s.up[current] in s.kids && current in s.kids[s.up[current]]
    ensures rc == 0 ==> Grafted(s, s.up[current], if nodeIsLeaf then Single(node) else sub,
                                IndexOf(s.kids[s.up[current]], current))
  {
    hide s.Wf, Linked, Hangs, SiblingsLinked, ParentLinked, Between, Elsewhere, Grafted, IndexOf, InsertAt, Single;
    IsRoot(s, current);
    HangsWf(sub);
    var parent := current.parent;
    if parent == null {
      return -1;
    }
    Neighbours(s, current);
    ghost var ks := s.kids[parent];
    ghost var at := IndexOf(ks, current);
    ParentFields(parent, ks, parent.parent);
    assert forall i :: 0 <= i < |ks| ==> ks[i] in ks;
    LinkLeft(current, node, nodeIsLeaf, parent, s, ks, at);
    LastInserted(ks, node, at);
    ParentFields(parent, InsertAt(ks, at, node), old(parent.parent));
    if !nodeIsLeaf {
      HangsStill(sub);
    }
    Graft(s, parent, node, nodeIsLeaf, sub, at);
    return 0;
  }

  lemma LastInserted(ks: seq<Node>, node: Node, at: nat)
    requires at <= |ks|
    ensures var r := InsertAt(ks, at, node);
            && |r| == |ks| + 1 && r[0] == (if at == 0 then node else ks[0])
            && r[|ks|] == if at == |ks| then node else ks[|ks| - 1]
  {
  }

  method OnlyChild(parent: Node, node: Node, ghost s: Shape, ghost sub: Shape)
    requires Linked(s) && parent in s.kids && s.kids[parent] == [] && s.kids.Keys !! sub.kids.Keys
    requires Hangs(sub) && sub.root == node && node in sub.kids
    requires node.parent == parent && node.left == null && node.right == null
    modifies parent
    ensures Grafted(s, parent, sub, 0)
  {
    hide s.Wf, Linked, SiblingsLinked, ParentLinked, Between, Elsewhere, Grafted, InsertAt, Hangs;
    parent.first := node;
    parent.last := node;
    FirstChild(s, parent, node);
    ParentFields(parent, [node], old(parent.parent));
    HangsStill(sub);
    Graft(s, parent, node, false, sub, 0);
  }

  method AmongChildren(parent: Node, node: Node, asLast: bool, ghost s: Shape, ghost sub: Shape)
    requires Linked(s) && parent in s.kids && parent.first != null && s.kids.Keys !! sub.kids.Keys
    requires Hangs(sub) && sub.root == node && node in sub.kids
    modifies s.kids.Keys, node
    ensures s.Wf() && Grafted(s, parent, sub, if asLast then |s.kids[parent]| else 0)
  {
    ParentInTree(s, parent);
    hide s.Wf, Linked, SiblingsLinked, ParentLinked, Grafted, IndexOf, Hangs;
    ghost var ks := s.kids[parent];
    ParentFields(parent, ks, parent.parent);
    s.KidAt(parent, 0);
    s.KidAt(parent, |ks| - 1);
    var rc;
    if asLast {
      rc := InsertRightSibling(parent.last, node, false, s, sub);
    } else {
      rc := InsertLeftSibling(parent.first, node, false, s, sub);
    }
  }

  /** TREE_insert_child. */
  method InsertChild(parent: Node, node: Node, asLast: bool, nodeIsLeaf: bool, ghost s: Shape, ghost sub: Shape)
    requires Linked(s) && parent in s.kids && node !in s.kids && Brings(node, nodeIsLeaf, s, sub)
    modifies s.kids.Keys, node
    ensures s.Wf()
    ensures Grafted(s, parent, if nodeIsLeaf then Single(node) else sub, if asLast then |s.kids[parent]| else 0)
  {
    hide s.Wf, Linked, SiblingsLinked, ParentLinked, Grafted, Hangs, Single;
    ParentInTree(s, parent);
    ParentFields(parent, s.kids[parent], parent.parent);
    if nodeIsLeaf {
      node.first, node.last := null, null;
    }
    node.parent := parent;
    node.right, node.left := null, null;
    ghost var t := if nodeIsLeaf then Single(node) else sub;
    SingleNode(node);
    HangsWf(sub);
    if !nodeIsLeaf {
      HangsStill(sub);
    }
    assert Linked(s);
    if parent.first == null {
      OnlyChild(parent, node, s, t);
    } else {
      AmongChildren(parent, node, asLast, s, t);
    }
  }

  lemma ParentInTree(s: Shape, p: Node)
    requires Linked(s) && p in s.kids
    ensures s.Wf() && ParentLinked(p, s.kids[p], p.parent) && p in s.depth
    ensures forall k :: k in s.kids[p] ==> k in s.kids && k != s.root
  {
    assert NodeLinked(s, p);
    s.KidsIn(p);
    RootApart(s, p);
  }

  twostate lemma FirstChild(s: Shape, new p: Node, new node: Node)
    requires p in s.kids && s.kids[p] == [] && node !in s.kids && node.left == null && node.right == null
    requires forall n :: n in s.kids ==> n.parent == old(n.parent) && n.left == old(n.left) && n.right == old(n.right)
    requires forall n :: n in s.kids && n != p ==> n.first == old(n.first) && n.last == old(n.last)
    ensures Between(s.kids[p], node, 0) && Elsewhere(s, p) && InsertAt(s.kids[p], 0, node) == [node]
  {
  }

  // ----- whole runs of inserts -----

  /** Where a new node goes, beside or under one of the nodes of the tree, which are
      numbered in the order in which they came. */
  datatype Spot = Behind(i: nat) | Ahead(i: nat) | Under(i: nat, asLast: bool)

  /** How many nodes the tree has then: the root has no siblings. */
  function Size(spots: seq<Spot>): (n: nat)
    ensures n > 0
  {
    if spots == [] then 1
    else
      var n, p := Size(spots[..|spots| - 1]), spots[|spots| - 1];
      if p.i < n && (p.Under? || p.i > 0) then n + 1 else n
  }

  lemma SizeNext(spots: seq<Spot>, k: nat)
    requires k < |spots|
    ensures var n, p := Size(spots[..k]), spots[k];
            Size(spots[..k + 1]) == if p.i < n && (p.Under? || p.i > 0) then n + 1 else n
  {
    assert spots[..k + 1][..k] == spots[..k];
  }

  lemma SizeNone(spots: seq<Spot>)
    ensures Size(spots[..0]) == 1
  {
  }

  /** One insert of a new node. */
  method Plant(nodes: seq<Node>, spot: Spot, ghost s: Shape) returns (node: Node?, ghost s': Shape)
    requires Linked(s) && nodes != [] && nodes[0] == s.root && spot.i < |nodes|
    requires forall n :: n in nodes <==> n in s.kids
    requires forall i, j :: 0 <= i < j < |nodes| ==> nodes[i] != nodes[j]
    modifies nodes
    ensures Linked(s') && s'.root == s.root
    ensures node == null <==> !spot.Under? && spot.i == 0
    ensures if node == null then s' == s else fresh(node) && s'.kids.Keys == s.kids.Keys + {node}
  {
    hide s.Wf, Linked, IndexOf, Single, Grafted, Hangs;
    var at := nodes[spot.i];
    var new' := new Node();
    ghost var sub := Single(new');
    ghost var p, k := at, 0;
    SingleNode(new');
    InTree(s, at);
    assert spot.i > 0 ==> at != nodes[0];
    match spot {
      case Behind(_) =>
        var rc := InsertRightSibling(at, new', true, s, sub);
        if rc == -1 {
          return null, s;
        }
        p, k := s.up[at], IndexOf(s.kids[s.up[at]], at) + 1;
      case Ahead(_) =>
        var rc := InsertLeftSibling(at, new', true, s, sub);
        if rc == -1 {
          return null, s;
        }
        p, k := s.up[at], IndexOf(s.kids[s.up[at]], at);
      case Under(_, asLast) =>
        InsertChild(at, new', asLast, true, s, sub);
        k := if asLast then |s.kids[at]| else 0;
    }
    GraftedKeys(s, p, sub, k);
    s' := s.With(p, sub, k);
    node := new';
  }

  lemma GraftedKeys(s: Shape, p: Node, sub: Shape, at: nat)
    requires Grafted(s, p, sub, at)
    ensures s.Fits(p, sub, at)
    ensures var t := s.With(p, sub, at); Linked(t) && t.root == s.root && t.kids.Keys == s.kids.Keys + sub.kids.Keys
  {
    hide Linked;
    s.Keys(p, sub, at);
  }

  lemma InTree(s: Shape, n: Node)
    requires Linked(s) && n in s.kids
    ensures s.Wf() && s.root in s.kids && (n != s.root ==> n in s.up && s.up[n] in s.kids)
  {
    s.InUp(n);
  }

  lemma IsWf(s: Shape)
    requires Linked(s)
    ensures s.Wf() && s.root in s.kids
  {
  }

  /** A walk from the root, with the root itself. */
  lemma WholeWalk(s: Shape, nodes: seq<Node>, visited: seq<Node>)
    requires Linked(s) && s.root in s.kids && visited == s.Todo(s.root) + s.Before(s.root)
    requires forall n :: n in nodes <==> n in s.kids
    requires forall i, j :: 0 <= i < j < |nodes| ==> nodes[i] != nodes[j]
    ensures multiset([s.root] + visited) == multiset(nodes)
  {
    s.EveryNodeOnce();
    hide s.Wf, s.Pre, s.Todo, s.Before, s.Rest;
    FromRoot(s);
    SameOnce(s.Pre(s.root), nodes);
  }

  lemma FromRoot(s: Shape)
    requires s.Wf() && s.root in s.kids
    ensures s.Pre(s.root) == [s.root] + (s.Todo(s.root) + s.Before(s.root))
  {
    hide s.Wf, s.Pre, s.Todo;
    assert s.Before(s.root) == [] && s.Rest(s.root) == [];
    s.HereAndOn(s.root);
    assert s.Pre(s.root) + [] == s.Pre(s.root) && s.Todo(s.root) + [] == s.Todo(s.root);
  }

  /** Two sequences that have the same nodes, each once. */
  lemma SameOnce(v: seq<Node>, w: seq<Node>)
    requires forall i, j :: 0 <= i < j < |v| ==> v[i] != v[j]
    requires forall i, j :: 0 <= i < j < |w| ==> w[i] != w[j]
    requires forall n :: n in v <==> n in w
    ensures multiset(v) == multiset(w)
  {
    CountedOnce(v);
    CountedOnce(w);
    forall n: Node | n in v || n in w ensures multiset(v)[n] == multiset(w)[n] {
      assert n in v && n in w;
    }
    forall n: Node ensures multiset(v)[n] == multiset(w)[n] {
      assert n in multiset(v) <==> n in v;
      assert n in multiset(w) <==> n in w;
    }
  }

  /** Any run of inserts into a fresh tree, and the walk of the result: it comes to each
      node exactly once. */
  method BuildAndWalk(spots: seq<Spot>) returns (nodes: seq<Node>, visited: seq<Node>, ghost s: Shape)
    ensures Linked(s) && s.root in s.kids && |nodes| == Size(spots) && nodes[0] == s.root
    ensures forall n :: n in nodes <==> n in s.kids
    ensures forall i, j :: 0 <= i < j < |nodes| ==> nodes[i] != nodes[j]
    ensures visited == s.Todo(s.root) + s.Before(s.root) && multiset([s.root] + visited) == multiset(nodes)
  {
    hide Linked, Single, Size, Shape.Wf, Shape.Todo, Shape.Before;
    var root := new Node();
    InitRoot(root);
    s := Single(root);
    SingleNode(root);
    nodes := [root];
    var k := 0;
    SizeNone(spots);
    while k < |spots|
      invariant k <= |spots| && Linked(s) && |nodes| == Size(spots[..k]) && nodes[0] == s.root == root
      invariant forall n :: n in nodes <==> n in s.kids
      invariant forall i, j :: 0 <= i < j < |nodes| ==> nodes[i] != nodes[j]
      invariant forall i :: 0 <= i < |nodes| ==> fresh(nodes[i])
    {
      SizeNext(spots, k);
      if spots[k].i < |nodes| {
        var node;
        node, s := Plant(nodes, spots[k], s);
        if node != null {
          nodes := nodes + [node];
        }
      }
      k := k + 1;
    }
    assert spots[..k] == spots;
    assert root in nodes;
    IsWf(s);
    visited := ForeachPreorder(root, s);
    WholeWalk(s, nodes, visited);
  }

  /** A walk from the child of a tree of two nodes: it comes to the root, which is not
      below its start. */
  method LeavesSubtree() returns (nodes: seq<Node>, visited: seq<Node>, ghost s: Shape)
    ensures Linked(s) && s.Wf() && |nodes| == 2 && nodes[0] == s.root && nodes[1] in s.kids && s.root in s.kids
    ensures nodes[0] in visited && !s.Below(nodes[1], nodes[0])
  {
    hide Linked, Shape.Wf, Shape.Todo, Shape.Before, Shape.Below;
    var spots := [Under(0, true)];
    assert Size([]) == 1 && spots[..0] == [];
    var walked;
    nodes, walked, s := BuildAndWalk(spots);
    var child := nodes[1];
    assert child in nodes;
    IsWf(s);
    visited := ForeachPreorder(child, s);
    StartsAtRoot(s, child);
    NotBelow(s, child);
  }
}

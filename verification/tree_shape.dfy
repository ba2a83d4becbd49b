/** The trees of cutils/tree.h as values, and their preorder. */
module TreeShape {
  import opened Seqs

  class Node {
    var parent: Node?
    var first: Node?
    var last: Node?
    var right: Node?
    var left: Node?

    constructor ()
      ensures parent == null && first == null && last == null && right == null && left == null
    {
      parent, first, last, right, left := null, null, null, null, null;
    }
  }

  function IndexOf(s: seq<Node>, n: Node): (i: nat)
    requires n in s
    ensures i < |s| && s[i] == n
  {
    if s[0] == n then 0 else 1 + IndexOf(s[1..], n)
  }

  lemma InsertedAt(s: seq<Node>, at: nat, n: Node, i: nat)
    requires at <= |s|
    ensures var r := InsertAt(s, at, n);
            |r| == |s| + 1 && (i < |r| ==> r[i] == if i < at then s[i] else if i == at then n else s[i - 1])
  {
  }

  lemma InsertedApart(s: seq<Node>, at: nat, n: Node)
    requires at <= |s| && n !in s && forall i, j :: 0 <= i < j < |s| ==> s[i] != s[j]
    ensures var r := InsertAt(s, at, n); forall i, j :: 0 <= i < j < |r| ==> r[i] != r[j]
  {
    hide InsertAt;
    var r := InsertAt(s, at, n);
    InsertedAt(s, at, n, 0);
    forall i, j | 0 <= i < j < |r| ensures r[i] != r[j] {
      InsertedAt(s, at, n, i);
      InsertedAt(s, at, n, j);
      assert i != at ==> r[i] in s;
      assert j != at ==> r[j] in s;
    }
  }

  lemma StillIn(s: seq<Node>, n: Node, at: nat, m: Node)
    requires at <= |s| && m in s
    ensures m in InsertAt(s, at, n)
  {
    assert s == s[..at] + s[at..];
  }

  lemma CountConcat(v: seq<Node>, w: seq<Node>, n: Node)
    ensures multiset(v + w)[n] == multiset(v)[n] + multiset(w)[n]
  {
  }

  lemma CountHead(m: Node, w: seq<Node>, n: Node)
    ensures multiset([m] + w)[n] == (if m == n then 1 else 0) + multiset(w)[n]
  {
    assert multiset([m] + w) == multiset{m} + multiset(w);
  }

  /** x stands before y. */
  ghost predicate Earlier(w: seq<Node>, x: Node, y: Node) {
    exists i, j :: 0 <= i < j < |w| && w[i] == x && w[j] == y
  }

  lemma BothParts(v: seq<Node>, w: seq<Node>, x: Node, y: Node)
    requires x in v && y in w
    ensures Earlier(v + w, x, y)
  {
    var i :| 0 <= i < |v| && v[i] == x;
    var j :| 0 <= j < |w| && w[j] == y;
    assert (v + w)[i] == x && (v + w)[|v| + j] == y;
  }

  /** A node and something behind it. */
  lemma SplitEarlier(before: seq<Node>, n: Node, todo: seq<Node>, pre: seq<Node>, rest: seq<Node>, m: Node)
    requires pre + rest == [n] + todo && m in pre && m != n
    ensures Earlier(before + [n] + todo, n, m)
  {
    var k :| 0 <= k < |pre| && pre[k] == m;
    assert (pre + rest)[k] == m && k > 0 && todo[k - 1] == m;
    BothParts(before + [n], todo, n, m);
  }

  // ----- trees as values -----

  /** The children of every node in order, the parent of every node but the root, and
      the distance from the root. */
  datatype Shape = Shape(
    root: Node, kids: map<Node, seq<Node>>, up: map<Node, Node>, depth: map<Node, nat>, bound: nat)
  {

    ghost predicate Wf() {
      && root in kids && depth.Keys == kids.Keys && up.Keys == kids.Keys - {root} && depth[root] == 0
      && (forall n :: n in kids ==> depth[n] < bound)
      && (forall p, i :: p in kids && 0 <= i < |kids[p]| ==> IsKid(p, kids[p][i]))
      && (forall n :: n in up ==> up[n] in kids && n in kids[up[n]])
      && (forall p, i, j :: p in kids && 0 <= i < j < |kids[p]| ==> kids[p][i] != kids[p][j])
    }

    ghost predicate IsKid(p: Node, n: Node) {
      p in depth && n in up && n in kids && n in depth && up[n] == p && depth[n] == depth[p] + 1
    }

    ghost predicate Level(ks: seq<Node>, d: nat) {
      d <= bound && forall i :: 0 <= i < |ks| ==> ks[i] in kids && ks[i] in depth && depth[ks[i]] == d
    }

    /** A node and all below it, each before what is below it, and the children from
        left to right. */
    ghost function Pre(n: Node): seq<Node>
      requires Wf() && n in kids
      decreases bound - depth[n], 0, 0
    {
      [n] + PreAll(kids[n], depth[n] + 1)
    }

    ghost function PreAll(ks: seq<Node>, d: nat): seq<Node>
      requires Wf() && Level(ks, d)
      decreases bound - d, 1, |ks|
    {
      if ks == [] then [] else Pre(ks[0]) + PreAll(ks[1..], d)
    }

    /** What a walk from the root comes to after all that is below a node. */
    ghost function Rest(n: Node): seq<Node>
      requires Wf() && n in kids
      decreases depth[n]
    {
      if n == root then [] else
        var p := up[n];
        PreAll(kids[p][IndexOf(kids[p], n) + 1..], depth[n]) + Rest(p)
    }

    /** What it comes to before the node. */
    ghost function Before(n: Node): seq<Node>
      requires Wf() && n in kids
      decreases depth[n]
    {
      if n == root then [] else
        var p := up[n];
        Before(p) + [p] + PreAll(kids[p][..IndexOf(kids[p], n)], depth[n])
    }

    /** What it comes to after the node. */
    ghost function Todo(n: Node): seq<Node>
      requires Wf() && n in kids
    {
      PreAll(kids[n], depth[n] + 1) + Rest(n)
    }

    lemma KidAt(p: Node, i: nat)
      requires Wf() && p in kids && i < |kids[p]|
      ensures IsKid(p, kids[p][i]) && kids[p][i] in kids && IndexOf(kids[p], kids[p][i]) == i
    {
    }

    lemma Kid(n: Node)
      requires Wf() && n in up
      ensures n in kids && n in depth && n != root && up[n] in kids && n in kids[up[n]] && IsKid(up[n], n)
    {
    }

    lemma InUp(n: Node)
      requires Wf() && n in kids
      ensures n in depth && depth[n] < bound && (n != root ==> n in up)
      ensures Level(kids[n], depth[n] + 1) && Level(kids[n][..0], depth[n] + 1) && Level([], depth[n] + 1)
    {
    }

    lemma KidsIn(p: Node)
      requires Wf() && p in kids
      ensures forall k :: k in kids[p] ==> k in kids
    {
      forall k | k in kids[p] ensures k in kids {
        KidAt(p, IndexOf(kids[p], k));
      }
    }

    lemma Slice(ks: seq<Node>, d: nat, i: nat)
      requires Level(ks, d) && i <= |ks|
      ensures Level(ks[..i], d) && Level(ks[i..], d)
    {
    }

    lemma {:induction false} PreAllConcat(ks: seq<Node>, ls: seq<Node>, d: nat)
      requires Wf() && Level(ks, d) && Level(ls, d)
      ensures Level(ks + ls, d) && PreAll(ks + ls, d) == PreAll(ks, d) + PreAll(ls, d)
      decreases |ks|
    {
      Levels(ks, ls, d);
      hide Wf, Level, Pre;
      if ks == [] {
        assert ks + ls == ls;
      } else {
        assert (ks + ls)[1..] == ks[1..] + ls && (ks + ls)[0] == ks[0];
        PreAllConcat(ks[1..], ls, d);
        assert PreAll(ks + ls, d) == Pre(ks[0]) + (PreAll(ks[1..], d) + PreAll(ls, d));
      }
    }

    lemma Levels(ks: seq<Node>, ls: seq<Node>, d: nat)
      requires Level(ks, d) && Level(ls, d)
      ensures Level(ks + ls, d) && (ks != [] ==> Level(ks[1..], d) && ks[0] in kids)
    {
    }

    lemma OneMoreAt(n: Node, ks: seq<Node>, d: nat)
      requires Level(ks, d) && n in kids && n in depth && depth[n] == d
      ensures Level([n] + ks, d)
    {
    }

    lemma NoneLeft(d: nat)
      requires Wf() && Level([], d)
      ensures PreAll([], d) == []
    {
    }

    /** The walks below a node, with one of them taken out. */
    lemma Siblings(p: Node, i: nat)
      requires Wf() && p in kids && i < |kids[p]|
      ensures var d := depth[p] + 1;
              && Level(kids[p], d) && Level(kids[p][..i], d) && Level(kids[p][i + 1..], d) && kids[p][i] in kids
              && PreAll(kids[p], d) == PreAll(kids[p][..i], d) + Pre(kids[p][i]) + PreAll(kids[p][i + 1..], d)
    {
      hide Wf, Level;
      InUp(p);
      KidAt(p, i);
      var d := depth[p] + 1;
      Slice(kids[p], d, i);
      Slice(kids[p], d, i + 1);
      assert kids[p] == kids[p][..i] + kids[p][i..] && kids[p][i..][1..] == kids[p][i + 1..];
      PreAllConcat(kids[p][..i], kids[p][i..], d);
    }

    lemma RestOfKid(p: Node, i: nat)
      requires Wf() && p in kids && i < |kids[p]|
      ensures IsKid(p, kids[p][i]) && kids[p][i] in kids && Level(kids[p][i + 1..], depth[p] + 1)
      ensures Rest(kids[p][i]) == PreAll(kids[p][i + 1..], depth[p] + 1) + Rest(p)
    {
      hide Wf, Level;
      KidAt(p, i);
      Kid(kids[p][i]);
      Siblings(p, i);
    }

    /** Every node cuts the walk from the root in two. */
    lemma {:induction false} Cut(n: Node)
      requires Wf() && n in kids
      ensures Pre(root) == Before(n) + [n] + Todo(n)
      decreases depth[n]
    {
      hide Wf, Level, PreAll;
      InUp(n);
      if n == root {
        assert Before(n) == [] && Rest(n) == [];
      } else {
        Kid(n);
        var p := up[n];
        InUp(p);
        Cut(p);
        var i := IndexOf(kids[p], n);
        Siblings(p, i);
        assert Before(n) == Before(p) + [p] + PreAll(kids[p][..i], depth[n]);
        assert Rest(n) == PreAll(kids[p][i + 1..], depth[n]) + Rest(p);
      }
    }

    /** Down to the first child. */
    lemma NextDown(n: Node)
      requires Wf() && n in kids && kids[n] != []
      ensures kids[n][0] in kids && Todo(n) == [kids[n][0]] + Todo(kids[n][0])
    {
      hide Wf, Level, Rest, PreAll;
      InUp(n);
      KidAt(n, 0);
      Siblings(n, 0);
      RestOfKid(n, 0);
      NoneLeft(depth[n] + 1);
      assert kids[n][..0] == [];
    }

    /** To the right. */
    lemma NextRight(p: Node, i: nat)
      requires Wf() && p in kids && i + 1 < |kids[p]|
      ensures kids[p][i] in kids && kids[p][i + 1] in kids
      ensures Rest(kids[p][i]) == [kids[p][i + 1]] + Todo(kids[p][i + 1])
    {
      hide Wf, Level, Rest, PreAll, Pre, Todo;
      RestOfKid(p, i);
      RestOfKid(p, i + 1);
      var n := kids[p][i + 1];
      assert kids[p][i + 1..][1..] == kids[p][i + 2..];
      FirstOf(kids[p][i + 1..], depth[p] + 1);
      HereAndOn(n);
    }

    lemma FirstOf(ks: seq<Node>, d: nat)
      requires Wf() && Level(ks, d) && ks != []
      ensures ks[0] in kids && Level(ks[1..], d) && PreAll(ks, d) == Pre(ks[0]) + PreAll(ks[1..], d)
    {
    }

    /** A node with all below it, and the rest. */
    lemma HereAndOn(n: Node)
      requires Wf() && n in kids
      ensures Pre(n) + Rest(n) == [n] + Todo(n)
    {
      hide Wf, Level, Rest, PreAll;
      InUp(n);
    }

    /** Up from the last child. */
    lemma NextUp(p: Node)
      requires Wf() && p in kids && kids[p] != []
      ensures kids[p][|kids[p]| - 1] in kids && Rest(kids[p][|kids[p]| - 1]) == Rest(p)
    {
      RestOfKid(p, |kids[p]| - 1);
    }

    /** The ancestor at a depth. */
    ghost function Ancestor(n: Node, d: nat): (r: Node)
      requires Wf() && n in kids && d <= depth[n]
      ensures r in kids && depth[r] == d
      decreases depth[n]
    {
      if d == depth[n] then n else Ancestor(up[n], d)
    }

    lemma {:induction false} AncestorUp(n: Node, d: nat)
      requires Wf() && n in kids && d < depth[n]
      ensures Ancestor(n, d + 1) in up && up[Ancestor(n, d + 1)] == Ancestor(n, d)
      decreases depth[n]
    {
      if d + 1 < depth[n] {
        AncestorUp(up[n], d);
      }
    }

    ghost predicate Below(n: Node, m: Node)
      requires Wf() && n in kids && m in kids
    {
      depth[n] <= depth[m] && Ancestor(m, depth[n]) == n
    }

    /** A walk comes once to what is below its start, and to nothing else. */
    lemma {:induction false} Once(n: Node, m: Node)
      requires Wf() && n in kids && m in kids
      ensures multiset(Pre(n))[m] == if Below(n, m) then 1 else 0
      decreases bound - depth[n], 0, 0
    {
      InUp(n);
      KidsApart(n);
      hide Wf, Level, PreAll, Pre, Below, Ancestor;
      OnceAll(kids[n], depth[n] + 1, m);
      OnceHere(n, m);
    }

    lemma OnceHere(n: Node, m: Node)
      requires Wf() && n in kids && m in kids && Level(kids[n], depth[n] + 1)
      requires multiset(PreAll(kids[n], depth[n] + 1))[m] ==
               if depth[n] < depth[m] && Ancestor(m, depth[n] + 1) in kids[n] then 1 else 0
      ensures multiset(Pre(n))[m] == if Below(n, m) then 1 else 0
    {
      BelowIff(n, m);
      PreIs(n);
      hide *;
      CountHead(n, PreAll(kids[n], depth[n] + 1), m);
      assert m == n ==> depth[n] == depth[m];
    }

    lemma PreIs(n: Node)
      requires Wf() && n in kids && Level(kids[n], depth[n] + 1)
      ensures Pre(n) == [n] + PreAll(kids[n], depth[n] + 1)
    {
    }

    lemma BelowIff(n: Node, m: Node)
      requires Wf() && n in kids && m in kids
      ensures n in depth && m in depth && n in kids
      ensures Below(n, m) <==> m == n || (depth[n] < depth[m] && Ancestor(m, depth[n] + 1) in kids[n])
    {
      InUp(n);
      InUp(m);
      hide Wf;
      if depth[n] < depth[m] {
        AncestorUp(m, depth[n]);
        KidIff(n, Ancestor(m, depth[n] + 1));
      }
    }

    lemma KidsApart(n: Node)
      requires Wf() && n in kids
      ensures forall i, j :: 0 <= i < j < |kids[n]| ==> kids[n][i] != kids[n][j]
    {
    }

    lemma KidIff(n: Node, k: Node)
      requires Wf() && n in kids && k in up
      ensures k in kids[n] <==> up[k] == n
    {
      if k in kids[n] {
        KidAt(n, IndexOf(kids[n], k));
      }
    }

    lemma {:induction false} OnceAll(ks: seq<Node>, d: nat, m: Node)
      requires Wf() && Level(ks, d) && m in kids
      requires forall i, j :: 0 <= i < j < |ks| ==> ks[i] != ks[j]
      ensures multiset(PreAll(ks, d))[m] == if d <= depth[m] && Ancestor(m, d) in ks then 1 else 0
      decreases bound - d, 1, |ks|
    {
      hide Wf, Level, Pre, PreAll, Ancestor, Below;
      if ks == [] {
        NoneLeft(d);
      } else {
        FirstOf(ks, d);
        AtLevel(ks, d, m);
        assert ks == [ks[0]] + ks[1..] && ks[0] !in ks[1..];
        Once(ks[0], m);
        OnceAll(ks[1..], d, m);
        CountConcat(Pre(ks[0]), PreAll(ks[1..], d), m);
      }
    }

    lemma AtLevel(ks: seq<Node>, d: nat, m: Node)
      requires Wf() && Level(ks, d) && ks != [] && m in kids
      ensures m in depth && ks[0] in kids && depth[ks[0]] == d < bound
      ensures Below(ks[0], m) <==> d <= depth[m] && Ancestor(m, d) == ks[0]
    {
    }

    lemma {:induction false} OnlyNodes(n: Node)
      requires Wf() && n in kids
      ensures forall m :: m in Pre(n) ==> m in kids
      decreases bound - depth[n], 0, 0
    {
      OnlyNodesAll(kids[n], depth[n] + 1);
    }

    lemma {:induction false} OnlyNodesAll(ks: seq<Node>, d: nat)
      requires Wf() && Level(ks, d)
      ensures forall m :: m in PreAll(ks, d) ==> m in kids
      decreases bound - d, 1, |ks|
    {
      if ks != [] {
        OnlyNodes(ks[0]);
        OnlyNodesAll(ks[1..], d);
      }
    }

    lemma RootAbove(m: Node)
      requires Wf() && m in kids
      ensures Below(root, m)
    {
      if Ancestor(m, 0) != root {
        assert Ancestor(m, 0) in up;
        assert false;
      }
    }

    /** A walk from the root comes to every node, and to none twice. */
    lemma EveryNodeOnce()
      requires Wf()
      ensures root in kids
      ensures forall m :: m in Pre(root) <==> m in kids
      ensures forall i, j :: 0 <= i < j < |Pre(root)| ==> Pre(root)[i] != Pre(root)[j]
    {
      var s := Pre(root);
      OnlyNodes(root);
      forall m | m in kids ensures multiset(s)[m] == 1 {
        Once(root, m);
        RootAbove(m);
      }
      hide Wf;
      forall m | m in kids ensures m in s {
        assert m in multiset(s);
      }
      CountedOnce(s);
    }

    lemma InPre(n: Node, m: Node)
      requires Wf() && n in kids && m in kids && Below(n, m)
      ensures m in Pre(n)
    {
      Once(n, m);
      assert m in multiset(Pre(n));
    }

    /** The order of the walk: a node comes before what is below it. */
    lemma AboveFirst(n: Node, m: Node)
      requires Wf() && n in kids && m in kids && Below(n, m) && n != m
      ensures root in kids && Earlier(Pre(root), n, m)
    {
      hide Wf, Level, PreAll, Pre, Below, Rest, Earlier;
      InUp(n);
      Cut(n);
      InPre(n, m);
      HereAndOn(n);
      SplitEarlier(Before(n), n, Todo(n), Pre(n), Rest(n), m);
      RootIn();
    }

    /** What is below a child is in front of a later one. */
    lemma InBefore(p: Node, i: nat, j: nat, x: Node)
      requires Wf() && p in kids && i < j < |kids[p]| && x in kids
      requires kids[p][i] in kids && Below(kids[p][i], x)
      ensures kids[p][j] in kids && x in Before(kids[p][j])
    {
      var k, d := kids[p][j], depth[p] + 1;
      InUp(p);
      KidAt(p, i);
      KidAt(p, j);
      KidsApart(p);
      Slice(kids[p], d, j);
      BelowKid(p, i, x);
      hide Wf, Level, PreAll, Pre, Below, Ancestor;
      assert kids[p][..j][i] == kids[p][i];
      OnceAll(kids[p][..j], d, x);
      assert x in multiset(PreAll(kids[p][..j], d));
      BeforeKid(p, j);
    }

    lemma BelowKid(p: Node, i: nat, x: Node)
      requires Wf() && p in kids && i < |kids[p]| && x in kids
      requires kids[p][i] in kids && Below(kids[p][i], x)
      ensures p in depth && x in depth && depth[p] + 1 <= depth[x] && Ancestor(x, depth[p] + 1) == kids[p][i]
    {
      KidAt(p, i);
    }

    lemma BeforeKid(p: Node, j: nat)
      requires Wf() && p in kids && j < |kids[p]|
      ensures p in depth && kids[p][j] in kids && Level(kids[p][..j], depth[p] + 1)
      ensures Before(kids[p][j]) == Before(p) + [p] + PreAll(kids[p][..j], depth[p] + 1)
    {
      InUp(p);
      KidAt(p, j);
      Slice(kids[p], depth[p] + 1, j);
    }

    /** And all that is below a child comes before all that is below a later one. */
    lemma LeftFirst(p: Node, i: nat, j: nat, x: Node, y: Node)
      requires Wf() && p in kids && i < j < |kids[p]| && x in kids && y in kids
      requires kids[p][i] in kids && Below(kids[p][i], x)
      requires kids[p][j] in kids && Below(kids[p][j], y)
      ensures root in kids && Earlier(Pre(root), x, y)
    {
      hide Wf, PreAll, Pre, Below, Rest, Earlier, Todo, Before;
      var k := kids[p][j];
      RootIn();
      InBefore(p, i, j, x);
      Cut(k);
      InPre(k, y);
      HereAndOn(k);
      BothParts(Before(k), [k] + Todo(k), x, y);
      assert Pre(root) == Before(k) + ([k] + Todo(k));
    }

    lemma RootIn()
      requires Wf()
      ensures root in kids
    {
    }

    /** A tree without a node of this one has a place among the children of a node. */
    ghost predicate Fits(p: Node, sub: Shape, at: nat) {
      Wf() && sub.Wf() && p in kids && kids.Keys !! sub.kids.Keys && at <= |kids[p]|
    }

    /** The tree with another one in that place. */
    ghost function With(p: Node, sub: Shape, at: nat): Shape
      requires Fits(p, sub, at)
    {
      Shape(root, kids[p := InsertAt(kids[p], at, sub.root)] + sub.kids, up + sub.up[sub.root := p],
            depth + map n | n in sub.depth :: depth[p] + 1 + sub.depth[n], bound + sub.bound)
    }

    /** Its fields for a node of this tree. */
    lemma Mine(p: Node, sub: Shape, at: nat, q: Node)
      requires Fits(p, sub, at) && q in kids
      ensures Wf() && sub.Wf() && p in kids && at <= |kids[p]| && q !in sub.kids && q in depth && depth[q] < bound
      ensures var t := With(p, sub, at);
              && q in t.kids && t.kids[q] == (if q == p then InsertAt(kids[p], at, sub.root) else kids[q])
              && q in t.depth && t.depth[q] == depth[q] < t.bound
              && (q in t.up <==> q in up) && (q in up ==> t.up[q] == up[q])
    {
    }

    /** And for one of the other. */
    lemma Theirs(p: Node, sub: Shape, at: nat, q: Node)
      requires Fits(p, sub, at) && q in sub.kids
      ensures Wf() && sub.Wf() && p in kids && p in depth && at <= |kids[p]| && q !in kids
      ensures q in sub.depth && sub.depth[q] < sub.bound && sub.root in sub.depth && sub.depth[sub.root] == 0
      ensures var t := With(p, sub, at);
              && q in t.kids && t.kids[q] == sub.kids[q]
              && q in t.depth && t.depth[q] == depth[p] + 1 + sub.depth[q] < t.bound
              && q in t.up && (q in sub.up <==> q != sub.root) && t.up[q] == if q == sub.root then p else sub.up[q]
    {
    }

    lemma WithKid(p: Node, sub: Shape, at: nat, q: Node, i: nat)
      requires Fits(p, sub, at) && q in With(p, sub, at).kids && i < |With(p, sub, at).kids[q]|
      ensures var t := With(p, sub, at); t.IsKid(q, t.kids[q][i])
    {
      hide Wf, With, Fits, InsertAt;
      Keys(p, sub, at);
      var k := With(p, sub, at).kids[q][i];
      if q in sub.kids {
        Theirs(p, sub, at, q);
        sub.KidAt(q, i);
        Theirs(p, sub, at, k);
      } else {
        Mine(p, sub, at, q);
        InsertedAt(kids[p], at, sub.root, i);
        if q == p && i == at {
          Theirs(p, sub, at, k);
        } else {
          KidAt(q, if q == p && i > at then i - 1 else i);
          Mine(p, sub, at, k);
        }
      }
    }

    lemma WithUp(p: Node, sub: Shape, at: nat, m: Node)
      requires Fits(p, sub, at) && m in With(p, sub, at).up
      ensures var t := With(p, sub, at); t.up[m] in t.kids && m in t.kids[t.up[m]]
    {
      hide Wf, With, Fits;
      Keys(p, sub, at);
      if m in kids {
        Mine(p, sub, at, m);
        Kid(m);
        Mine(p, sub, at, up[m]);
        if up[m] == p {
          StillIn(kids[p], sub.root, at, m);
        }
      } else {
        Theirs(p, sub, at, m);
        if m == sub.root {
          Mine(p, sub, at, p);
          assert InsertAt(kids[p], at, sub.root)[at] == sub.root;
        } else {
          sub.Kid(m);
          Theirs(p, sub, at, sub.up[m]);
        }
      }
    }

    lemma WithDistinct(p: Node, sub: Shape, at: nat, q: Node)
      requires Fits(p, sub, at) && q in With(p, sub, at).kids
      ensures var ks := With(p, sub, at).kids[q]; forall i, j :: 0 <= i < j < |ks| ==> ks[i] != ks[j]
    {
      hide Wf, With, Fits, InsertAt;
      Keys(p, sub, at);
      if q in sub.kids {
        Theirs(p, sub, at, q);
        sub.KidsApart(q);
      } else {
        Mine(p, sub, at, q);
        KidsApart(q);
        if q == p {
          KidsIn(p);
          Theirs(p, sub, at, sub.root);
          InsertedApart(kids[p], at, sub.root);
        }
      }
    }

    lemma Keys(p: Node, sub: Shape, at: nat)
      requires Fits(p, sub, at)
      ensures var t := With(p, sub, at);
              && p in kids && root in t.kids && t.root == root && sub.root in sub.kids
              && t.kids.Keys == kids.Keys + sub.kids.Keys
              && t.depth.Keys == t.kids.Keys && t.up.Keys == t.kids.Keys - {root} && t.depth[root] == 0
    {
    }

    lemma WithWf(p: Node, sub: Shape, at: nat)
      requires Fits(p, sub, at)
      ensures With(p, sub, at).Wf()
    {
      hide With, Fits, IsKid;
      var t := With(p, sub, at);
      Keys(p, sub, at);
      forall n | n in t.kids ensures t.depth[n] < t.bound {
        if n in kids {
          Mine(p, sub, at, n);
        } else {
          Theirs(p, sub, at, n);
        }
      }
      forall q, i | q in t.kids && 0 <= i < |t.kids[q]| ensures t.IsKid(q, t.kids[q][i]) {
        WithKid(p, sub, at, q, i);
      }
      forall m | m in t.up ensures t.up[m] in t.kids && m in t.kids[t.up[m]] {
        WithUp(p, sub, at, m);
      }
      forall q | q in t.kids ensures forall i, j :: 0 <= i < j < |t.kids[q]| ==> t.kids[q][i] != t.kids[q][j] {
        WithDistinct(p, sub, at, q);
      }
    }
  }

  // ----- the walk of a tree that grew -----

  /** A sequence without some of its nodes. */
  function Struck(w: seq<Node>, ns: set<Node>): seq<Node> {
    if w == [] then [] else (if w[0] in ns then [] else [w[0]]) + Struck(w[1..], ns)
  }

  lemma {:induction false} StruckConcat(v: seq<Node>, w: seq<Node>, ns: set<Node>)
    ensures Struck(v + w, ns) == Struck(v, ns) + Struck(w, ns)
    decreases |v|
  {
    if v == [] {
      assert v + w == w;
    } else {
      assert (v + w)[1..] == v[1..] + w;
      StruckConcat(v[1..], w, ns);
    }
  }

  lemma {:induction false} AllStruck(w: seq<Node>, ns: set<Node>)
    requires forall n :: n in w ==> n in ns
    ensures Struck(w, ns) == []
  {
    if w != [] {
      AllStruck(w[1..], ns);
    }
  }

  /** The new nodes are walked as in their own tree. */
  lemma {:induction false} SubKept(s: Shape, p: Node, sub: Shape, at: nat, m: Node)
    requires s.Fits(p, sub, at) && m in sub.kids
    ensures s.With(p, sub, at).Wf() && m in s.With(p, sub, at).kids && s.With(p, sub, at).Pre(m) == sub.Pre(m)
    decreases sub.bound - sub.depth[m], 0, 0
  {
    hide s.Fits, s.Wf, s.Level, s.PreAll, s.With;
    s.WithWf(p, sub, at);
    s.Theirs(p, sub, at, m);
    sub.InUp(m);
    SubKeptAll(s, p, sub, at, sub.kids[m], sub.depth[m] + 1);
  }

  lemma {:induction false} SubKeptAll(s: Shape, p: Node, sub: Shape, at: nat, ks: seq<Node>, d: nat)
    requires s.Fits(p, sub, at) && p in s.depth && sub.Wf() && sub.Level(ks, d)
    ensures var t := s.With(p, sub, at);
            && t.Wf() && t.Level(ks, s.depth[p] + 1 + d) && t.PreAll(ks, s.depth[p] + 1 + d) == sub.PreAll(ks, d)
    decreases sub.bound - d, 1, |ks|
  {
    s.WithWf(p, sub, at);
    SubLevel(s, p, sub, at, ks, d);
    hide s.Fits, s.Wf, s.Level, s.Pre, s.With;
    if ks != [] {
      sub.FirstOf(ks, d);
      sub.AtLevel(ks, d, ks[0]);
      SubKept(s, p, sub, at, ks[0]);
      SubKeptAll(s, p, sub, at, ks[1..], d);
    }
  }

  lemma SubLevel(s: Shape, p: Node, sub: Shape, at: nat, ks: seq<Node>, d: nat)
    requires s.Fits(p, sub, at) && p in s.depth && sub.Level(ks, d)
    ensures s.With(p, sub, at).Level(ks, s.depth[p] + 1 + d)
  {
    forall i | 0 <= i < |ks| ensures s.With(p, sub, at).depth[ks[i]] == s.depth[p] + 1 + d {
      s.Theirs(p, sub, at, ks[i]);
    }
  }

  /** The new nodes are where they were put, and all others come in the order of before. */
  lemma {:induction false} OrderKept(s: Shape, p: Node, sub: Shape, at: nat, m: Node)
    requires s.Fits(p, sub, at) && m in s.kids
    ensures s.Wf() && s.With(p, sub, at).Wf() && m in s.With(p, sub, at).kids
    ensures Struck(s.With(p, sub, at).Pre(m), sub.kids.Keys) == s.Pre(m)
    decreases s.bound - s.depth[m], 0, 0
  {
    hide s.Fits, s.Wf, s.Level, s.PreAll, s.With;
    var t, ns := s.With(p, sub, at), sub.kids.Keys;
    s.WithWf(p, sub, at);
    Outside(s, p, sub, at, m);
    s.InUp(m);
    t.InUp(m);
    var d := s.depth[m] + 1;
    if m == p {
      var before, after := s.kids[p][..at], s.kids[p][at..];
      s.Slice(s.kids[p], d, at);
      assert s.kids[p] == before + after;
      OrderKeptAll(s, p, sub, at, before, d);
      OrderKeptAll(s, p, sub, at, after, d);
      OrderKeptAt(s, p, sub, at, before, after, d);
    } else {
      OrderKeptAll(s, p, sub, at, s.kids[m], d);
    }
    StruckConcat([m], t.PreAll(t.kids[m], d), ns);
  }

  lemma Outside(s: Shape, p: Node, sub: Shape, at: nat, m: Node)
    requires s.Fits(p, sub, at) && m in s.kids
    ensures s.Wf() && p in s.kids && at <= |s.kids[p]| && m !in sub.kids
    ensures var t := s.With(p, sub, at);
            && m in t.kids && m in t.depth && m in s.depth && t.depth[m] == s.depth[m]
            && t.kids[m] == if m == p then s.kids[p][..at] + ([sub.root] + s.kids[p][at..]) else s.kids[m]
  {
    hide s.Wf, s.Fits, s.With;
    s.Mine(p, sub, at, m);
    assert s.kids[p][..at] + [sub.root] + s.kids[p][at..] == s.kids[p][..at] + ([sub.root] + s.kids[p][at..]);
  }

  lemma OrderKeptAt(s: Shape, p: Node, sub: Shape, at: nat, before: seq<Node>, after: seq<Node>, d: nat)
    requires s.Fits(p, sub, at) && p in s.depth && d == s.depth[p] + 1
    requires s.Wf() && s.Level(before, d) && s.Level(after, d)
    requires var t := s.With(p, sub, at);
             && t.Wf() && t.Level(before, d) && t.Level(after, d)
             && Struck(t.PreAll(before, d), sub.kids.Keys) == s.PreAll(before, d)
             && Struck(t.PreAll(after, d), sub.kids.Keys) == s.PreAll(after, d)
    ensures var t := s.With(p, sub, at);
            && t.Level(before + ([sub.root] + after), d) && s.Level(before + after, d)
            && Struck(t.PreAll(before + ([sub.root] + after), d), sub.kids.Keys) == s.PreAll(before + after, d)
  {
    hide s.Fits, s.Wf, s.Level, s.PreAll, s.With;
    var t, ns := s.With(p, sub, at), sub.kids.Keys;
    s.PreAllConcat(before, after, d);
    SubWalk(s, p, sub, at, after, d);
    t.PreAllConcat(before, [sub.root] + after, d);
    StruckConcat(t.PreAll(before, d), sub.Pre(sub.root) + t.PreAll(after, d), ns);
    StruckConcat(sub.Pre(sub.root), t.PreAll(after, d), ns);
    sub.OnlyNodes(sub.root);
    AllStruck(sub.Pre(sub.root), ns);
  }

  lemma RootIn(s: Shape, p: Node, sub: Shape, at: nat)
    requires s.Fits(p, sub, at)
    ensures sub.Wf() && sub.root in sub.kids
  {
  }

  lemma SubWalk(s: Shape, p: Node, sub: Shape, at: nat, after: seq<Node>, d: nat)
    requires s.Fits(p, sub, at) && p in s.depth && d == s.depth[p] + 1
    requires s.With(p, sub, at).Level(after, d)
    ensures var t := s.With(p, sub, at);
            && t.Wf() && t.Level([sub.root] + after, d) && sub.Wf() && sub.root in sub.kids
            && t.PreAll([sub.root] + after, d) == sub.Pre(sub.root) + t.PreAll(after, d)
  {
    RootIn(s, p, sub, at);
    hide s.Pre, s.PreAll, s.Level, s.Wf, s.With, s.Fits;
    var t := s.With(p, sub, at);
    s.WithWf(p, sub, at);
    s.Theirs(p, sub, at, sub.root);
    SubKept(s, p, sub, at, sub.root);
    t.OneMoreAt(sub.root, after, d);
    assert ([sub.root] + after)[1..] == after;
    t.FirstOf([sub.root] + after, d);
  }

  lemma {:induction false} OrderKeptAll(s: Shape, p: Node, sub: Shape, at: nat, ks: seq<Node>, d: nat)
    requires s.Fits(p, sub, at) && s.Wf() && s.Level(ks, d)
    ensures s.With(p, sub, at).Wf() && s.With(p, sub, at).Level(ks, d)
    ensures Struck(s.With(p, sub, at).PreAll(ks, d), sub.kids.Keys) == s.PreAll(ks, d)
    decreases s.bound - d, 1, |ks|
  {
    var t := s.With(p, sub, at);
    s.WithWf(p, sub, at);
    OutsideLevel(s, p, sub, at, ks, d);
    hide s.Fits, s.Wf, s.Level, s.Pre, s.With;
    if ks != [] {
      s.FirstOf(ks, d);
      s.AtLevel(ks, d, ks[0]);
      t.FirstOf(ks, d);
      OrderKept(s, p, sub, at, ks[0]);
      OrderKeptAll(s, p, sub, at, ks[1..], d);
      StruckConcat(t.Pre(ks[0]), t.PreAll(ks[1..], d), sub.kids.Keys);
    }
  }

  lemma OutsideLevel(s: Shape, p: Node, sub: Shape, at: nat, ks: seq<Node>, d: nat)
    requires s.Fits(p, sub, at) && s.Level(ks, d)
    ensures s.With(p, sub, at).Level(ks, d)
  {
    forall i | 0 <= i < |ks| ensures s.With(p, sub, at).depth[ks[i]] == d {
      Outside(s, p, sub, at, ks[i]);
    }
  }
}

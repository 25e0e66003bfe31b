/**
 * The node graph of ast/ast.go. Every Go node is a record in an arena,
 * addressed by its index: its kind, its child slots (nil or a node) and its
 * parent pointer. A ghost rank that strictly grows from a node to each of
 * its children witnesses that following child slots never loops back.
 *
 * `View` unfolds the graph below a node into an id-labelled tree; `Erase`
 * forgets the ids, giving the value-level `Tree`. The Go program leaves stale
 * parent pointers and child slots in nodes it has dropped, so tree-ness
 * (`Unique`) and parent consistency (`Linked`) are properties of one live
 * tree, not of the whole arena.
 */
module Heap {
  import opened Kinds
  import opened Trees

  /** A child slot or parent pointer: nil, or the index of a node. */
  datatype Link = Nil | Ref(id: nat)

  datatype NodeRec = NodeRec(kind: Kind, children: seq<Link>, parent: Link)

  /** A tree whose nodes remember which arena record they are. */
  datatype ITree = IHole | INode(id: nat, kind: Kind, kids: seq<ITree>)

  function MaxRank(rank: seq<nat>): (m: nat)
    ensures forall i | 0 <= i < |rank| :: rank[i] <= m
  {
    if rank == [] then 0
    else
      var m := MaxRank(rank[1..]);
      assert forall i | 1 <= i < |rank| :: rank[i] == rank[1..][i - 1];
      if rank[0] > m then rank[0] else m
  }

  predicate LinkIn(l: Link, n: nat)
  {
    l.Ref? ==> l.id < n
  }

  /**
   * A record that could sit at rank `r` in an arena ranked by `rank`: it has
   * its kind's arity, and its links stay in the arena and go to higher ranks.
   */
  predicate RecFits(rec: NodeRec, rank: seq<nat>, r: nat)
  {
    |rec.children| == Arity(rec.kind) && LinkIn(rec.parent, |rank|) &&
    forall j | 0 <= j < |rec.children| ::
      LinkIn(rec.children[j], |rank|) &&
      (rec.children[j].Ref? ==> r < rank[rec.children[j].id])
  }

  predicate RecOK(ns: seq<NodeRec>, rank: seq<nat>, i: nat)
    requires |rank| == |ns| && i < |ns|
  {
    RecFits(ns[i], rank, rank[i])
  }

  predicate WellFormed(ns: seq<NodeRec>, rank: seq<nat>)
  {
    |rank| == |ns| && forall i | 0 <= i < |ns| :: RecOK(ns, rank, i)
  }

  /** The tree reached from node `i` by following child slots. */
  function View(ns: seq<NodeRec>, rank: seq<nat>, i: nat): ITree
    requires WellFormed(ns, rank) && i < |ns|
    decreases MaxRank(rank) - rank[i]
  {
    var rec := ns[i];
    assert RecOK(ns, rank, i);
    INode(i, rec.kind, seq(|rec.children|, j requires 0 <= j < |rec.children| =>
      if rec.children[j].Nil? then IHole else View(ns, rank, rec.children[j].id)))
  }

  function Erase(t: ITree): Tree
  {
    match t
    case IHole => Hole
    case INode(_, k, kids) => Node(k, EraseIn(kids))
  }

  function EraseIn(ks: seq<ITree>): seq<Tree>
  {
    seq(|ks|, j requires 0 <= j < |ks| => Erase(ks[j]))
  }

  /** The ids of a tree in pre-order, nil slots skipped. */
  function Ids(t: ITree): seq<nat>
  {
    match t
    case IHole => []
    case INode(id, _, kids) => [id] + IdsIn(kids)
  }

  function IdsIn(ks: seq<ITree>): seq<nat>
  {
    if ks == [] then [] else Ids(ks[0]) + IdsIn(ks[1..])
  }

  predicate Distinct(s: seq<nat>)
  {
    forall a, b | 0 <= a < b < |s| :: s[a] != s[b]
  }

  /** No node is reachable twice: the graph below the root really is a tree. */
  predicate Unique(t: ITree)
  {
    Distinct(Ids(t))
  }

  /** Every reachable node's parent pointer names the node whose slot holds it. */
  predicate Linked(ns: seq<NodeRec>, t: ITree)
  {
    match t
    case IHole => true
    case INode(id, _, kids) =>
      forall j | 0 <= j < |kids| ::
        Linked(ns, kids[j]) &&
        (kids[j].INode? ==> kids[j].id < |ns| && ns[kids[j].id].parent == Ref(id))
  }

  /** A live tree rooted at `root`: acyclic, shared nowhere, parent pointers consistent. */
  predicate TreeOK(ns: seq<NodeRec>, rank: seq<nat>, root: nat)
  {
    WellFormed(ns, rank) && root < |ns| &&
    Unique(View(ns, rank, root)) && Linked(ns, View(ns, rank, root))
  }

  /** Every subtree carrying id `o` replaced by `x`. */
  function ReplaceSub(t: ITree, o: nat, x: ITree): ITree
  {
    match t
    case IHole => IHole
    case INode(id, k, kids) => if id == o then x else INode(id, k, ReplaceSubIn(kids, o, x))
  }

  function ReplaceSubIn(ks: seq<ITree>, o: nat, x: ITree): seq<ITree>
  {
    seq(|ks|, j requires 0 <= j < |ks| => ReplaceSub(ks[j], o, x))
  }

  /** The slots of `cs` that hold `from` made to hold `to` (the loops of ReplaceNode and Mutate). */
  function Redirected(cs: seq<Link>, from: Link, to: Link): (r: seq<Link>)
    ensures |r| == |cs|
    ensures forall j | 0 <= j < |cs| :: r[j] == (if cs[j] == from then to else cs[j])
  {
    seq(|cs|, j requires 0 <= j < |cs| => if cs[j] == from then to else cs[j])
  }

  /** Two records that agree on everything a view looks at. */
  predicate SameShape(a: NodeRec, b: NodeRec)
  {
    a.kind == b.kind && a.children == b.children
  }

  /** A slice of `n` nil slots, as `make([]Node, n)` allocates. */
  function Nils(n: nat): (r: seq<Link>)
    ensures |r| == n && forall j | 0 <= j < n :: r[j] == Nil
  {
    seq(n, _ => Nil)
  }

  function Range(lo: nat, hi: nat): (r: seq<nat>)
    requires lo <= hi
    ensures |r| == hi - lo && forall k | 0 <= k < |r| :: r[k] == lo + k
  {
    seq(hi - lo, k requires 0 <= k < hi - lo => lo + k)
  }

  // ---------------------------------------------------------------------
  // Sequences of ids.

  lemma DistinctAppend(x: seq<nat>, y: seq<nat>)
    ensures Distinct(x + y) <==> Distinct(x) && Distinct(y) && forall v | v in x :: v !in y
  {
    var s := x + y;
    if Distinct(s) {
      forall a, b | 0 <= a < b < |x| ensures x[a] != x[b] {
        assert x[a] == s[a] && x[b] == s[b];
      }
      forall a, b | 0 <= a < b < |y| ensures y[a] != y[b] {
        assert y[a] == s[|x| + a] && y[b] == s[|x| + b];
      }
      forall a, b | 0 <= a < |x| && 0 <= b < |y| ensures x[a] != y[b] {
        assert x[a] == s[a] && y[b] == s[|x| + b];
      }
    }
    if Distinct(x) && Distinct(y) && forall v | v in x :: v !in y {
      forall a, b | 0 <= a < b < |s| ensures s[a] != s[b] {
        if b < |x| {
          assert s[a] == x[a] && s[b] == x[b];
        } else if a >= |x| {
          assert s[a] == y[a - |x|] && s[b] == y[b - |x|];
        } else {
          assert s[a] == x[a] && s[b] == y[b - |x|];
          assert x[a] in x;
        }
      }
    }
  }

  lemma RangeAppend(a: nat, b: nat, c: nat)
    requires a <= b <= c
    ensures Range(a, b) + Range(b, c) == Range(a, c)
  {
  }

  lemma RangeDistinct(a: nat, b: nat)
    requires a <= b
    ensures Distinct(Range(a, b))
    ensures forall x | x in Range(a, b) :: a <= x < b
  {
  }

  // ---------------------------------------------------------------------
  // Ids, erasure and sizes.

  lemma {:induction false} IdsInAppend(a: seq<ITree>, b: seq<ITree>)
    ensures IdsIn(a + b) == IdsIn(a) + IdsIn(b)
  {
    if a == [] {
      assert a + b == b;
    } else {
      assert (a + b)[0] == a[0];
      assert (a + b)[1..] == a[1..] + b;
      IdsInAppend(a[1..], b);
    }
  }

  /** The ids below one child form a contiguous slice of the ids below all children. */
  lemma IdsInSlice(ks: seq<ITree>, j: nat)
    requires j < |ks|
    ensures IdsIn(ks) == IdsIn(ks[..j]) + Ids(ks[j]) + IdsIn(ks[j + 1..])
  {
    var b := ks[j..];
    assert ks == ks[..j] + b;
    IdsInAppend(ks[..j], b);
    assert b[0] == ks[j] && b[1..] == ks[j + 1..];
  }

  /** Node k of child j's tree comes after the node itself and the earlier children's nodes. */
  lemma IdsOfKid(t: ITree, j: nat, k: nat)
    requires t.INode? && j < |t.kids| && k < |Ids(t.kids[j])|
    ensures 1 + |IdsIn(t.kids[..j])| + k < |Ids(t)|
    ensures Ids(t)[1 + |IdsIn(t.kids[..j])| + k] == Ids(t.kids[j])[k]
  {
    IdsInSlice(t.kids, j);
    assert Ids(t) == [t.id] + IdsIn(t.kids[..j]) + Ids(t.kids[j]) + IdsIn(t.kids[j + 1..]);
  }

  lemma IdsInPrefix(ks: seq<ITree>, j: nat)
    requires j < |ks|
    ensures IdsIn(ks[..j + 1]) == IdsIn(ks[..j]) + Ids(ks[j])
  {
    assert ks[..j + 1] == ks[..j] + [ks[j]];
    IdsInAppend(ks[..j], [ks[j]]);
    assert IdsIn([ks[j]]) == Ids(ks[j]) + IdsIn([]);
  }

  /** An id below the children lies below one particular child. */
  lemma {:induction false} IdsInMember(ks: seq<ITree>, x: nat) returns (j: nat)
    requires x in IdsIn(ks)
    ensures j < |ks| && x in Ids(ks[j])
  {
    if x in Ids(ks[0]) {
      j := 0;
    } else {
      var j' := IdsInMember(ks[1..], x);
      j := j' + 1;
    }
  }

  /** A child's ids are ids of its parent's tree, and a unique tree has unique subtrees. */
  lemma KidIds(t: ITree, j: nat)
    requires t.INode? && j < |t.kids|
    ensures forall x | x in Ids(t.kids[j]) :: x in Ids(t)
    ensures Unique(t) ==> Unique(t.kids[j]) && t.id !in Ids(t.kids[j])
  {
    IdsInSlice(t.kids, j);
    if Unique(t) {
      DistinctAppend([t.id], IdsIn(t.kids));
      DistinctAppend(IdsIn(t.kids[..j]) + Ids(t.kids[j]), IdsIn(t.kids[j + 1..]));
      DistinctAppend(IdsIn(t.kids[..j]), Ids(t.kids[j]));
    }
  }

  /** In a unique tree, different children share no id. */
  lemma KidsDisjoint(t: ITree, j1: nat, j2: nat)
    requires t.INode? && j1 < j2 < |t.kids| && Unique(t)
    ensures forall x | x in Ids(t.kids[j1]) :: x !in Ids(t.kids[j2])
  {
    var ks := t.kids;
    DistinctAppend([t.id], IdsIn(ks));
    IdsInSlice(ks, j1);
    var rest := ks[j1 + 1..];
    var front := IdsIn(ks[..j1]) + Ids(ks[j1]);
    assert IdsIn(ks) == front + IdsIn(rest);
    assert ks[j2] == rest[j2 - j1 - 1];
    IdsInSlice(rest, j2 - j1 - 1);
    DistinctAppend(front, IdsIn(rest));
    assert forall x | x in Ids(ks[j2]) :: x in IdsIn(rest);
    assert forall x | x in Ids(ks[j1]) :: x in front;
  }

  lemma EraseInCons(ks: seq<ITree>)
    requires ks != []
    ensures EraseIn(ks) == [Erase(ks[0])] + EraseIn(ks[1..])
  {
  }

  lemma EraseInPrefix(ks: seq<ITree>, j: nat)
    requires j <= |ks|
    ensures EraseIn(ks[..j]) == EraseIn(ks)[..j]
  {
  }

  /** A tree has one id per node. */
  lemma {:induction false} IdsSize(t: ITree)
    ensures |Ids(t)| == Size(Erase(t))
  {
    match t
    case IHole =>
    case INode(_, _, kids) => IdsInSize(kids);
  }

  lemma {:induction false} IdsInSize(ks: seq<ITree>)
    ensures |IdsIn(ks)| == SizeIn(EraseIn(ks))
  {
    if ks != [] {
      EraseInCons(ks);
      IdsSize(ks[0]);
      IdsInSize(ks[1..]);
    }
  }

  lemma {:induction false} ReplaceSubAbsent(t: ITree, o: nat, x: ITree)
    requires o !in Ids(t)
    ensures ReplaceSub(t, o, x) == t
  {
    match t
    case IHole =>
    case INode(id, k, kids) =>
      forall j | 0 <= j < |kids| ensures ReplaceSub(kids[j], o, x) == kids[j] {
        KidIds(t, j);
        ReplaceSubAbsent(kids[j], o, x);
      }
  }

  /**
   * In a unique tree, replacing the node with the n-th id is substitution at
   * pre-order index n of the erased tree.
   */
  lemma {:induction false} EraseReplace(t: ITree, n: nat, x: ITree)
    requires Unique(t) && n < |Ids(t)|
    ensures (IdsSize(t); n < Size(Erase(t)))
    ensures Erase(ReplaceSub(t, Ids(t)[n], x)) == Subst(Erase(t), n, Erase(x))
  {
    IdsSize(t);
    if n > 0 {
      var o := Ids(t)[n];
      DistinctAppend([t.id], IdsIn(t.kids));
      assert o == IdsIn(t.kids)[n - 1];
      assert o in IdsIn(t.kids);
      assert t.id != o;
      assert ReplaceSub(t, o, x) == INode(t.id, t.kind, ReplaceSubIn(t.kids, o, x));
      EraseReplaceIn(t.kids, n - 1, x);
    }
  }

  lemma {:induction false} EraseReplaceIn(ks: seq<ITree>, m: nat, x: ITree)
    requires Distinct(IdsIn(ks)) && m < |IdsIn(ks)|
    ensures (IdsInSize(ks); m < SizeIn(EraseIn(ks)))
    ensures EraseIn(ReplaceSubIn(ks, IdsIn(ks)[m], x)) == SubstIn(EraseIn(ks), m, Erase(x))
  {
    IdsInSize(ks);
    var o := IdsIn(ks)[m];
    var e := EraseIn(ks);
    var rs := ReplaceSubIn(ks, o, x);
    EraseInCons(ks);
    EraseInCons(rs);
    assert rs[1..] == ReplaceSubIn(ks[1..], o, x);
    DistinctAppend(Ids(ks[0]), IdsIn(ks[1..]));
    IdsSize(ks[0]);
    if m < |Ids(ks[0])| {
      assert o == Ids(ks[0])[m];
      EraseReplace(ks[0], m, x);
      ReplaceSubInAbsent(ks[1..], o, x);
    } else {
      var m' := m - |Ids(ks[0])|;
      assert o == IdsIn(ks[1..])[m'];
      ReplaceSubAbsent(ks[0], o, x);
      EraseReplaceIn(ks[1..], m', x);
    }
  }

  lemma ReplaceSubInAbsent(ks: seq<ITree>, o: nat, x: ITree)
    requires o !in IdsIn(ks)
    ensures ReplaceSubIn(ks, o, x) == ks
  {
    forall j | 0 <= j < |ks| ensures ReplaceSub(ks[j], o, x) == ks[j] {
      IdsInSlice(ks, j);
      ReplaceSubAbsent(ks[j], o, x);
    }
  }

  // ---------------------------------------------------------------------
  // Views.

  /** A view follows the records' kinds and arities, so its erasure is well shaped. */
  lemma {:induction false} ViewShaped(ns: seq<NodeRec>, rank: seq<nat>, i: nat)
    requires WellFormed(ns, rank) && i < |ns|
    ensures Shaped(Erase(View(ns, rank, i)))
    decreases MaxRank(rank) - rank[i]
  {
    assert RecOK(ns, rank, i);
    var cs := ns[i].children;
    var t := View(ns, rank, i);
    var e := Erase(t);
    assert |t.kids| == |cs| && e.kids == EraseIn(t.kids);
    forall j | 0 <= j < |e.kids| ensures Shaped(e.kids[j]) {
      assert e.kids[j] == Erase(t.kids[j]);
      if cs[j].Ref? {
        ViewShaped(ns, rank, cs[j].id);
      }
    }
  }

  /** Ids reached from `i` are in the arena and ranked no lower than `i`; proper descendants strictly higher. */
  lemma {:induction false} RankBelow(ns: seq<NodeRec>, rank: seq<nat>, i: nat)
    requires WellFormed(ns, rank) && i < |ns|
    ensures forall x | x in Ids(View(ns, rank, i)) :: x < |ns| && rank[i] <= rank[x]
    ensures forall x | x in IdsIn(View(ns, rank, i).kids) :: x < |ns| && rank[i] < rank[x]
    decreases MaxRank(rank) - rank[i]
  {
    var t := View(ns, rank, i);
    assert RecOK(ns, rank, i);
    forall x | x in IdsIn(t.kids) ensures x < |ns| && rank[i] < rank[x] {
      var j := IdsInMember(t.kids, x);
      var c := ns[i].children[j].id;
      RankBelow(ns, rank, c);
    }
  }

  /** What a view shows depends only on the kinds and child slots of the records it reaches. */
  lemma {:induction false} ViewFrame(ns: seq<NodeRec>, rank: seq<nat>, ns': seq<NodeRec>, rank': seq<nat>, i: nat)
    requires WellFormed(ns, rank) && WellFormed(ns', rank') && i < |ns|
    requires forall x | x in Ids(View(ns, rank, i)) :: x < |ns| && x < |ns'| && SameShape(ns'[x], ns[x])
    ensures i < |ns'| && View(ns', rank', i) == View(ns, rank, i)
    decreases MaxRank(rank) - rank[i]
  {
    var t := View(ns, rank, i);
    assert Ids(t)[0] == i;
    assert RecOK(ns, rank, i);
    var cs := ns[i].children;
    forall j | 0 <= j < |cs| && cs[j].Ref?
      ensures cs[j].id < |ns'| && View(ns', rank', cs[j].id) == View(ns, rank, cs[j].id)
    {
      KidIds(t, j);
      ViewFrame(ns, rank, ns', rank', cs[j].id);
    }
    assert View(ns', rank', i).kids == t.kids;
  }

  /** Below any node of a live tree hangs a live tree whose ids are among the whole tree's. */
  lemma {:induction false} SubView(ns: seq<NodeRec>, rank: seq<nat>, i: nat, x: nat)
    requires WellFormed(ns, rank) && i < |ns| && x in Ids(View(ns, rank, i))
    ensures x < |ns|
    ensures forall y | y in Ids(View(ns, rank, x)) :: y in Ids(View(ns, rank, i))
    ensures Linked(ns, View(ns, rank, i)) ==> Linked(ns, View(ns, rank, x))
    ensures Unique(View(ns, rank, i)) ==> Unique(View(ns, rank, x))
    decreases MaxRank(rank) - rank[i]
  {
    if x != i {
      var t := View(ns, rank, i);
      assert RecOK(ns, rank, i);
      var j := IdsInMember(t.kids, x);
      var c := ns[i].children[j].id;
      KidIds(t, j);
      SubView(ns, rank, c, x);
    }
  }

  /** A node that a slot of `p` holds is in the tree below `p`. */
  lemma ChildInView(ns: seq<NodeRec>, rank: seq<nat>, p: nat, o: nat)
    requires WellFormed(ns, rank) && p < |ns| && Ref(o) in ns[p].children
    ensures o < |ns| && o in Ids(View(ns, rank, p))
  {
    assert RecOK(ns, rank, p);
    var j :| 0 <= j < |ns[p].children| && ns[p].children[j] == Ref(o);
    var t := View(ns, rank, p);
    assert t.kids[j] == View(ns, rank, o);
    assert Ids(t.kids[j])[0] == o;
    KidIds(t, j);
  }

  /** In a linked tree, a non-root node's parent pointer names a node of the tree that holds it. */
  lemma {:induction false} OwnerOf(ns: seq<NodeRec>, rank: seq<nat>, i: nat, o: nat) returns (p: nat)
    requires WellFormed(ns, rank) && i < |ns| && Linked(ns, View(ns, rank, i))
    requires o in Ids(View(ns, rank, i)) && o != i
    ensures o < |ns| && p < |ns| && ns[o].parent == Ref(p)
    ensures p in Ids(View(ns, rank, i)) && Ref(o) in ns[p].children
    decreases MaxRank(rank) - rank[i]
  {
    var t := View(ns, rank, i);
    assert RecOK(ns, rank, i);
    assert Ids(t)[0] == i;
    var j := IdsInMember(t.kids, o);
    var c := ns[i].children[j].id;
    if c == o {
      p := i;
      assert ns[i].children[j] == Ref(o);
    } else {
      KidIds(t, j);
      p := OwnerOf(ns, rank, c, o);
    }
  }

  /**
   * Redirecting the slots of `o`'s parent `p` from `o` to `w` (and changing
   * parent pointers anywhere) turns the view of a live tree containing `o`
   * into that view with `o`'s subtree replaced by `w`'s.
   */
  lemma {:induction false} Redirect(ns: seq<NodeRec>, rank: seq<nat>, ns': seq<NodeRec>, rank': seq<nat>,
                                    i: nat, o: nat, p: nat, w: nat)
    requires WellFormed(ns, rank) && WellFormed(ns', rank') && i < |ns| && |ns| <= |ns'| && w < |ns'|
    requires Unique(View(ns, rank, i)) && Linked(ns, View(ns, rank, i))
    requires o in Ids(View(ns, rank, i)) && o != i
    requires p < |ns| && o < |ns| && ns[o].parent == Ref(p) && Ref(o) in ns[p].children
    requires ns'[p].kind == ns[p].kind && ns'[p].children == Redirected(ns[p].children, Ref(o), Ref(w))
    requires forall q | 0 <= q < |ns| && q != p :: SameShape(ns'[q], ns[q])
    ensures View(ns', rank', i) == ReplaceSub(View(ns, rank, i), o, View(ns', rank', w))
    decreases MaxRank(rank) - rank[i]
  {
    var t := View(ns, rank, i);
    var t' := View(ns', rank', i);
    var x := View(ns', rank', w);
    assert RecOK(ns, rank, i);
    assert RecOK(ns', rank', i);
    var cs := ns[i].children;
    forall j | 0 <= j < |t.kids| ensures t'.kids[j] == ReplaceSub(t.kids[j], o, x) {
      KidIds(t, j);
      if cs[j].Ref? {
        var c := cs[j].id;
        if c == o {
          assert t.kids[j].id == o;
        } else if o in Ids(View(ns, rank, c)) {
          Redirect(ns, rank, ns', rank', c, o, p, w);
        } else {
          if p in Ids(View(ns, rank, c)) {
            SubView(ns, rank, c, p);
            ChildInView(ns, rank, p, o);
            assert false;
          }
          RankBelow(ns, rank, c);
          ViewFrame(ns, rank, ns', rank', c);
          ReplaceSubAbsent(View(ns, rank, c), o, x);
        }
      }
    }
    assert t'.kids == ReplaceSubIn(t.kids, o, x);
  }

  /** A tree that is the view of its own root id. */
  predicate IsView(ns: seq<NodeRec>, rank: seq<nat>, t: ITree)
    requires WellFormed(ns, rank)
  {
    t.INode? ==> t.id < |ns| && t == View(ns, rank, t.id)
  }

  /** The record with the n-th id of a view carries the n-th subtree (in pre-order) of the erased view. */
  lemma NthView(ns: seq<NodeRec>, rank: seq<nat>, i: nat, m: nat)
    requires WellFormed(ns, rank) && i < |ns| && m < |Ids(View(ns, rank, i))|
    ensures (IdsSize(View(ns, rank, i)); m < Size(Erase(View(ns, rank, i))))
    ensures Ids(View(ns, rank, i))[m] < |ns|
    ensures Erase(View(ns, rank, Ids(View(ns, rank, i))[m])) == Nth(Erase(View(ns, rank, i)), m)
  {
    IdsSize(View(ns, rank, i));
    NthViewT(ns, rank, View(ns, rank, i), m);
  }

  lemma {:induction false} NthViewT(ns: seq<NodeRec>, rank: seq<nat>, t: ITree, m: nat)
    requires WellFormed(ns, rank) && IsView(ns, rank, t) && m < |Ids(t)|
    ensures (IdsSize(t); m < Size(Erase(t)))
    ensures Ids(t)[m] < |ns| && Erase(View(ns, rank, Ids(t)[m])) == Nth(Erase(t), m)
    decreases t, 1
  {
    IdsSize(t);
    if m > 0 {
      assert RecOK(ns, rank, t.id);
      var cs := ns[t.id].children;
      forall j | 0 <= j < |t.kids| ensures IsView(ns, rank, t.kids[j]) {
        if cs[j].Ref? {
          assert t.kids[j] == View(ns, rank, cs[j].id);
        }
      }
      NthViewIn(ns, rank, t.kids, m - 1);
    }
  }

  lemma {:induction false} NthViewIn(ns: seq<NodeRec>, rank: seq<nat>, ks: seq<ITree>, m: nat)
    requires WellFormed(ns, rank) && (forall j | 0 <= j < |ks| :: IsView(ns, rank, ks[j])) && m < |IdsIn(ks)|
    ensures (IdsInSize(ks); m < SizeIn(EraseIn(ks)))
    ensures IdsIn(ks)[m] < |ns| && Erase(View(ns, rank, IdsIn(ks)[m])) == NthIn(EraseIn(ks), m)
    decreases ks, 0
  {
    IdsInSize(ks);
    EraseInCons(ks);
    IdsSize(ks[0]);
    if m < |Ids(ks[0])| {
      NthViewT(ns, rank, ks[0], m);
    } else {
      NthViewIn(ns, rank, ks[1..], m - |Ids(ks[0])|);
    }
  }
}

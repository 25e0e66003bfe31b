/**
 * The in-place operations of ast/ast.go on the node graph: node creation,
 * CopyTree, ReplaceNode, GetNthNode, Mutate, NodeCount, AddRandom and
 * AddLeaf. Every Go node lives in one `Arena`; a Go pointer is an index into
 * `nodes`. Each operation is proved against the value-level function of
 * module Trees that says what it does to the tree it is applied to.
 */
module Ast {
  import opened Kinds
  import opened Trees
  import opened Heap
  import opened HeapUpdates
  import opened Mutation
  import opened Planting

  class Arena {
    /** Every node allocated so far, live or dropped. */
    var nodes: seq<NodeRec>
    /** A witness that child slots never lead back up (see module Heap). */
    ghost var rank: seq<nat>

    ghost predicate Valid()
      reads this
    {
      WellFormed(nodes, rank)
    }

    /** `root` heads a proper tree: no node reached twice, parent pointers right. */
    ghost predicate Live(root: nat)
      reads this
    {
      TreeOK(nodes, rank, root)
    }

    ghost function ViewOf(i: nat): ITree
      reads this
      requires Valid() && i < |nodes|
    {
      View(nodes, rank, i)
    }

    /** The expression tree a Go pointer to node `i` stands for. */
    ghost function ValueOf(i: nat): Tree
      reads this
      requires Valid() && i < |nodes|
    {
      Erase(View(nodes, rank, i))
    }

    /** The nodes of that tree, in pre-order. */
    ghost function IdsOf(i: nat): (r: seq<nat>)
      reads this
      requires Valid() && i < |nodes|
      ensures |r| == Size(ValueOf(i))
    {
      IdsSize(View(nodes, rank, i));
      Ids(View(nodes, rank, i))
    }

    constructor()
      ensures Valid() && nodes == []
    {
      nodes := [];
      rank := [];
    }

    /** The New* constructors: a node of kind `k`, one nil slot per unit of arity, no parent. */
    method NewNode(k: Kind) returns (id: nat)
      requires Valid()
      modifies this
      ensures Valid() && id == old(|nodes|)
      ensures nodes == old(nodes) + [NodeRec(k, Nils(Arity(k)), Nil)]
      ensures rank == old(rank) + [MaxRank(old(rank)) + 1]
      ensures ValueOf(id) == Blank(k) && IdsOf(id) == [id] && Live(id)
    {
      WFAppend(nodes, rank, NodeRec(k, Nils(Arity(k)), Nil), MaxRank(rank) + 1);
      id := |nodes|;
      nodes := nodes + [NodeRec(k, Nils(Arity(k)), Nil)];
      rank := rank + [MaxRank(rank) + 1];
      BlankView(nodes, rank, id);
    }

    /** BaseNode.SetParent. Views do not look at parent pointers, so none changes. */
    method SetParent(i: nat, p: Link)
      requires Valid() && i < |nodes| && LinkIn(p, |nodes|)
      modifies this
      ensures Valid() && rank == old(rank)
      ensures nodes == old(nodes)[i := old(nodes)[i].(parent := p)]
    {
      assert RecOK(nodes, rank, i);
      WFSet(nodes, rank, i, nodes[i].(parent := p));
      nodes := nodes[i := nodes[i].(parent := p)];
    }

    /** GetRandomBaseNode, given the value `r` of its rand.Intn(21). */
    method GetRandomBaseNode(r: nat) returns (id: nat)
      requires Valid() && r < 21
      modifies this
      ensures Valid() && id == old(|nodes|)
      ensures nodes == old(nodes) + [NodeRec(BaseKind(r), Nils(Arity(BaseKind(r))), Nil)]
      ensures rank == old(rank) + [MaxRank(old(rank)) + 1]
      ensures ValueOf(id) == Blank(BaseKind(r)) && IdsOf(id) == [id] && Live(id)
    {
      id := NewNode(BaseKind(r));
    }

    /** GetRandomLeaf, given its rand.Intn(3) and, for a constant, its value. */
    method GetRandomLeaf(p: LeafPick) returns (id: nat)
      requires Valid() && ValidLeafPick(p)
      modifies this
      ensures Valid() && id == old(|nodes|)
      ensures nodes == old(nodes) + [NodeRec(LeafKind(p.which, p.value), [], Nil)]
      ensures rank == old(rank) + [MaxRank(old(rank)) + 1]
      ensures ValueOf(id) == LeafOf(p) && IdsOf(id) == [id] && Live(id)
    {
      id := NewNode(LeafKind(p.which, p.value));
      assert Blank(LeafKind(p.which, p.value)) == LeafOf(p);
    }

    /**
     * BaseNode.NodeCount: the number of nodes of the tree. A nil slot would
     * make the Go code call a method on nil, so the tree must be complete.
     */
    method NodeCount(i: nat) returns (count: nat)
      requires Valid() && i < |nodes| && Complete(ValueOf(i))
      ensures count == Size(ValueOf(i))
      decreases Size(ValueOf(i))
    {
      ghost var e := ValueOf(i);
      CompleteKids(nodes, rank, i);
      ViewUnfold(nodes, rank, i);
      SizeOfNode(e.kind, e.kids);
      var cs := nodes[i].children;
      count := 1;
      var j := 0;
      while j < |cs|
        invariant 0 <= j <= |cs|
        invariant count == 1 + SizeIn(e.kids[..j])
      {
        var c := NodeCount(cs[j].id);
        SizeInPrefix(e.kids, j);
        count := count + c;
        j := j + 1;
      }
      assert e.kids[..j] == e.kids;
    }

    /**
     * GetNthNode: `count` is the pre-order number of node `i`. It returns the
     * node numbered `n` inside `i`'s tree, with `n` itself, or nil and the
     * number of the tree's last node when no node there is numbered `n`.
     */
    method GetNthNode(i: nat, n: int, count: int) returns (res: Link, cnt: int)
      requires Valid() && i < |nodes| && Complete(ValueOf(i))
      ensures var ids := Ids(ViewOf(i));
        if count <= n < count + |ids| then res == Ref(ids[n - count]) && cnt == n
        else res == Nil && cnt == count + |ids| - 1
      decreases Size(ValueOf(i))
    {
      if n == count {
        return Ref(i), count;
      }
      ghost var t := ViewOf(i);
      ghost var e := ValueOf(i);
      CompleteKids(nodes, rank, i);
      ViewUnfold(nodes, rank, i);
      SizeOfNode(e.kind, e.kids);
      var cs := nodes[i].children;
      cnt := count;
      var j := 0;
      while j < |cs|
        invariant 0 <= j <= |cs|
        invariant cnt == count + |IdsIn(t.kids[..j])|
        invariant n < count || n > cnt
      {
        cnt := cnt + 1;
        ghost var start := cnt;
        var r;
        r, cnt := GetNthNode(cs[j].id, n, cnt);
        assert t.kids[j] == ViewOf(cs[j].id);
        IdsInPrefix(t.kids, j);
        if r != Nil {
          IdsOfKid(t, j, n - start);
          return r, cnt;
        }
        j := j + 1;
      }
      assert t.kids[..j] == t.kids;
      res := Nil;
    }

    /**
     * CopyTree: a fresh copy of `src`'s tree, hung under `parent`. The copy
     * occupies the new nodes `c`..`|nodes|-1` in pre-order and is linked;
     * nothing existing changes. A nil slot would make the Go code reflect on
     * nil, so the tree must be complete.
     */
    method CopyTree(src: nat, parent: Link) returns (c: nat)
      requires Valid() && src < |nodes| && Complete(ValueOf(src)) && LinkIn(parent, |nodes|)
      modifies this
      ensures Valid() && FreshTree(old(nodes), old(rank), nodes, rank, c, old(ValueOf(src)), parent)
      decreases Size(ValueOf(src))
    {
      ghost var ns0, r0 := nodes, rank;
      ghost var v := ValueOf(src);
      CompleteKids(nodes, rank, src);
      ViewUnfold(nodes, rank, src);
      SizeOfNode(v.kind, v.kids);
      var rec := nodes[src];
      var cs := rec.children;
      c := NewNode(rec.kind);
      SetParent(c, parent);
      assert nodes[..c] == ns0 && rank[..c] == r0;
      BuildStart(ns0, r0, nodes, rank, c, rec.kind, parent, v.kids);
      var j := 0;
      while j < |cs|
        invariant Building(ns0, r0, nodes, rank, c, rec.kind, parent, v.kids, j)
      {
        ghost var ns1, r1 := nodes, rank;
        CopyKidReady(ns0, r0, nodes, rank, src, c, rec.kind, parent, v.kids, j);
        var w := CopyTree(cs[j].id, Ref(c));
        BuildStep(ns0, r0, ns1, r1, nodes, rank, c, rec.kind, parent, v.kids, j, w);
        nodes := SetSlot(nodes, c, j, w);
        j := j + 1;
      }
      BuildDone(ns0, r0, nodes, rank, c, rec.kind, parent, v.kids);
    }
 
    /** `Children[j] = w` on node `c`; `w` must sit deeper than `c` (no cycle). */
    method SetChild(c: nat, j: nat, w: nat)
      requires Valid() && c < |nodes| && j < |nodes[c].children| && w < |nodes| && rank[c] < rank[w]
      modifies this
      ensures Valid() && rank == old(rank) && nodes == SetSlot(old(nodes), c, j, w)
    {
      WFSlot(nodes, rank, c, j, w);
      nodes := SetSlot(nodes, c, j, w);
    }

    /**
     * The loop of ReplaceNode and Mutate over the parent's children: every
     * slot of `p` that holds `from` is made to hold `to`.
     */
    method RedirectSlots(p: nat, from: nat, to: nat)
      requires Valid() && p < |nodes| && to < |nodes|
      requires Ref(from) in nodes[p].children ==> rank[p] < rank[to]
      modifies this
      ensures Valid() && rank == old(rank)
      ensures nodes == old(nodes)[p := old(nodes)[p].(children := Redirected(old(nodes)[p].children, Ref(from), Ref(to)))]
    {
      var cs := nodes[p].children;
      var i := 0;
      while i < |cs|
        invariant 0 <= i <= |cs|
        invariant Valid() && rank == old(rank) && |nodes| == old(|nodes|)
        invariant forall y | 0 <= y < |nodes| && y != p :: nodes[y] == old(nodes)[y]
        invariant nodes[p].kind == old(nodes)[p].kind && nodes[p].parent == old(nodes)[p].parent
        invariant |nodes[p].children| == |cs|
        invariant forall q | 0 <= q < |cs| :: nodes[p].children[q] == (if q < i && cs[q] == Ref(from) then Ref(to) else cs[q])
      {
        if cs[i] == Ref(from) {
          SetChild(p, i, to);
        }
        i := i + 1;
      }
      assert nodes[p].children == Redirected(cs, Ref(from), Ref(to));
      assert nodes == old(nodes)[p := old(nodes)[p].(children := Redirected(cs, Ref(from), Ref(to)))];
    }

    /**
     * ReplaceNode: `w` takes over `o`'s slots in `o`'s parent and `o`'s parent
     * pointer. Read on the live tree `root` in which `o` is node number `n`:
     * for n > 0 the tree now has `w`'s tree at pre-order index n (Subst) and
     * is still live; for n = 0 the node `root` itself was replaced, which the
     * tree rooted at `root` does not see. `w`'s tree, disjoint from `root`'s,
     * keeps its value. The ghost rank condition says `w` may hang wherever
     * `o` hung; a copy made after `o` was built satisfies it.
     */
    method ReplaceNode(o: nat, w: nat, ghost root: nat, ghost n: nat)
      requires Valid() && Live(root) && n < |IdsOf(root)| && IdsOf(root)[n] == o
      requires o < |nodes| && w < |nodes| && Live(w) && rank[o] <= rank[w]
      requires forall y | y in IdsOf(w) :: y !in IdsOf(root)
      modifies this
      ensures Valid() && rank == old(rank) && |nodes| == old(|nodes|)
      ensures nodes[w].parent == old(nodes[o].parent)
      ensures forall p | 0 <= p < |nodes| && old(nodes[o].parent) == Ref(p) ::
        nodes[p].kind == old(nodes[p].kind) && nodes[p].children == Redirected(old(nodes[p].children), Ref(o), Ref(w))
      ensures forall y | 0 <= y < |nodes| && y != w && Ref(y) != old(nodes[o].parent) :: nodes[y] == old(nodes[y])
      ensures forall y | 0 <= y < |nodes| && y != w :: nodes[y].parent == old(nodes[y].parent)
      ensures ValueOf(w) == old(ValueOf(w)) && Live(w)
      ensures n == 0 ==> ViewOf(root) == old(ViewOf(root)) && ValueOf(root) == old(ValueOf(root)) && Live(root)
      ensures n > 0 ==> Live(root) && ValueOf(root) == Subst(old(ValueOf(root)), n, old(ValueOf(w)))
      ensures n > 0 ==> forall y | y in IdsOf(root) :: y in old(IdsOf(root)) || y in old(IdsOf(w))
    {
      ghost var ns0 := nodes;
      var oldParent := nodes[o].parent;
      assert RecOK(nodes, rank, o);
      if oldParent != Nil {
        assert RecOK(nodes, rank, oldParent.id);
        RedirectSlots(oldParent.id, o, w);
      }
      SetParent(w, oldParent);
      ReplaceEffect(ns0, nodes, rank, root, n, o, w);
    }

    /**
     * Mutate, given its random draws `pick`: a fresh node of a random kind
     * takes `o`'s place in its parent's slots, adopts `o`'s first children
     * up to its arity, gets a fresh leaf in every remaining slot, and takes
     * `o`'s parent pointer. Read on the live tree `root` in which `o` is node
     * number `n`: the tree (rooted at the mutant when n = 0) is MutateAt of
     * the old one and still live. A kept nil child would make the Go code
     * call SetParent on nil, so the kept slots must hold nodes.
     */
    method Mutate(o: nat, pick: MutPick, ghost root: nat, ghost n: nat) returns (m: nat)
      requires Valid() && Live(root) && n < |IdsOf(root)| && IdsOf(root)[n] == o && o < |nodes|
      requires ValidMutPick(pick) && forall q | 0 <= q < KeepOf(nodes, o, pick) :: nodes[o].children[q].Ref?
      modifies this
      ensures Valid() && m == old(|nodes|) < |nodes|
      ensures Live(m) && ValueOf(m) == Mutated(old(ValueOf(o)), pick) && nodes[m].parent == old(nodes[o].parent)
      ensures n == 0 ==> ValueOf(m) == MutateAt(old(ValueOf(root)), 0, pick)
      ensures n > 0 ==> Live(root) && ValueOf(root) == MutateAt(old(ValueOf(root)), n, pick)
      ensures forall y | y in IdsOf(if n == 0 then m else root) :: y in old(IdsOf(root)) || y >= m
      ensures forall y | 0 <= y < m && y !in old(IdsOf(root)) && Ref(y) != old(nodes[o].parent) :: nodes[y] == old(nodes[y])
      ensures nodes[root].parent == old(nodes[root].parent)
    {
      ghost var ns0, r0 := nodes, rank;
      m := BuildMutant(o, pick);
      MutateEffect(ns0, r0, nodes, rank, root, n, o, pick);
      NotOwnChild(ns0, r0, root, o, KeepOf(ns0, o, pick));
    }

    /** The writes of Mutate, in the Go order; AfterMutate says what they leave. */
    method BuildMutant(o: nat, pick: MutPick) returns (m: nat)
      requires Valid() && o < |nodes| && ValidMutPick(pick)
      requires forall q | 0 <= q < KeepOf(nodes, o, pick) :: nodes[o].children[q].Ref?
      modifies this
      ensures Valid() && m == old(|nodes|) && AfterMutate(old(nodes), old(rank), nodes, rank, o, pick)
    {
      ghost var ns0, r0 := nodes, rank;
      var par := nodes[o].parent;
      assert RecOK(nodes, rank, o);
      m := PlaceMutant(o, pick);
      AdoptChildren(o, pick, m, ns0, r0);
      FillLeaves(o, pick, m, ns0, r0);
      ghost var ns2 := nodes;
      SetParent(m, par);
      LeafDone(ns0, r0, ns2, rank, o, pick, nodes);
    }

    /**
     * The first steps of Mutate: the fresh node, put at `o`'s rank (below
     * `o`'s parent, above its children), replaces `o` in its parent's slots.
     */
    method PlaceMutant(o: nat, pick: MutPick) returns (m: nat)
      requires Valid() && o < |nodes| && ValidMutPick(pick)
      modifies this
      ensures Valid() && m == old(|nodes|) && KeptStage(old(nodes), old(rank), nodes, rank, o, pick, 0)
    {
      ghost var ns0, r0 := nodes, rank;
      var par := nodes[o].parent;
      assert RecOK(nodes, rank, o);
      if pick.r <= 21 {
        m := GetRandomBaseNode(pick.base);
      } else {
        m := GetRandomLeaf(pick.leaf);
      }
      FreshUnheld(ns0, r0, nodes[m]);
      WFRerank(nodes, rank, m, r0[o]);
      rank := rank[m := r0[o]];
      if par != Nil {
        assert RecOK(ns0, r0, par.id);
        RedirectSlots(par.id, o, m);
      }
      KeptStart(ns0, r0, nodes, o, pick);
    }

    /** Mutate's first loop: the mutant adopts `o`'s children up to its arity. */
    method AdoptChildren(o: nat, pick: MutPick, m: nat, ghost ns0: seq<NodeRec>, ghost r0: seq<nat>)
      requires Valid() && WellFormed(ns0, r0) && m == |ns0| && KeptStage(ns0, r0, nodes, rank, o, pick, 0)
      requires forall q | 0 <= q < KeepOf(ns0, o, pick) :: ns0[o].children[q].Ref?
      modifies this
      ensures Valid() && KeptStage(ns0, r0, nodes, rank, o, pick, KeepOf(ns0, o, pick))
    {
      // `o`'s slots are read once: the loop writes only the mutant's slots and parent pointers.
      OwnSlots(ns0, r0, nodes, o, 0);
      var cs := nodes[o].children;
      var i := 0;
      while i < |cs|
        invariant Valid() && i <= KeepOf(ns0, o, pick)
        invariant KeptStage(ns0, r0, nodes, rank, o, pick, i)
        invariant i == |cs| ==> i == KeepOf(ns0, o, pick)
      {
        if i >= |nodes[m].children| {
          break;
        }
        ghost var ns1 := nodes;
        assert RecOK(ns0, r0, o);
        SetChild(m, i, cs[i].id);
        SetParent(cs[i].id, Ref(m));
        KeptStep(ns0, r0, ns1, rank, o, pick, i, nodes);
        i := i + 1;
      }
    }

    /** Mutate's second loop: every nil slot of the mutant gets a fresh leaf. */
    method FillLeaves(o: nat, pick: MutPick, m: nat, ghost ns0: seq<NodeRec>, ghost r0: seq<nat>)
      requires Valid() && ValidMutPick(pick) && o < |ns0| && m == |ns0|
      requires KeptStage(ns0, r0, nodes, rank, o, pick, KeepOf(ns0, o, pick))
      requires forall q | 0 <= q < KeepOf(ns0, o, pick) :: ns0[o].children[q].Ref?
      modifies this
      ensures Valid() && LeafStage(ns0, r0, nodes, rank, o, pick, Arity(MutantKind(pick)))
    {
      KeptDone(ns0, r0, nodes, rank, o, pick);
      var slots := |nodes[m].children|;
      var j := 0;
      while j < slots
        invariant Valid() && j <= slots == Arity(MutantKind(pick))
        invariant LeafStage(ns0, r0, nodes, rank, o, pick, j)
      {
        FillSlot(o, pick, m, j, ns0, r0);
        j := j + 1;
      }
    }

    /** One turn of FillLeaves: slot `j` gets a fresh leaf if it is nil. */
    method FillSlot(o: nat, pick: MutPick, m: nat, j: nat, ghost ns0: seq<NodeRec>, ghost r0: seq<nat>)
      requires Valid() && m == |ns0| && LeafStage(ns0, r0, nodes, rank, o, pick, j) && j < Arity(MutantKind(pick))
      modifies this
      ensures Valid() && LeafStage(ns0, r0, nodes, rank, o, pick, j + 1)
    {
      if nodes[m].children[j] == Nil {
        ghost var ns1, rk1 := nodes, rank;
        var leaf := GetRandomLeaf(pick.fill[j]);
        SetParent(leaf, Ref(m));
        SetChild(m, j, leaf);
        LeafStep(ns0, r0, ns1, rk1, o, pick, j, MaxRank(rk1) + 1, nodes);
      } else {
        LeafSkip(ns0, r0, nodes, rank, o, pick, j);
      }
    }

    /** `x.SetParent(h)` and `h.Children[a] = x`: the last two stores of AddRandom and AddLeaf. */
    method PlantAt(h: nat, a: nat, x: nat)
      requires Valid() && h < |nodes| && a < |nodes[h].children| && x < |nodes| && x != h && Bare(nodes, x)
      modifies this
      ensures Valid() && nodes == Plant(old(nodes), h, a, x) && rank == Raised(old(rank), x)
    {
      WFRerank(nodes, rank, x, MaxRank(rank) + 1);
      rank := Raised(rank, x);
      SetParent(x, Ref(h));
      SetChild(h, a, x);
    }

    /**
     * BaseNode.AddRandom(x), given the slot indices its rand.Intn calls pick
     * on the way down: `x` goes into the nil slot they lead to. A walk that
     * reaches a leaf would make rand.Intn(0) panic, so the path must end at
     * a nil slot. `x` is a fresh node from GetRandomBaseNode at every call.
     */
    method AddRandom(node: nat, x: nat, path: seq<nat>)
      requires Valid() && node < |nodes| && x < |nodes| && PathToHole(ValueOf(node), path)
      requires x !in IdsOf(node) && Bare(nodes, x)
      modifies this
      ensures Valid() && rank == Raised(old(rank), x)
      ensures var s := old(HoleOf(nodes, rank, node, path)); nodes == Plant(old(nodes), s.owner, s.slot, x)
      ensures old(Live(node)) ==> Live(node) && ValueOf(node) == InsertAt(old(ValueOf(node)), path, old(ValueOf(x)))
      ensures old(Live(node)) ==> forall y :: y in IdsOf(node) <==> y in old(IdsOf(node)) || y == x
      decreases |path|
    {
      ghost var ns0, r0 := nodes, rank;
      ViewUnfold(nodes, rank, node);
      var a := path[0];
      var c := nodes[node].children[a];
      if c == Nil {
        assert node in IdsOf(node);
        PlantAt(node, a, x);
      } else {
        KidIds(ViewOf(node), a);
        AddRandom(c.id, x, path[1..]);
      }
      if TreeOK(ns0, r0, node) {
        PlantEffect(ns0, r0, node, path, x);
      }
    }

    /**
     * BaseNode.AddLeaf(leaf): `leaf` goes into the first nil slot of the
     * tree in pre-order, and the result says whether there was one; with
     * none, nothing changes. `leaf` is a fresh node from GetRandomLeaf.
     */
    method AddLeaf(node: nat, leaf: nat) returns (ok: bool)
      requires Valid() && node < |nodes| && leaf < |nodes| && leaf !in IdsOf(node) && Bare(nodes, leaf)
      modifies this
      ensures Valid()
      ensures ok <==> Holes(old(ValueOf(node))) > 0
      ensures !ok ==> nodes == old(nodes) && rank == old(rank)
      ensures ok ==> rank == Raised(old(rank), leaf)
      ensures ok ==> var s := old(HoleOf(nodes, rank, node, FirstPath(ValueOf(node))));
        nodes == Plant(old(nodes), s.owner, s.slot, leaf)
      ensures ok && old(Live(node)) ==> Live(node) && ValueOf(node) == FillFirst(old(ValueOf(node)), old(ValueOf(leaf)))
      ensures ok && old(Live(node)) ==> forall y :: y in IdsOf(node) <==> y in old(IdsOf(node)) || y == leaf
      decreases Size(ValueOf(node))
    {
      ghost var ns0, r0 := nodes, rank;
      ghost var e := ValueOf(node);
      ViewUnfold(nodes, rank, node);
      SizeOfNode(e.kind, e.kids);
      var cs := nodes[node].children;
      var i := 0;
      while i < |cs|
        invariant i <= |cs| && nodes == ns0 && rank == r0
        invariant HolesIn(e.kids[..i]) == 0
      {
        HolesInPrefix(e.kids, i);
        if cs[i] == Nil {
          assert node in IdsOf(node);
          PlantAt(node, i, leaf);
          FirstPathAt(e.kids, i);
          LeafEffect(ns0, r0, node, leaf);
          return true;
        }
        KidIds(ViewOf(node), i);
        ok := AddLeaf(cs[i].id, leaf);
        if ok {
          FirstPathAt(e.kids, i);
          assert FirstPath(e)[1..] == FirstPath(e.kids[i]);
          LeafEffect(ns0, r0, node, leaf);
          return;
        }
        i := i + 1;
      }
      assert e.kids[..i] == e.kids;
      ok := false;
    }
  }

  /** What ReplaceNode's two writes do to the trees of `root` and `w`. */
  lemma ReplaceEffect(ns0: seq<NodeRec>, ns1: seq<NodeRec>, rank: seq<nat>, root: nat, n: nat, o: nat, w: nat)
    requires TreeOK(ns0, rank, root) && n < |Ids(View(ns0, rank, root))| && Ids(View(ns0, rank, root))[n] == o
    requires o < |ns0| && w < |ns0| && TreeOK(ns0, rank, w) && rank[o] <= rank[w]
    requires forall y | y in Ids(View(ns0, rank, w)) :: y !in Ids(View(ns0, rank, root))
    requires WellFormed(ns1, rank) && |ns1| == |ns0|
    requires ns1[w].parent == ns0[o].parent
    requires forall p | 0 <= p < |ns0| && ns0[o].parent == Ref(p) ::
      ns1[p].kind == ns0[p].kind && ns1[p].children == Redirected(ns0[p].children, Ref(o), Ref(w))
    requires forall y | 0 <= y < |ns0| && Ref(y) != ns0[o].parent :: SameShape(ns1[y], ns0[y])
    requires forall y | 0 <= y < |ns0| && y != w :: ns1[y].parent == ns0[y].parent
    ensures View(ns1, rank, w) == View(ns0, rank, w) && TreeOK(ns1, rank, w)
    ensures n == 0 ==> View(ns1, rank, root) == View(ns0, rank, root) && TreeOK(ns1, rank, root)
    ensures n > 0 ==> (TreeOK(ns1, rank, root) &&
      (IdsSize(View(ns0, rank, root)); n < Size(Erase(View(ns0, rank, root)))) &&
      Erase(View(ns1, rank, root)) == Subst(Erase(View(ns0, rank, root)), n, Erase(View(ns0, rank, w))))
    ensures n > 0 ==> forall y | y in Ids(View(ns1, rank, root)) ::
      y in Ids(View(ns0, rank, root)) || y in Ids(View(ns0, rank, w))
  {
    var par := ns0[o].parent;
    var t0 := View(ns0, rank, root);
    RankBelow(ns0, rank, w);
    RankBelow(ns0, rank, root);
    // The one record whose slots may change holds `o` only above rank[o].
    forall x | 0 <= x < |ns0| && rank[x] >= rank[o] ensures SameShape(ns1[x], ns0[x]) {
      assert RecOK(ns0, rank, x);
      assert Ref(o) !in ns0[x].children;
      if par == Ref(x) {
        assert Redirected(ns0[x].children, Ref(o), Ref(w)) == ns0[x].children;
      }
    }
    ViewFrame(ns0, rank, ns1, rank, w);
    LinkedFrameBelow(ns0, ns1, View(ns0, rank, w));
    if n == 0 {
      assert Ids(t0)[0] == root;
      ViewFrame(ns0, rank, ns1, rank, root);
      LinkedFrame(ns0, ns1, t0);
    } else {
      var p := OwnerOf(ns0, rank, root, o);
      forall q | 0 <= q < |ns0| && q != p ensures SameShape(ns1[q], ns0[q]) {
      }
      var a, b := SpliceView(ns0, rank, ns1, rank, root, n, o, p, w);
      DistinctSplice(a, Ids(View(ns0, rank, o)), Ids(View(ns1, rank, w)), b);
    }
  }

  /** AddLeaf's effect on a live tree: planting at the first nil slot is FillFirst. */
  lemma LeafEffect(ns: seq<NodeRec>, rank: seq<nat>, i: nat, x: nat)
    requires WellFormed(ns, rank) && i < |ns| && Holes(Erase(View(ns, rank, i))) > 0
    requires x < |ns| && x !in Ids(View(ns, rank, i)) && Bare(ns, x)
    ensures var e := Erase(View(ns, rank, i));
      var s := HoleOf(ns, rank, i, FirstPath(e));
      TreeOK(ns, rank, i) ==>
        TreeOK(Plant(ns, s.owner, s.slot, x), Raised(rank, x), i) &&
        Erase(View(Plant(ns, s.owner, s.slot, x), Raised(rank, x), i)) == FillFirst(e, Erase(View(ns, rank, x))) &&
        forall z :: z in Ids(View(Plant(ns, s.owner, s.slot, x), Raised(rank, x), i)) <==> z in Ids(View(ns, rank, i)) || z == x
  {
    var e := Erase(View(ns, rank, i));
    if TreeOK(ns, rank, i) {
      PlantEffect(ns, rank, i, FirstPath(e), x);
      FirstPathFills(e, Erase(View(ns, rank, x)));
    }
  }
}

/**
 * What ast/ast.go's Mutate leaves in the arena, and why that is MutateAt on
 * the tree it was applied to. `AfterMutate` describes the arena after the call
 * relative to the arena before it: the new node `m` (the next free index)
 * with the mutant's kind, the first children of the old node moved into it,
 * fresh leaves in its other slots, and the parent's slot pointing at it.
 */
module Mutation {
  import opened Kinds
  import opened Trees
  import opened Heap
  import opened HeapUpdates

  /** How many children of old node `o` the mutant keeps. */
  function KeepOf(ns0: seq<NodeRec>, o: nat, p: MutPick): nat
    requires o < |ns0| && ValidMutPick(p)
  {
    Min(|ns0[o].children|, Arity(MutantKind(p)))
  }

  /** The leaf kind drawn for slot `q` of the mutant. */
  function FillKind(p: MutPick, q: nat): Kind
    requires ValidMutPick(p) && q < |p.fill|
  {
    LeafKind(p.fill[q].which, p.fill[q].value)
  }

  /** Slot `q` of the mutant `m`: a kept child, or the leaf allocated for it. */
  function MutantSlot(cs: seq<Link>, keep: nat, m: nat, q: nat): Link
    requires keep <= |cs|
  {
    if q < keep then cs[q] else Ref(m + 1 + q - keep)
  }

  /** The mutant `m` = `|ns0|` and the leaves that fill its slots after the kept children. */
  ghost predicate MutantAt(ns0: seq<NodeRec>, nsF: seq<NodeRec>, rF: seq<nat>, o: nat, p: MutPick)
  {
    ValidMutPick(p) && o < |ns0| && WellFormed(nsF, rF) &&
    var m := |ns0|;
    var cs := ns0[o].children;
    var k := MutantKind(p);
    var keep := KeepOf(ns0, o, p);
    |nsF| == m + 1 + (Arity(k) - keep) &&
    nsF[m].kind == k && nsF[m].parent == ns0[o].parent && |nsF[m].children| == Arity(k) &&
    (forall q | 0 <= q < Arity(k) :: nsF[m].children[q] == MutantSlot(cs, keep, m, q)) &&
    (forall q | keep <= q < Arity(k) :: nsF[MutantSlot(cs, keep, m, q).id] == NodeRec(FillKind(p, q), [], Ref(m)))
  }

  /** The old records: only `o`'s parent's slots and the kept children's parent pointers change. */
  ghost predicate OldRecords(ns0: seq<NodeRec>, nsF: seq<NodeRec>, o: nat, keep: nat)
    requires o < |ns0| && keep <= |ns0[o].children| && |ns0| <= |nsF|
  {
    var m := |ns0|;
    var par := ns0[o].parent;
    var cs := ns0[o].children;
    forall y | 0 <= y < m :: nsF[y].kind == ns0[y].kind &&
      nsF[y].children == (if par == Ref(y) then Redirected(ns0[y].children, Ref(o), Ref(m)) else ns0[y].children) &&
      nsF[y].parent == (if Ref(y) in cs[..keep] then Ref(m) else ns0[y].parent)
  }

  ghost predicate AfterMutate(ns0: seq<NodeRec>, r0: seq<nat>, nsF: seq<NodeRec>, rF: seq<nat>, o: nat, p: MutPick)
  {
    MutantAt(ns0, nsF, rF, o, p) && |r0| == |ns0| && rF[..|ns0|] == r0 && rF[|ns0|] == r0[o] &&
    OldRecords(ns0, nsF, o, KeepOf(ns0, o, p))
  }

  /** Records ranked at least as deep as `o` keep their shape. */
  ghost predicate ShapeAbove(ns0: seq<NodeRec>, r0: seq<nat>, nsF: seq<NodeRec>, o: nat)
    requires |r0| == |ns0| && o < |ns0|
  {
    forall x | 0 <= x < |ns0| && r0[x] >= r0[o] :: x < |nsF| && SameShape(nsF[x], ns0[x])
  }

  /** Only a record ranked below `o` can hold `o`, so above `o` nothing changed shape. */
  lemma MutationShape(ns0: seq<NodeRec>, r0: seq<nat>, nsF: seq<NodeRec>, rF: seq<nat>, o: nat, p: MutPick)
    requires WellFormed(ns0, r0) && AfterMutate(ns0, r0, nsF, rF, o, p)
    ensures ShapeAbove(ns0, r0, nsF, o)
  {
    forall x | 0 <= x < |ns0| && r0[x] >= r0[o] ensures x < |nsF| && SameShape(nsF[x], ns0[x]) {
      assert RecOK(ns0, r0, x);
      assert Ref(o) !in ns0[x].children;
      assert Redirected(ns0[x].children, Ref(o), Ref(|ns0|)) == ns0[x].children;
    }
  }

  /** The kept children keep their trees. */
  lemma KeptView(ns0: seq<NodeRec>, r0: seq<nat>, nsF: seq<NodeRec>, rF: seq<nat>, o: nat, c: nat)
    requires WellFormed(ns0, r0) && WellFormed(nsF, rF) && o < |ns0| <= |nsF| && ShapeAbove(ns0, r0, nsF, o)
    requires Ref(c) in ns0[o].children
    ensures c < |ns0| && View(nsF, rF, c) == View(ns0, r0, c)
  {
    assert RecOK(ns0, r0, o);
    RankBelow(ns0, r0, c);
    ViewFrame(ns0, r0, nsF, rF, c);
  }

  /**
   * `t` is the tree of the mutant `m` of the node whose tree is `to`: it
   * keeps `to`'s first `keep` children and has fresh one-node leaves after.
   */
  ghost predicate MutantTree(t: ITree, to: ITree, keep: nat, m: nat, p: MutPick)
  {
    ValidMutPick(p) && to.INode? && keep == Min(|to.kids|, Arity(MutantKind(p))) &&
    t.INode? && t.id == m && t.kind == MutantKind(p) && |t.kids| == Arity(MutantKind(p)) &&
    forall q | 0 <= q < |t.kids| ::
      t.kids[q] == if q < keep then to.kids[q] else INode(m + 1 + q - keep, FillKind(p, q), [])
  }

  /** The slots of the mutant: the old node's first children, then one-node leaves. */
  lemma MutantKids(ns0: seq<NodeRec>, r0: seq<nat>, nsF: seq<NodeRec>, rF: seq<nat>, o: nat, p: MutPick)
    requires WellFormed(ns0, r0) && MutantAt(ns0, nsF, rF, o, p) && |r0| == |ns0| && ShapeAbove(ns0, r0, nsF, o)
    requires forall q | 0 <= q < KeepOf(ns0, o, p) :: ns0[o].children[q].Ref?
    ensures MutantTree(View(nsF, rF, |ns0|), View(ns0, r0, o), KeepOf(ns0, o, p), |ns0|, p)
  {
    var m := |ns0|;
    var keep := KeepOf(ns0, o, p);
    var cs := ns0[o].children;
    ViewUnfold(nsF, rF, m);
    ViewUnfold(ns0, r0, o);
    var t := View(nsF, rF, m);
    forall q | 0 <= q < |t.kids|
      ensures t.kids[q] == if q < keep then View(ns0, r0, o).kids[q] else INode(m + 1 + q - keep, FillKind(p, q), [])
    {
      if q < keep {
        assert cs[q] in cs;
        KeptView(ns0, r0, nsF, rF, o, cs[q].id);
      } else {
        var l := m + 1 + q - keep;
        assert nsF[l] == NodeRec(FillKind(p, q), [], Ref(m));
        BlankView(nsF, rF, l);
      }
    }
  }

  /** The mutant's value is Mutated applied to the old node's value. */
  lemma MutantValue(t: ITree, to: ITree, keep: nat, m: nat, p: MutPick)
    requires MutantTree(t, to, keep, m, p)
    ensures Erase(to).Node? && Erase(t) == Mutated(Erase(to), p)
  {
    var v := Erase(to);
    assert v.kids == EraseIn(to.kids);
    assert Kept(v, p) == keep;
    var e := Erase(t);
    assert e.kids == EraseIn(t.kids);
    var want := Mutated(v, p);
    assert |e.kids| == |want.kids|;
    forall q | 0 <= q < |e.kids| ensures e.kids[q] == want.kids[q] {
      if q >= keep {
        assert EraseIn([]) == [];
        assert Erase(t.kids[q]) == Leaf(FillKind(p, q));
      }
    }
  }

  lemma {:induction false} IdsInLeaves(ks: seq<ITree>, base: nat)
    requires forall q | 0 <= q < |ks| :: ks[q].INode? && ks[q].id == base + q && ks[q].kids == []
    ensures IdsIn(ks) == Range(base, base + |ks|)
  {
    if ks != [] {
      var rest := ks[1..];
      IdsInLeaves(rest, base + 1);
      assert IdsIn(ks) == Ids(ks[0]) + IdsIn(rest);
      assert Ids(ks[0]) == [base];
    }
  }

  /** The mutant's tree: itself, the kept children's trees, then the fresh leaves. */
  lemma MutantIds(t: ITree, to: ITree, keep: nat, m: nat, p: MutPick)
    requires MutantTree(t, to, keep, m, p)
    ensures keep <= |to.kids| && Ids(t) == [m] + IdsIn(to.kids[..keep]) + Range(m + 1, m + 1 + |t.kids| - keep)
  {
    assert keep <= |to.kids| && keep <= |t.kids|;
    var front := to.kids[..keep];
    assert t.kids[..keep] == front by {
      forall q | 0 <= q < keep ensures t.kids[..keep][q] == front[q] {
        assert t.kids[q] == to.kids[q];
      }
    }
    forall q | keep <= q < |t.kids| ensures t.kids[q].INode? && t.kids[q].id == m + 1 + q - keep && t.kids[q].kids == [] {
    }
    LeavesAfter(t, front, m);
  }

  /** A node whose children are `front` and then one-node leaves numbered on from m + 1. */
  lemma LeavesAfter(t: ITree, front: seq<ITree>, m: nat)
    requires t.INode? && t.id == m && |front| <= |t.kids| && t.kids[..|front|] == front
    requires forall q | |front| <= q < |t.kids| :: t.kids[q].INode? && t.kids[q].id == m + 1 + q - |front| && t.kids[q].kids == []
    ensures Ids(t) == [m] + IdsIn(front) + Range(m + 1, m + 1 + |t.kids| - |front|)
  {
    var ks, keep := t.kids, |front|;
    var back := ks[keep..];
    assert ks == front + back;
    IdsInAppend(front, back);
    forall q | 0 <= q < |back| ensures back[q].INode? && back[q].id == m + 1 + q && back[q].kids == [] {
      assert back[q] == ks[keep + q];
    }
    IdsInLeaves(back, m + 1);
    var kept, hi := IdsIn(front), m + 1 + |ks| - keep;
    assert m + 1 + |back| == hi;
    var leaves := Range(m + 1, hi);
    assert IdsIn(back) == leaves;
    assert Ids(t) == [m] + (kept + leaves);
    assert [m] + (kept + leaves) == [m] + kept + leaves;
  }

  /** The mutant's tree has no node twice when the old node's tree had none and all its ids are below `m`. */
  lemma MutantUnique(t: ITree, to: ITree, keep: nat, m: nat, p: MutPick)
    requires MutantTree(t, to, keep, m, p) && Unique(to) && forall x | x in Ids(to) :: x < m
    ensures Unique(t)
    ensures forall x | x in Ids(t) :: x >= m || x in Ids(to)
  {
    MutantIds(t, to, keep, m, p);
    FreshLeavesUnique(Ids(t), to, keep, m, |t.kids| - keep);
  }

  /** Ids made of a fresh id m, some children's ids of a tree below m, and fresh ids after m have no repeats. */
  lemma FreshLeavesUnique(ids: seq<nat>, to: ITree, keep: nat, m: nat, n: nat)
    requires to.INode? && keep <= |to.kids| && Unique(to) && forall x | x in Ids(to) :: x < m
    requires ids == [m] + IdsIn(to.kids[..keep]) + Range(m + 1, m + 1 + n)
    ensures Distinct(ids)
    ensures forall x | x in ids :: x >= m || x in Ids(to)
  {
    var kept := IdsIn(to.kids[..keep]);
    var leaves := Range(m + 1, m + 1 + n);
    assert to.kids == to.kids[..keep] + to.kids[keep..];
    IdsInAppend(to.kids[..keep], to.kids[keep..]);
    DistinctAppend([to.id], IdsIn(to.kids));
    DistinctAppend(kept, IdsIn(to.kids[keep..]));
    RangeDistinct(m + 1, m + 1 + n);
    assert Ids(to) == [to.id] + IdsIn(to.kids);
    forall x | x in kept ensures x < m && x in Ids(to) {
      assert x in IdsIn(to.kids);
      assert x in [to.id] + IdsIn(to.kids);
    }
    DistinctAppend(kept, leaves);
    DistinctAppend([m], kept + leaves);
    assert ids == [m] + (kept + leaves);
  }

  /** A kept child's tree stays linked: no parent pointer below it changed. */
  lemma KeptLinked(ns0: seq<NodeRec>, nsF: seq<NodeRec>, to: ITree, cs: seq<Link>, keep: nat, q: nat)
    requires to.INode? && Unique(to) && Linked(ns0, to) && q < keep <= |to.kids| && keep <= |cs|
    requires |ns0| <= |nsF| && forall x | x in Ids(to) :: x < |ns0|
    requires forall q' | 0 <= q' < keep :: to.kids[q'].INode? && cs[q'] == Ref(to.kids[q'].id)
    requires forall y | 0 <= y < |ns0| && Ref(y) !in cs[..keep] :: nsF[y].parent == ns0[y].parent
    ensures Linked(nsF, to.kids[q])
  {
    var k := to.kids[q];
    KidIds(to, q);
    forall y | y in IdsIn(k.kids) ensures y < |ns0| && y < |nsF| && nsF[y].parent == ns0[y].parent {
      assert y in Ids(k);
      forall q' | 0 <= q' < keep ensures cs[q'] != Ref(y) {
        assert to.kids[q'].id in Ids(to.kids[q']);
        if q' == q {
          DistinctAppend([k.id], IdsIn(k.kids));
        } else if q' < q {
          KidsDisjoint(to, q', q);
        } else {
          KidsDisjoint(to, q, q');
        }
      }
      assert Ref(y) !in cs[..keep];
    }
    LinkedFrameBelow(ns0, nsF, k);
  }

  /**
   * The mutant's tree is linked: the kept children now point to `m`, the
   * leaves were created pointing to `m`, and below the kept children no
   * parent pointer changed.
   */
  lemma MutantLinked(ns0: seq<NodeRec>, nsF: seq<NodeRec>, t: ITree, to: ITree, cs: seq<Link>, keep: nat, m: nat, p: MutPick)
    requires MutantTree(t, to, keep, m, p) && Unique(to) && Linked(ns0, to) && keep <= |cs|
    requires m == |ns0| && m + 1 + |t.kids| - keep <= |nsF| && forall x | x in Ids(to) :: x < m
    requires forall q | 0 <= q < keep :: to.kids[q].INode? && cs[q] == Ref(to.kids[q].id)
    requires forall y | 0 <= y < m && Ref(y) !in cs[..keep] :: nsF[y].parent == ns0[y].parent
    requires forall y | 0 <= y < m && Ref(y) in cs[..keep] :: nsF[y].parent == Ref(m)
    requires forall l | m + 1 <= l < m + 1 + |t.kids| - keep :: nsF[l].parent == Ref(m)
    ensures Linked(nsF, t)
  {
    forall q | 0 <= q < |t.kids|
      ensures Linked(nsF, t.kids[q])
      ensures t.kids[q].INode? ==> t.kids[q].id < |nsF| && nsF[t.kids[q].id].parent == Ref(m)
    {
      if q < keep {
        KeptLinked(ns0, nsF, to, cs, keep, q);
        KidIds(to, q);
        assert to.kids[q].id in Ids(to.kids[q]);
        assert cs[..keep][q] == cs[q];
      }
    }
  }

  /** Where the parent pointers point after Mutate. */
  lemma MutantParents(ns0: seq<NodeRec>, r0: seq<nat>, nsF: seq<NodeRec>, rF: seq<nat>, o: nat, p: MutPick)
    requires AfterMutate(ns0, r0, nsF, rF, o, p)
    ensures var m, cs, keep := |ns0|, ns0[o].children, KeepOf(ns0, o, p);
      (forall y | 0 <= y < m && Ref(y) !in cs[..keep] :: nsF[y].parent == ns0[y].parent) &&
      (forall y | 0 <= y < m && Ref(y) in cs[..keep] :: nsF[y].parent == Ref(m)) &&
      (forall l | m + 1 <= l < |nsF| :: nsF[l].parent == Ref(m))
  {
    var m, cs, keep := |ns0|, ns0[o].children, KeepOf(ns0, o, p);
    forall l | m + 1 <= l < |nsF| ensures nsF[l].parent == Ref(m) {
      var q := l - m - 1 + keep;
      assert MutantSlot(cs, keep, m, q).id == l;
    }
  }

  /** The mutant heads a live tree. */
  lemma MutantLive(ns0: seq<NodeRec>, r0: seq<nat>, nsF: seq<NodeRec>, rF: seq<nat>, o: nat, p: MutPick)
    requires WellFormed(ns0, r0) && AfterMutate(ns0, r0, nsF, rF, o, p)
    requires forall q | 0 <= q < KeepOf(ns0, o, p) :: ns0[o].children[q].Ref?
    requires Unique(View(ns0, r0, o)) && Linked(ns0, View(ns0, r0, o))
    ensures TreeOK(nsF, rF, |ns0|)
  {
    var m := |ns0|;
    var keep := KeepOf(ns0, o, p);
    var cs := ns0[o].children;
    var to := View(ns0, r0, o);
    var t := View(nsF, rF, m);
    MutationShape(ns0, r0, nsF, rF, o, p);
    MutantKids(ns0, r0, nsF, rF, o, p);
    RankBelow(ns0, r0, o);
    MutantUnique(t, to, keep, m, p);
    ViewUnfold(ns0, r0, o);
    MutantParents(ns0, r0, nsF, rF, o, p);
    MutantLinked(ns0, nsF, t, to, cs, keep, m, p);
  }

  /** The mutant's value and nodes: fresh nodes up to `top` and nodes of the old node's tree. */
  lemma MutantContents(t: ITree, to: ITree, keep: nat, m: nat, p: MutPick, top: nat)
    requires MutantTree(t, to, keep, m, p) && Unique(to) && forall x | x in Ids(to) :: x < m
    requires top == m + 1 + |t.kids| - keep
    ensures Erase(to).Node? && Erase(t) == Mutated(Erase(to), p)
    ensures keep <= |to.kids| && Ids(t) == [m] + IdsIn(to.kids[..keep]) + Range(m + 1, top)
    ensures Unique(t) && forall x | x in Ids(t) :: x >= m || x in Ids(to)
  {
    MutantValue(t, to, keep, m, p);
    MutantIds(t, to, keep, m, p);
    MutantUnique(t, to, keep, m, p);
  }

  /** The kept children are nodes of the tree `root`, with parent `o`. */
  lemma KeptInTree(ns0: seq<NodeRec>, r0: seq<nat>, root: nat, o: nat, keep: nat)
    requires TreeOK(ns0, r0, root) && o < |ns0| && o in Ids(View(ns0, r0, root)) && keep <= |ns0[o].children|
    requires forall q | 0 <= q < keep :: ns0[o].children[q].Ref?
    ensures forall y | 0 <= y < |ns0| && Ref(y) in ns0[o].children[..keep] ::
      y in Ids(View(ns0, r0, root)) && ns0[y].parent == Ref(o)
  {
    var cs := ns0[o].children;
    var to := View(ns0, r0, o);
    SubView(ns0, r0, root, o);
    ViewUnfold(ns0, r0, o);
    forall y | 0 <= y < |ns0| && Ref(y) in cs[..keep] ensures y in Ids(View(ns0, r0, root)) && ns0[y].parent == Ref(o) {
      var q :| 0 <= q < keep && cs[..keep][q] == Ref(y);
      KidIds(to, q);
      assert y in Ids(to.kids[q]);
    }
  }

  /** No slot of a node of the tree `root` holds `root`: its children rank deeper than `root`. */
  lemma NotOwnChild(ns: seq<NodeRec>, rank: seq<nat>, root: nat, o: nat, keep: nat)
    requires WellFormed(ns, rank) && root < |ns| && o < |ns| && o in Ids(View(ns, rank, root))
    requires keep <= |ns[o].children|
    ensures Ref(root) !in ns[o].children[..keep]
  {
    RankBelow(ns, rank, root);
    assert RecOK(ns, rank, o);
    forall j | 0 <= j < keep ensures ns[o].children[..keep][j] != Ref(root) {
      assert ns[o].children[..keep][j] == ns[o].children[j];
    }
  }

  /** Mutate changes no record outside the tree except the old node's parent. */
  lemma MutateOutside(ns0: seq<NodeRec>, r0: seq<nat>, nsF: seq<NodeRec>, rF: seq<nat>,
                      root: nat, n: nat, o: nat, p: MutPick)
    requires TreeOK(ns0, r0, root) && n < |Ids(View(ns0, r0, root))| && Ids(View(ns0, r0, root))[n] == o
    requires AfterMutate(ns0, r0, nsF, rF, o, p)
    requires forall q | 0 <= q < KeepOf(ns0, o, p) :: ns0[o].children[q].Ref?
    ensures forall y | 0 <= y < |ns0| && y !in Ids(View(ns0, r0, root)) && Ref(y) != ns0[o].parent :: nsF[y] == ns0[y]
  {
    KeptInTree(ns0, r0, root, o, KeepOf(ns0, o, p));
  }

  /** Mutating the root: the mutant heads the new tree. */
  lemma MutateTop(ns0: seq<NodeRec>, r0: seq<nat>, nsF: seq<NodeRec>, rF: seq<nat>, root: nat, p: MutPick)
    requires TreeOK(ns0, r0, root) && AfterMutate(ns0, r0, nsF, rF, root, p)
    requires forall q | 0 <= q < KeepOf(ns0, root, p) :: ns0[root].children[q].Ref?
    ensures TreeOK(nsF, rF, |ns0|)
    ensures (IdsSize(View(ns0, r0, root)); Erase(View(nsF, rF, |ns0|)) == MutateAt(Erase(View(ns0, r0, root)), 0, p))
    ensures forall y | y in Ids(View(nsF, rF, |ns0|)) :: y in Ids(View(ns0, r0, root)) || y >= |ns0|
  {
    var m := |ns0|;
    var to := View(ns0, r0, root);
    IdsSize(to);
    assert Ids(to)[0] == root;
    MutantLive(ns0, r0, nsF, rF, root, p);
    MutationShape(ns0, r0, nsF, rF, root, p);
    MutantKids(ns0, r0, nsF, rF, root, p);
    RankBelow(ns0, r0, root);
    MutantContents(View(nsF, rF, m), to, KeepOf(ns0, root, p), m, p, |nsF|);
    NthIsPreOrder(Erase(to), 0);
    SubstProps(Erase(to), 0, Mutated(Erase(to), p));
  }

  /** What the splice of the mutant into the parent's slot needs of the arena after Mutate. */
  lemma MutateSplice(ns0: seq<NodeRec>, r0: seq<nat>, nsF: seq<NodeRec>, rF: seq<nat>,
                     root: nat, o: nat, p: MutPick, par: nat)
    requires TreeOK(ns0, r0, root) && o in Ids(View(ns0, r0, root)) && AfterMutate(ns0, r0, nsF, rF, o, p)
    requires forall q | 0 <= q < KeepOf(ns0, o, p) :: ns0[o].children[q].Ref?
    requires par < |ns0| && ns0[o].parent == Ref(par)
    ensures nsF[par].kind == ns0[par].kind && nsF[par].children == Redirected(ns0[par].children, Ref(o), Ref(|ns0|))
    ensures forall q | 0 <= q < |ns0| && q != par :: SameShape(nsF[q], ns0[q])
    ensures nsF[|ns0|].parent == Ref(par)
    ensures forall y | y in Ids(View(ns0, r0, root)) ::
      y < |ns0| && y < |nsF| && (ns0[y].parent != Ref(o) ==> nsF[y].parent == ns0[y].parent)
  {
    KeptInTree(ns0, r0, root, o, KeepOf(ns0, o, p));
    RankBelow(ns0, r0, root);
  }

  /** Replacing the middle of a list of distinct ids below `bound` by distinct fresh ones or ones of the middle. */
  lemma SpliceIds(a: seq<nat>, mid: seq<nat>, mid': seq<nat>, b: seq<nat>, bound: nat)
    requires Distinct(a + mid + b) && Distinct(mid')
    requires forall x | x in a + mid + b :: x < bound
    requires forall x | x in mid' :: x >= bound || x in mid
    ensures Distinct(a + mid' + b)
    ensures forall y | y in a + mid' + b :: y in a + mid + b || y >= bound
  {
    DistinctAppend(a + mid, b);
    DistinctAppend(a, mid);
    forall x | x in mid' ensures x !in a && x !in b {
      if x !in mid {
        assert forall y | y in a :: y in a + mid + b;
        assert forall y | y in b :: y in a + mid + b;
      }
    }
    DistinctSplice(a, mid, mid', b);
    forall y | y in a + mid' + b ensures y in a + mid + b || y >= bound {
      if y in a {
        assert y in a + mid + b;
      } else if y in b {
        assert y in a + mid + b;
      }
    }
  }

  /**
   * Splicing a live tree `w` whose nodes are fresh or come from `o`'s tree
   * into `o`'s place keeps the tree `root` live.
   */
  lemma SpliceLive(ns0: seq<NodeRec>, r0: seq<nat>, nsF: seq<NodeRec>, rF: seq<nat>,
                   root: nat, n: nat, o: nat, par: nat, w: nat)
    requires TreeOK(ns0, r0, root) && 0 < n < |Ids(View(ns0, r0, root))| && o == Ids(View(ns0, r0, root))[n]
    requires WellFormed(nsF, rF) && |ns0| <= |nsF| && |ns0| <= w < |nsF| && o < |ns0| && par < |ns0|
    requires ns0[o].parent == Ref(par) && Ref(o) in ns0[par].children
    requires nsF[par].kind == ns0[par].kind && nsF[par].children == Redirected(ns0[par].children, Ref(o), Ref(w))
    requires forall q | 0 <= q < |ns0| && q != par :: SameShape(nsF[q], ns0[q])
    requires TreeOK(nsF, rF, w) && nsF[w].parent == Ref(par)
    requires forall y | y in Ids(View(ns0, r0, root)) ::
      y < |ns0| && y < |nsF| && (ns0[y].parent != Ref(o) ==> nsF[y].parent == ns0[y].parent)
    requires forall x | x in Ids(View(nsF, rF, w)) :: x >= |ns0| || x in Ids(View(ns0, r0, o))
    ensures TreeOK(nsF, rF, root)
    ensures (IdsSize(View(ns0, r0, root)); n < Size(Erase(View(ns0, r0, root))))
    ensures Erase(View(nsF, rF, root)) == Subst(Erase(View(ns0, r0, root)), n, Erase(View(nsF, rF, w)))
    ensures forall y | y in Ids(View(nsF, rF, root)) :: y in Ids(View(ns0, r0, root)) || y >= |ns0|
  {
    var t0 := View(ns0, r0, root);
    var to := View(ns0, r0, o);
    var a, b := SpliceView(ns0, r0, nsF, rF, root, n, o, par, w);
    RankBelow(ns0, r0, root);
    SpliceIds(a, Ids(to), Ids(View(nsF, rF, w)), b, |ns0|);
  }

  /** Mutating an inner node: the parent's slot now holds the mutant. */
  lemma MutateInner(ns0: seq<NodeRec>, r0: seq<nat>, nsF: seq<NodeRec>, rF: seq<nat>,
                    root: nat, n: nat, o: nat, p: MutPick)
    requires TreeOK(ns0, r0, root) && 0 < n < |Ids(View(ns0, r0, root))| && Ids(View(ns0, r0, root))[n] == o
    requires AfterMutate(ns0, r0, nsF, rF, o, p)
    requires forall q | 0 <= q < KeepOf(ns0, o, p) :: ns0[o].children[q].Ref?
    ensures TreeOK(nsF, rF, root)
    ensures (IdsSize(View(ns0, r0, root)); Erase(View(nsF, rF, root)) == MutateAt(Erase(View(ns0, r0, root)), n, p))
    ensures forall y | y in Ids(View(nsF, rF, root)) :: y in Ids(View(ns0, r0, root)) || y >= |ns0|
  {
    var m := |ns0|;
    var t0 := View(ns0, r0, root);
    var keep := KeepOf(ns0, o, p);
    IdsSize(t0);
    assert Ids(t0)[0] == root;
    assert o in Ids(t0);
    SubView(ns0, r0, root, o);
    NthView(ns0, r0, root, n);
    var to := View(ns0, r0, o);
    MutantLive(ns0, r0, nsF, rF, o, p);
    MutationShape(ns0, r0, nsF, rF, o, p);
    MutantKids(ns0, r0, nsF, rF, o, p);
    RankBelow(ns0, r0, o);
    MutantContents(View(nsF, rF, m), to, keep, m, p, |nsF|);
    var par := OwnerOf(ns0, r0, root, o);
    MutateSplice(ns0, r0, nsF, rF, root, o, p, par);
    SpliceLive(ns0, r0, nsF, rF, root, n, o, par, m);
  }

  /** The mutant heads a live tree whose value is Mutated applied to the old node's. */
  lemma MutantResult(ns0: seq<NodeRec>, r0: seq<nat>, nsF: seq<NodeRec>, rF: seq<nat>, o: nat, p: MutPick)
    requires WellFormed(ns0, r0) && AfterMutate(ns0, r0, nsF, rF, o, p)
    requires forall q | 0 <= q < KeepOf(ns0, o, p) :: ns0[o].children[q].Ref?
    requires Unique(View(ns0, r0, o)) && Linked(ns0, View(ns0, r0, o))
    ensures TreeOK(nsF, rF, |ns0|)
    ensures Erase(View(ns0, r0, o)).Node? && Erase(View(nsF, rF, |ns0|)) == Mutated(Erase(View(ns0, r0, o)), p)
  {
    MutantLive(ns0, r0, nsF, rF, o, p);
    MutationShape(ns0, r0, nsF, rF, o, p);
    MutantKids(ns0, r0, nsF, rF, o, p);
    MutantValue(View(nsF, rF, |ns0|), View(ns0, r0, o), KeepOf(ns0, o, p), |ns0|, p);
  }

  /**
   * The effect of Mutate on the live tree `root` in which `o` is node number
   * `n`: the tree (rooted at the mutant when n = 0) is live and is
   * MutateAt of the old one; its nodes are old nodes of the tree or fresh;
   * no record outside the old tree changed except `o`'s parent.
   */
  lemma MutateEffect(ns0: seq<NodeRec>, r0: seq<nat>, nsF: seq<NodeRec>, rF: seq<nat>,
                     root: nat, n: nat, o: nat, p: MutPick)
    requires TreeOK(ns0, r0, root) && n < |Ids(View(ns0, r0, root))| && Ids(View(ns0, r0, root))[n] == o
    requires AfterMutate(ns0, r0, nsF, rF, o, p)
    requires forall q | 0 <= q < KeepOf(ns0, o, p) :: ns0[o].children[q].Ref?
    ensures var top := if n == 0 then |ns0| else root;
      TreeOK(nsF, rF, top) &&
      (IdsSize(View(ns0, r0, root)); Erase(View(nsF, rF, top)) == MutateAt(Erase(View(ns0, r0, root)), n, p)) &&
      forall y | y in Ids(View(nsF, rF, top)) :: y in Ids(View(ns0, r0, root)) || y >= |ns0|
    ensures forall y | 0 <= y < |ns0| && y !in Ids(View(ns0, r0, root)) && Ref(y) != ns0[o].parent :: nsF[y] == ns0[y]
    ensures TreeOK(nsF, rF, |ns0|) && Erase(View(ns0, r0, o)).Node? &&
      Erase(View(nsF, rF, |ns0|)) == Mutated(Erase(View(ns0, r0, o)), p)
  {
    assert o in Ids(View(ns0, r0, root));
    SubView(ns0, r0, root, o);
    MutantResult(ns0, r0, nsF, rF, o, p);
    MutateOutside(ns0, r0, nsF, rF, root, n, o, p);
    if n == 0 {
      assert Ids(View(ns0, r0, root))[0] == root;
      MutateTop(ns0, r0, nsF, rF, root, p);
    } else {
      MutateInner(ns0, r0, nsF, rF, root, n, o, p);
    }
  }

  // ---------------------------------------------------------------------
  // The steps of Mutate, as the method in module Ast takes them.

  /** Nothing in the old arena holds the node appended after it. */
  lemma FreshUnheld(ns0: seq<NodeRec>, r0: seq<nat>, rec: NodeRec)
    requires WellFormed(ns0, r0) && forall j | 0 <= j < |rec.children| :: rec.children[j] == Nil
    ensures forall q, j | 0 <= q < |ns0 + [rec]| && 0 <= j < |(ns0 + [rec])[q].children| ::
      (ns0 + [rec])[q].children[j] != Ref(|ns0|)
  {
    forall q, j | 0 <= q < |ns0 + [rec]| && 0 <= j < |(ns0 + [rec])[q].children|
      ensures (ns0 + [rec])[q].children[j] != Ref(|ns0|)
    {
      if q < |ns0| {
        assert RecOK(ns0, r0, q);
        assert LinkIn(ns0[q].children[j], |ns0|);
      }
    }
  }

  /**
   * Before slot `i` of the kept-children loop: the mutant `m` = `|ns0|`, at
   * the old node's rank and without parent yet, holds the first `i` children
   * of `o`, which point back to it; `o`'s parent's slots hold `m`.
   */
  ghost predicate KeptStage(ns0: seq<NodeRec>, r0: seq<nat>, ns: seq<NodeRec>, rank: seq<nat>, o: nat, p: MutPick, i: nat)
  {
    ValidMutPick(p) && o < |ns0| && |r0| == |ns0| && i <= KeepOf(ns0, o, p) &&
    |ns| == |ns0| + 1 && rank == r0 + [r0[o]] &&
    var m := |ns0|;
    var k := MutantKind(p);
    ns[m].kind == k && ns[m].parent == Nil && |ns[m].children| == Arity(k) &&
    (forall q | 0 <= q < Arity(k) :: ns[m].children[q] == if q < i then ns0[o].children[q] else Nil) &&
    OldRecords(ns0, ns, o, i)
  }

  /** The mutant allocated, re-ranked and put in its parent's slots. */
  lemma KeptStart(ns0: seq<NodeRec>, r0: seq<nat>, ns: seq<NodeRec>, o: nat, p: MutPick)
    requires ValidMutPick(p) && o < |ns0| && |r0| == |ns0|
    requires var ns1 := ns0 + [NodeRec(MutantKind(p), Nils(Arity(MutantKind(p))), Nil)];
      var par := ns0[o].parent;
      if par.Ref? && par.id < |ns0| then
        ns == ns1[par.id := ns1[par.id].(children := Redirected(ns1[par.id].children, Ref(o), Ref(|ns0|)))]
      else ns == ns1 && par == Nil
    ensures KeptStage(ns0, r0, ns, r0 + [r0[o]], o, p, 0)
  {
  }

  /** The old records after child `c` = `o`'s child `i` is reparented to the mutant. */
  lemma KeptRecords(ns0: seq<NodeRec>, ns: seq<NodeRec>, o: nat, i: nat, ns': seq<NodeRec>)
    requires o < |ns0| && i < |ns0[o].children| && ns0[o].children[i].Ref? && ns0[o].children[i].id < |ns0|
    requires |ns0| < |ns| == |ns'| && OldRecords(ns0, ns, o, i)
    requires var c := ns0[o].children[i].id;
      forall y | 0 <= y < |ns0| :: ns'[y] == if y == c then ns[y].(parent := Ref(|ns0|)) else ns[y]
    ensures OldRecords(ns0, ns', o, i + 1)
  {
    var cs := ns0[o].children;
    assert cs[..i + 1] == cs[..i] + [cs[i]];
  }

  /** `o`'s own slots never held `o`, so they are as before. */
  lemma OwnSlots(ns0: seq<NodeRec>, r0: seq<nat>, ns: seq<NodeRec>, o: nat, i: nat)
    requires WellFormed(ns0, r0) && o < |ns0| <= |ns| && i <= |ns0[o].children| && OldRecords(ns0, ns, o, i)
    ensures ns[o].children == ns0[o].children
  {
    assert RecOK(ns0, r0, o);
    assert Ref(o) !in ns0[o].children;
    assert Redirected(ns0[o].children, Ref(o), Ref(|ns0|)) == ns0[o].children;
  }

  /** Slot `i` of the mutant takes `o`'s child `i`, whose parent becomes the mutant. */
  lemma KeptStep(ns0: seq<NodeRec>, r0: seq<nat>, ns: seq<NodeRec>, rank: seq<nat>, o: nat, p: MutPick, i: nat,
                 ns': seq<NodeRec>)
    requires WellFormed(ns0, r0) && KeptStage(ns0, r0, ns, rank, o, p, i) && i < KeepOf(ns0, o, p)
    requires ns0[o].children[i].Ref?
    requires var c := ns0[o].children[i].id;
      c < |ns| && |ns0| < |ns| && i < |ns[|ns0|].children| &&
      ns' == SetSlot(ns, |ns0|, i, c)[c := SetSlot(ns, |ns0|, i, c)[c].(parent := Ref(|ns0|))]
    ensures KeptStage(ns0, r0, ns', rank, o, p, i + 1)
  {
    var m := |ns0|;
    var c := ns0[o].children[i].id;
    assert RecOK(ns0, r0, o);
    assert c < m;
    KeptRecords(ns0, ns, o, i, ns');
  }

  /** The mutant's slot `q` once the leaf loop has passed it. */
  function MutantSlotAt(ns0: seq<NodeRec>, o: nat, p: MutPick, d: nat, q: nat): Link
    requires ValidMutPick(p) && o < |ns0|
  {
    if q < d then MutantSlot(ns0[o].children, KeepOf(ns0, o, p), |ns0|, q) else Nil
  }

  /**
   * Before slot `j` of the leaf loop: the mutant holds the kept children and
   * the leaves allocated so far, one per nil slot before `max(j, keep)`.
   */
  ghost predicate LeafStage(ns0: seq<NodeRec>, r0: seq<nat>, ns: seq<NodeRec>, rank: seq<nat>, o: nat, p: MutPick, j: nat)
  {
    ValidMutPick(p) && o < |ns0| && |r0| == |ns0| && j <= Arity(MutantKind(p)) &&
    var m := |ns0|;
    var k := MutantKind(p);
    var keep := KeepOf(ns0, o, p);
    var d := if j < keep then keep else j;
    |ns| == m + 1 + (d - keep) && |rank| == |ns| && rank[..m] == r0 && rank[m] == r0[o] &&
    (forall l | m < l < |ns| :: rank[l] > r0[o]) &&
    (forall q | 0 <= q < keep :: ns0[o].children[q].Ref?) &&
    ns[m].kind == k && ns[m].parent == Nil && |ns[m].children| == Arity(k) &&
    (forall q | 0 <= q < Arity(k) :: ns[m].children[q] == MutantSlotAt(ns0, o, p, d, q)) &&
    (forall q | keep <= q < d :: ns[MutantSlot(ns0[o].children, keep, m, q).id] == NodeRec(FillKind(p, q), [], Ref(m))) &&
    OldRecords(ns0, ns, o, keep)
  }

  lemma KeptDone(ns0: seq<NodeRec>, r0: seq<nat>, ns: seq<NodeRec>, rank: seq<nat>, o: nat, p: MutPick)
    requires ValidMutPick(p) && o < |ns0| && forall q | 0 <= q < KeepOf(ns0, o, p) :: ns0[o].children[q].Ref?
    requires KeptStage(ns0, r0, ns, rank, o, p, KeepOf(ns0, o, p))
    ensures LeafStage(ns0, r0, ns, rank, o, p, 0)
  {
  }

  /** A slot holding a kept child is left alone. */
  lemma LeafSkip(ns0: seq<NodeRec>, r0: seq<nat>, ns: seq<NodeRec>, rank: seq<nat>, o: nat, p: MutPick, j: nat)
    requires LeafStage(ns0, r0, ns, rank, o, p, j) && j < Arity(MutantKind(p)) && ns[|ns0|].children[j] != Nil
    ensures LeafStage(ns0, r0, ns, rank, o, p, j + 1)
  {
  }

  /** A nil slot gets a fresh leaf whose parent is the mutant. */
  lemma LeafStep(ns0: seq<NodeRec>, r0: seq<nat>, ns: seq<NodeRec>, rank: seq<nat>, o: nat, p: MutPick, j: nat,
                 r: nat, ns': seq<NodeRec>)
    requires LeafStage(ns0, r0, ns, rank, o, p, j) && j < Arity(MutantKind(p)) && ns[|ns0|].children[j] == Nil
    requires r > r0[o]
    requires var l := |ns|;
      var ns1 := (ns + [NodeRec(FillKind(p, j), [], Nil)])[l := NodeRec(FillKind(p, j), [], Ref(|ns0|))];
      ns' == SetSlot(ns1, |ns0|, j, l)
    ensures LeafStage(ns0, r0, ns', rank + [r], o, p, j + 1)
  {
    var m := |ns0|;
    var keep := KeepOf(ns0, o, p);
    var k := MutantKind(p);
    var cs := ns0[o].children;
    assert j >= keep;
    var l := |ns|;
    var rank' := rank + [r];
    assert MutantSlot(cs, keep, m, j).id == l;
    assert |ns'| == l + 1 && ns'[m].kind == k && ns'[m].parent == Nil;
    assert ns'[m].children == ns[m].children[j := Ref(l)];
    assert rank'[..m] == r0 by { assert rank'[..m] == rank[..m]; }
    forall q | 0 <= q < Arity(k) ensures ns'[m].children[q] == MutantSlotAt(ns0, o, p, j + 1, q) {
      if q != j {
        assert ns[m].children[q] == MutantSlotAt(ns0, o, p, j, q);
      }
    }
    forall q | keep <= q < j + 1 ensures ns'[MutantSlot(cs, keep, m, q).id] == NodeRec(FillKind(p, q), [], Ref(m)) {
      if q < j {
        var y := MutantSlot(cs, keep, m, q).id;
        assert m < y < l;
        assert ns'[y] == ns[y];
      }
    }
    forall y | 0 <= y < m ensures ns'[y] == ns[y] {
    }
    assert OldRecords(ns0, ns', o, keep);
  }

  /** The mutant takes `o`'s parent: the arena is as AfterMutate describes. */
  lemma LeafDone(ns0: seq<NodeRec>, r0: seq<nat>, ns: seq<NodeRec>, rank: seq<nat>, o: nat, p: MutPick, nsF: seq<NodeRec>)
    requires ValidMutPick(p) && LeafStage(ns0, r0, ns, rank, o, p, Arity(MutantKind(p)))
    requires nsF == ns[|ns0| := ns[|ns0|].(parent := ns0[o].parent)] && WellFormed(nsF, rank)
    ensures AfterMutate(ns0, r0, nsF, rank, o, p)
  {
    var m := |ns0|;
    var keep := KeepOf(ns0, o, p);
    var k := MutantKind(p);
    forall q | 0 <= q < Arity(k) ensures nsF[m].children[q] == MutantSlot(ns0[o].children, keep, m, q) {
      assert ns[m].children[q] == MutantSlotAt(ns0, o, p, Arity(k), q);
    }
  }
}

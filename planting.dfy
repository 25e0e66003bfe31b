/**
 * What AddRandom and AddLeaf do to the node graph: they hang a node with
 * nil slots into a nil slot of a tree. The slot is found by walking child
 * slots from the root (HoleOf); the two stores are the new node's parent
 * pointer and the slot itself (Plant). PlantEffect shows that the result is
 * again a proper tree whose value is InsertAt of the old one.
 */
module Planting {
  import opened Kinds
  import opened Trees
  import opened Heap
  import opened HeapUpdates

  /** A nil slot: the node that holds it and its index among that node's children. */
  datatype Spot = Spot(owner: nat, slot: nat)

  /** The nil slot that the slot choices `path` lead to from node `i`. */
  function HoleOf(ns: seq<NodeRec>, rank: seq<nat>, i: nat, path: seq<nat>): (s: Spot)
    requires WellFormed(ns, rank) && i < |ns| && PathToHole(Erase(View(ns, rank, i)), path)
    ensures s.owner < |ns| && s.slot < |ns[s.owner].children| && ns[s.owner].children[s.slot] == Nil
    decreases |path|
  {
    ViewUnfold(ns, rank, i);
    var c := ns[i].children[path[0]];
    if c.Nil? then Spot(i, path[0]) else HoleOf(ns, rank, c.id, path[1..])
  }

  /** `x.SetParent(h)`, then `h.Children[a] = x`. */
  function Plant(ns: seq<NodeRec>, h: nat, a: nat, x: nat): (ns': seq<NodeRec>)
    requires h < |ns| && a < |ns[h].children| && x < |ns|
    ensures |ns'| == |ns|
  {
    SetSlot(ns[x := ns[x].(parent := Ref(h))], h, a, x)
  }

  /** The planted node's rank: above every other, so that its nil slots cannot lead back up. */
  function Raised(rank: seq<nat>, x: nat): seq<nat>
    requires x < |rank|
  {
    rank[x := MaxRank(rank) + 1]
  }

  /** A record whose slots are all nil: what GetRandomBaseNode and GetRandomLeaf return. */
  predicate Bare(ns: seq<NodeRec>, x: nat)
    requires x < |ns|
  {
    forall j | 0 <= j < |ns[x].children| :: ns[x].children[j] == Nil
  }

  /** The records Plant leaves alone, and the one it only re-parents, keep their shape. */
  lemma PlantShape(ns: seq<NodeRec>, h: nat, a: nat, x: nat)
    requires h < |ns| && a < |ns[h].children| && x < |ns| && x != h
    ensures var ns' := Plant(ns, h, a, x);
      (forall y | 0 <= y < |ns| && y != h :: SameShape(ns'[y], ns[y])) &&
      (forall y | 0 <= y < |ns| && y != x :: ns'[y].parent == ns[y].parent) &&
      ns'[x].parent == Ref(h) && ns'[x].children == ns[x].children &&
      ns'[h].kind == ns[h].kind && ns'[h].children == ns[h].children[a := Ref(x)]
  {
  }

  lemma PlantWF(ns: seq<NodeRec>, rank: seq<nat>, h: nat, a: nat, x: nat)
    requires WellFormed(ns, rank) && h < |ns| && a < |ns[h].children| && x < |ns| && x != h && Bare(ns, x)
    ensures WellFormed(Plant(ns, h, a, x), Raised(rank, x))
    ensures View(Plant(ns, h, a, x), Raised(rank, x), x) == INode(x, ns[x].kind, seq(|ns[x].children|, _ => IHole))
  {
    var v := MaxRank(rank) + 1;
    WFRerank(ns, rank, x, v);
    var r1 := rank[x := v];
    assert RecOK(ns, r1, x);
    WFSet(ns, r1, x, ns[x].(parent := Ref(h)));
    var ns1 := ns[x := ns[x].(parent := Ref(h))];
    assert r1[h] < r1[x];
    WFSlot(ns1, r1, h, a, x);
    var ns' := Plant(ns, h, a, x);
    assert ns'[x] == ns1[x];
    BlankView(ns', r1, x);
  }

  /**
   * The planted owner's view: its old subtrees, with the bare node in slot `a`.
   * The subtrees below it cannot see the change, being ranked above it.
   */
  lemma PlantOwner(ns: seq<NodeRec>, rank: seq<nat>, h: nat, a: nat, x: nat)
    requires WellFormed(ns, rank) && h < |ns| && a < |ns[h].children| && x < |ns| && x != h && Bare(ns, x)
    requires ns[h].children[a] == Nil
    ensures (PlantWF(ns, rank, h, a, x);
      var t := View(ns, rank, h);
      View(Plant(ns, h, a, x), Raised(rank, x), h) ==
        INode(h, t.kind, t.kids[a := View(Plant(ns, h, a, x), Raised(rank, x), x)]))
  {
    PlantWF(ns, rank, h, a, x);
    PlantShape(ns, h, a, x);
    var ns', rank' := Plant(ns, h, a, x), Raised(rank, x);
    var t, t' := View(ns, rank, h), View(ns', rank', h);
    ViewUnfold(ns, rank, h);
    ViewUnfold(ns', rank', h);
    var want := t.kids[a := View(ns', rank', x)];
    forall j | 0 <= j < |t.kids| ensures t'.kids[j] == want[j] {
      if j != a && ns[h].children[j].Ref? {
        FrameBelow(ns, rank, ns', rank', ns[h].children[j].id, h);
      }
    }
    assert t'.kids == want;
  }

  /**
   * Filling the nil slot HoleOf finds, in the view of `i`, is InsertAt along
   * the same path; and that slot's owner belongs to the tree.
   */
  lemma {:induction false} InsertReplace(ns: seq<NodeRec>, rank: seq<nat>, i: nat, path: seq<nat>, x: ITree)
    requires WellFormed(ns, rank) && i < |ns| && Unique(View(ns, rank, i))
    requires PathToHole(Erase(View(ns, rank, i)), path)
    ensures var s := HoleOf(ns, rank, i, path);
      var o := View(ns, rank, s.owner);
      s.owner in Ids(View(ns, rank, i)) &&
      Erase(ReplaceSub(View(ns, rank, i), s.owner, INode(s.owner, o.kind, o.kids[s.slot := x]))) ==
        InsertAt(Erase(View(ns, rank, i)), path, Erase(x))
    decreases |path|
  {
    var s := HoleOf(ns, rank, i, path);
    var o := View(ns, rank, s.owner);
    var y := INode(s.owner, o.kind, o.kids[s.slot := x]);
    var t := View(ns, rank, i);
    var e := Erase(t);
    ViewUnfold(ns, rank, i);
    var a := path[0];
    var c := ns[i].children[a];
    if c.Nil? {
      assert s == Spot(i, a) && o == t;
      assert EraseIn(t.kids[a := x]) == e.kids[a := Erase(x)];
    } else {
      ChildInView(ns, rank, i, c.id);
      assert t.kids[a] == View(ns, rank, c.id);
      KidIds(t, a);
      InsertReplace(ns, rank, c.id, path[1..], x);
      assert s == HoleOf(ns, rank, c.id, path[1..]);
      ReplaceOneKid(t, a, s.owner, y);
      var k' := ReplaceSub(t.kids[a], s.owner, y);
      assert ReplaceSub(t, s.owner, y) == INode(i, t.kind, t.kids[a := k']);
      assert EraseIn(t.kids[a := k']) == e.kids[a := Erase(k')];
    }
  }

  /** The ids after planting: the old ones with `x` inserted, and still distinct. */
  lemma PlantIds(ns: seq<NodeRec>, rank: seq<nat>, i: nat, h: nat, a: nat, x: nat, y: ITree)
    requires WellFormed(ns, rank) && i < |ns| && Unique(View(ns, rank, i)) && h in Ids(View(ns, rank, i))
    requires h < |ns| && a < |ns[h].children| && ns[h].children[a] == Nil
    requires x !in Ids(View(ns, rank, i)) && Ids(y) == [x]
    ensures var o := View(ns, rank, h);
      var ids' := Ids(ReplaceSub(View(ns, rank, i), h, INode(h, o.kind, o.kids[a := y])));
      Distinct(ids') && forall z :: z in ids' <==> z in Ids(View(ns, rank, i)) || z == x
  {
    var o := View(ns, rank, h);
    ViewUnfold(ns, rank, h);
    var n := INode(h, o.kind, o.kids[a := y]);
    var A, B := IdsReplace(ns, rank, i, h, n);
    assert o.kids[a] == IHole;
    InsertedIds(Ids(View(ns, rank, i)), Ids(ReplaceSub(View(ns, rank, i), h, n)), A, B, o, a, y, x);
  }

  lemma InsertedIds(ids: seq<nat>, ids': seq<nat>, A: seq<nat>, B: seq<nat>, o: ITree, a: nat, y: ITree, x: nat)
    requires o.INode? && a < |o.kids| && o.kids[a] == IHole && Ids(y) == [x]
    requires ids == A + Ids(o) + B && ids' == A + Ids(INode(o.id, o.kind, o.kids[a := y])) + B
    requires Distinct(ids) && x !in ids
    ensures Distinct(ids') && forall z :: z in ids' <==> z in ids || z == x
  {
    var P, S := FilledIds(o, a, y);
    assert ids == (A + P) + (S + B) by {
      assert ids == A + (P + S) + B;
    }
    assert ids' == (A + P) + [x] + (S + B) by {
      assert ids' == A + (P + [x] + S) + B;
    }
    InsertedId(A + P, S + B, x);
  }

  /** The ids of a node before and after its nil slot `a` is given the subtree `y`. */
  lemma FilledIds(o: ITree, a: nat, y: ITree) returns (p: seq<nat>, s: seq<nat>)
    requires o.INode? && a < |o.kids| && o.kids[a] == IHole
    ensures Ids(o) == p + s && Ids(INode(o.id, o.kind, o.kids[a := y])) == p + Ids(y) + s
  {
    IdsInSlice(o.kids, a);
    IdsInSet(o.kids, a, y);
    p, s := [o.id] + IdsIn(o.kids[..a]), IdsIn(o.kids[a + 1..]);
  }

  lemma InsertedId(p: seq<nat>, s: seq<nat>, x: nat)
    requires Distinct(p + s) && x !in p + s
    ensures Distinct(p + [x] + s) && forall z :: z in p + [x] + s <==> z in p + s || z == x
  {
    assert (p + s)[..|p|] == p && (p + s)[|p|..] == s;
    DistinctInsert(p + s, |p|, x);
  }

  /** The planted owner is linked in the new graph. */
  lemma OwnerLinked(ns: seq<NodeRec>, rank: seq<nat>, i: nat, h: nat, a: nat, x: nat)
    requires TreeOK(ns, rank, i) && h in Ids(View(ns, rank, i))
    requires h < |ns| && a < |ns[h].children| && ns[h].children[a] == Nil
    requires x < |ns| && x !in Ids(View(ns, rank, i)) && Bare(ns, x)
    ensures h != x && (PlantWF(ns, rank, h, a, x);
      Linked(Plant(ns, h, a, x), View(Plant(ns, h, a, x), Raised(rank, x), h)))
  {
    PlantWF(ns, rank, h, a, x);
    PlantShape(ns, h, a, x);
    PlantOwner(ns, rank, h, a, x);
    var ns', rank' := Plant(ns, h, a, x), Raised(rank, x);
    var o := View(ns, rank, h);
    SubView(ns, rank, i, h);
    RankBelow(ns, rank, h);
    forall z | z in IdsIn(o.kids) ensures z < |ns| && z < |ns'| && ns'[z].parent == ns[z].parent {
      assert z in Ids(o);
      assert z != x;
    }
    BlankView(ns', rank', x);
    SlotLinked(ns, ns', o, a, View(ns', rank', x));
  }

  /** Everything above the planted owner stays linked too. */
  lemma PlantLinked(ns: seq<NodeRec>, rank: seq<nat>, i: nat, h: nat, a: nat, x: nat)
    requires TreeOK(ns, rank, i) && h in Ids(View(ns, rank, i))
    requires h < |ns| && a < |ns[h].children| && ns[h].children[a] == Nil
    requires x < |ns| && x !in Ids(View(ns, rank, i)) && Bare(ns, x)
    ensures h != x && (PlantWF(ns, rank, h, a, x);
      Linked(Plant(ns, h, a, x), ReplaceSub(View(ns, rank, i), h, View(Plant(ns, h, a, x), Raised(rank, x), h))))
  {
    OwnerLinked(ns, rank, i, h, a, x);
    PlantWF(ns, rank, h, a, x);
    PlantShape(ns, h, a, x);
    var ns', rank' := Plant(ns, h, a, x), Raised(rank, x);
    RankBelow(ns, rank, i);
    forall y | y in Ids(View(ns, rank, i)) ensures y < |ns| && y < |ns'| && ns'[y].parent == ns[y].parent {
      assert y != x;
    }
    LinkedReplace(ns, ns', View(ns, rank, i), h, View(ns', rank', h));
  }

  /** A linked node stays linked when a nil slot gets a linked subtree whose parent is that node. */
  lemma SlotLinked(ns: seq<NodeRec>, ns': seq<NodeRec>, o: ITree, a: nat, y: ITree)
    requires o.INode? && Linked(ns, o) && a < |o.kids|
    requires y.INode? && y.id < |ns'| && ns'[y.id].parent == Ref(o.id) && Linked(ns', y)
    requires forall z | z in IdsIn(o.kids) :: z < |ns| && z < |ns'| && ns'[z].parent == ns[z].parent
    ensures Linked(ns', INode(o.id, o.kind, o.kids[a := y]))
  {
    var kids := o.kids[a := y];
    forall j | 0 <= j < |kids|
      ensures Linked(ns', kids[j])
      ensures kids[j].INode? ==> kids[j].id < |ns'| && ns'[kids[j].id].parent == Ref(o.id)
    {
      if j != a && o.kids[j].INode? {
        IdsInSlice(o.kids, j);
        assert forall z | z in Ids(o.kids[j]) :: z in IdsIn(o.kids);
        LinkedFrame(ns, ns', o.kids[j]);
        assert o.kids[j].id in Ids(o.kids[j]);
      }
    }
  }

  /**
   * AddRandom's and AddLeaf's effect on a live tree: planting the bare node
   * `x` in the nil slot the path leads to leaves a live tree whose value is
   * InsertAt of the old value, and whose nodes are the old ones and `x`.
   */
  lemma PlantEffect(ns: seq<NodeRec>, rank: seq<nat>, i: nat, path: seq<nat>, x: nat)
    requires TreeOK(ns, rank, i) && PathToHole(Erase(View(ns, rank, i)), path)
    requires x < |ns| && x !in Ids(View(ns, rank, i)) && Bare(ns, x)
    ensures var s := HoleOf(ns, rank, i, path);
      var ns', rank' := Plant(ns, s.owner, s.slot, x), Raised(rank, x);
      TreeOK(ns', rank', i) &&
      Erase(View(ns', rank', i)) == InsertAt(Erase(View(ns, rank, i)), path, Erase(View(ns, rank, x))) &&
      forall z :: z in Ids(View(ns', rank', i)) <==> z in Ids(View(ns, rank, i)) || z == x
  {
    var s := HoleOf(ns, rank, i, path);
    var h, a := s.owner, s.slot;
    InsertReplace(ns, rank, i, path, IHole);
    PlantLinked(ns, rank, i, h, a, x);
    PlantWF(ns, rank, h, a, x);
    PlantShape(ns, h, a, x);
    PlantOwner(ns, rank, h, a, x);
    var ns', rank' := Plant(ns, h, a, x), Raised(rank, x);
    var xv := View(ns', rank', x);
    ViewUpdate(ns, rank, ns', rank', i, h);
    InsertReplace(ns, rank, i, path, xv);
    BlankView(ns, rank, x);
    BlankView(ns', rank', x);
    PlantIds(ns, rank, i, h, a, x, xv);
  }
}

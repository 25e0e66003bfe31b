/**
 * How the arena's invariants and views behave under the elementary changes
 * the Go code makes: writing one record, appending a fresh node, re-ranking a
 * childless node, changing parent pointers, and replacing one subtree.
 */
module HeapUpdates {
  import opened Kinds
  import opened Trees
  import opened Heap

  /** Writing one record that fits its rank keeps the arena well formed. */
  lemma WFSet(ns: seq<NodeRec>, rank: seq<nat>, p: nat, rec: NodeRec)
    requires WellFormed(ns, rank) && p < |ns| && RecFits(rec, rank, rank[p])
    ensures WellFormed(ns[p := rec], rank)
  {
    var ns' := ns[p := rec];
    forall i | 0 <= i < |ns'| ensures RecOK(ns', rank, i) {
      assert RecOK(ns, rank, i);
    }
  }

  /** Appending a record that fits above the arena keeps it well formed. */
  lemma WFAppend(ns: seq<NodeRec>, rank: seq<nat>, rec: NodeRec, r: nat)
    requires WellFormed(ns, rank) && RecFits(rec, rank + [r], r)
    ensures WellFormed(ns + [rec], rank + [r])
  {
    var ns' := ns + [rec];
    var rank' := rank + [r];
    forall i | 0 <= i < |ns'| ensures RecOK(ns', rank', i) {
      if i < |ns| {
        assert RecOK(ns, rank, i);
        assert ns'[i] == ns[i] && rank'[i] == rank[i];
        var cs := ns[i].children;
        forall j | 0 <= j < |cs| && cs[j].Ref? ensures rank'[cs[j].id] == rank[cs[j].id] {
        }
      }
    }
  }

  /**
   * A node whose slots are all nil can be given any rank above every node
   * that holds it; fresh nodes are re-ranked this way so that they can be
   * hung below any node.
   */
  lemma WFRerank(ns: seq<NodeRec>, rank: seq<nat>, x: nat, v: nat)
    requires WellFormed(ns, rank) && x < |ns|
    requires forall j | 0 <= j < |ns[x].children| :: ns[x].children[j] == Nil
    requires forall q, j | 0 <= q < |ns| && 0 <= j < |ns[q].children| && ns[q].children[j] == Ref(x) :: rank[q] < v
    ensures WellFormed(ns, rank[x := v])
  {
    var rank' := rank[x := v];
    forall i | 0 <= i < |ns| ensures RecOK(ns, rank', i) {
      assert RecOK(ns, rank, i);
      var cs := ns[i].children;
      forall j | 0 <= j < |cs| && cs[j].Ref? ensures rank'[i] < rank'[cs[j].id] {
        if cs[j].id == x {
          assert rank[i] < v;
        }
      }
    }
  }

  /** Views of old nodes survive any change that keeps the old records' kinds and slots. */
  lemma ExtendFrame(ns: seq<NodeRec>, rank: seq<nat>, ns': seq<NodeRec>, rank': seq<nat>, i: nat)
    requires WellFormed(ns, rank) && WellFormed(ns', rank') && i < |ns| <= |ns'|
    requires forall q | 0 <= q < |ns| :: SameShape(ns'[q], ns[q])
    ensures View(ns', rank', i) == View(ns, rank, i)
  {
    RankBelow(ns, rank, i);
    ViewFrame(ns, rank, ns', rank', i);
  }

  /** Parent consistency of a tree depends only on the parent pointers of its own nodes. */
  lemma {:induction false} LinkedFrame(ns: seq<NodeRec>, ns': seq<NodeRec>, t: ITree)
    requires Linked(ns, t)
    requires forall y | y in Ids(t) :: y < |ns| && y < |ns'| && ns'[y].parent == ns[y].parent
    ensures Linked(ns', t)
  {
    match t
    case IHole =>
    case INode(id, _, kids) =>
      forall j | 0 <= j < |kids| ensures Linked(ns', kids[j]) {
        KidIds(t, j);
        LinkedFrame(ns, ns', kids[j]);
      }
      forall j | 0 <= j < |kids| && kids[j].INode?
        ensures kids[j].id < |ns'| && ns'[kids[j].id].parent == Ref(id)
      {
        KidIds(t, j);
        assert kids[j].id == Ids(kids[j])[0];
      }
  }

  /** A tree's own links do not involve its root's parent pointer. */
  lemma LinkedFrameBelow(ns: seq<NodeRec>, ns': seq<NodeRec>, t: ITree)
    requires Linked(ns, t) && t.INode?
    requires forall y | y in IdsIn(t.kids) :: y < |ns| && y < |ns'| && ns'[y].parent == ns[y].parent
    ensures Linked(ns', t)
  {
    forall j | 0 <= j < |t.kids| ensures Linked(ns', t.kids[j]) {
      IdsInSlice(t.kids, j);
      LinkedFrame(ns, ns', t.kids[j]);
    }
    forall j | 0 <= j < |t.kids| && t.kids[j].INode?
      ensures t.kids[j].id < |ns'| && ns'[t.kids[j].id].parent == Ref(t.id)
    {
      IdsInSlice(t.kids, j);
      assert t.kids[j].id == Ids(t.kids[j])[0];
    }
  }

  /** Changing one record `q` shows up in the view as replacing `q`'s subtree. */
  lemma {:induction false} ViewUpdate(ns: seq<NodeRec>, rank: seq<nat>, ns': seq<NodeRec>, rank': seq<nat>,
                                      i: nat, q: nat)
    requires WellFormed(ns, rank) && WellFormed(ns', rank') && i < |ns| <= |ns'| && q < |ns'|
    requires forall y | 0 <= y < |ns| && y != q :: SameShape(ns'[y], ns[y])
    ensures View(ns', rank', i) == ReplaceSub(View(ns, rank, i), q, View(ns', rank', q))
    decreases MaxRank(rank) - rank[i]
  {
    if i != q {
      var t := View(ns, rank, i);
      var t' := View(ns', rank', i);
      var x := View(ns', rank', q);
      assert RecOK(ns, rank, i);
      var cs := ns[i].children;
      forall j | 0 <= j < |t.kids| ensures t'.kids[j] == ReplaceSub(t.kids[j], q, x) {
        if cs[j].Ref? {
          ViewUpdate(ns, rank, ns', rank', cs[j].id, q);
        }
      }
      assert t'.kids == ReplaceSubIn(t.kids, q, x);
    }
  }

  /**
   * In a unique tree, replacing the subtree of `o` replaces exactly its
   * slice of the pre-order ids.
   */
  lemma {:induction false} IdsReplace(ns: seq<NodeRec>, rank: seq<nat>, i: nat, o: nat, x: ITree)
    returns (a: seq<nat>, b: seq<nat>)
    requires WellFormed(ns, rank) && i < |ns| && Unique(View(ns, rank, i)) && o in Ids(View(ns, rank, i))
    ensures o < |ns|
    ensures Ids(View(ns, rank, i)) == a + Ids(View(ns, rank, o)) + b
    ensures Ids(ReplaceSub(View(ns, rank, i), o, x)) == a + Ids(x) + b
    decreases MaxRank(rank) - rank[i]
  {
    var t := View(ns, rank, i);
    if i == o {
      a, b := [], [];
    } else {
      assert RecOK(ns, rank, i);
      var ks := t.kids;
      var j := IdsInMember(ks, o);
      var c := ns[i].children[j].id;
      KidIds(t, j);
      var a', b' := IdsReplace(ns, rank, c, o, x);
      assert ks[j] == View(ns, rank, c);
      var y := ReplaceSub(ks[j], o, x);
      ReplaceOneKid(t, j, o, x);
      IdsInSlice(ks, j);
      IdsInSet(ks, j, y);
      var pre, post := IdsIn(ks[..j]), IdsIn(ks[j + 1..]);
      assert Ids(t) == [i] + (pre + (a' + Ids(View(ns, rank, o)) + b') + post);
      assert Ids(ReplaceSub(t, o, x)) == [i] + (pre + (a' + Ids(x) + b') + post);
      a := [i] + pre + a';
      b := b' + post;
      SeqAssoc([i], pre, a', Ids(View(ns, rank, o)), b', post);
      SeqAssoc([i], pre, a', Ids(x), b', post);
    }
  }

  lemma SeqAssoc(s1: seq<nat>, s2: seq<nat>, s3: seq<nat>, s4: seq<nat>, s5: seq<nat>, s6: seq<nat>)
    ensures s1 + (s2 + (s3 + s4 + s5) + s6) == (s1 + s2 + s3) + s4 + (s5 + s6)
  {
  }

  /** In a unique tree, replacing `o` touches only the child whose subtree holds `o`. */
  lemma ReplaceOneKid(t: ITree, j: nat, o: nat, x: ITree)
    requires t.INode? && Unique(t) && j < |t.kids| && o in Ids(t.kids[j])
    ensures ReplaceSubIn(t.kids, o, x) == t.kids[j := ReplaceSub(t.kids[j], o, x)]
  {
    var ks := t.kids;
    forall j' | 0 <= j' < |ks| && j' != j ensures ReplaceSub(ks[j'], o, x) == ks[j'] {
      if j' < j {
        KidsDisjoint(t, j', j);
      } else {
        KidsDisjoint(t, j, j');
      }
      ReplaceSubAbsent(ks[j'], o, x);
    }
  }

  lemma IdsInSet(ks: seq<ITree>, j: nat, y: ITree)
    requires j < |ks|
    ensures IdsIn(ks[j := y]) == IdsIn(ks[..j]) + Ids(y) + IdsIn(ks[j + 1..])
  {
    var ks' := ks[j := y];
    IdsInSlice(ks', j);
    assert ks'[..j] == ks[..j] && ks'[j + 1..] == ks[j + 1..];
  }

  /**
   * Hanging `x` where `o` was keeps a tree linked when `x` is linked, its root
   * points to `o`'s parent, and no parent pointer changed except those of
   * `o`'s own children.
   */
  lemma {:induction false} LinkedReplace(ns: seq<NodeRec>, ns': seq<NodeRec>, t: ITree, o: nat, x: ITree)
    requires Linked(ns, t) && Linked(ns', x) && x.INode? && x.id < |ns'| && o < |ns|
    requires ns'[x.id].parent == ns[o].parent
    requires forall y | y in Ids(t) :: y < |ns| && y < |ns'| && (ns[y].parent != Ref(o) ==> ns'[y].parent == ns[y].parent)
    ensures Linked(ns', ReplaceSub(t, o, x))
  {
    match t
    case IHole =>
    case INode(id, k, kids) =>
      if id != o {
        var ks' := ReplaceSubIn(kids, o, x);
        forall j | 0 <= j < |kids|
          ensures Linked(ns', ks'[j])
          ensures ks'[j].INode? ==> ks'[j].id < |ns'| && ns'[ks'[j].id].parent == Ref(id)
        {
          KidIds(t, j);
          LinkedReplace(ns, ns', kids[j], o, x);
          if kids[j].INode? && kids[j].id != o {
            assert kids[j].id == Ids(kids[j])[0];
          }
        }
      }
  }

  /** Inserting a new id into a sequence without repetitions keeps it without repetitions. */
  lemma DistinctInsert(s: seq<nat>, k: nat, v: nat)
    requires Distinct(s) && k <= |s| && v !in s
    ensures Distinct(s[..k] + [v] + s[k..])
  {
    assert s == s[..k] + s[k..];
    DistinctAppend(s[..k], s[k..]);
    DistinctAppend(s[..k], [v]);
    DistinctAppend(s[..k] + [v], s[k..]);
  }

  /** In a complete view every slot holds a node whose own view is complete. */
  lemma CompleteKids(ns: seq<NodeRec>, rank: seq<nat>, i: nat)
    requires WellFormed(ns, rank) && i < |ns| && Complete(Erase(View(ns, rank, i)))
    ensures forall j | 0 <= j < |ns[i].children| ::
      ns[i].children[j].Ref? && ns[i].children[j].id < |ns| &&
      Complete(Erase(View(ns, rank, ns[i].children[j].id)))
  {
    assert RecOK(ns, rank, i);
    var t := View(ns, rank, i);
    var e := Erase(t);
    assert |t.kids| == |ns[i].children| && e.kids == EraseIn(t.kids);
    HolesInBound(e.kids);
    forall j | 0 <= j < |ns[i].children|
      ensures ns[i].children[j].Ref? && Complete(Erase(View(ns, rank, ns[i].children[j].id)))
    {
      assert e.kids[j] == Erase(t.kids[j]);
      assert Holes(e.kids[j]) <= HolesIn(e.kids);
    }
  }

  /** One level of a view: the node's own kind, and per slot a hole or the child's view. */
  lemma ViewUnfold(ns: seq<NodeRec>, rank: seq<nat>, i: nat)
    requires WellFormed(ns, rank) && i < |ns|
    ensures RecOK(ns, rank, i)
    ensures var t := View(ns, rank, i);
      t.id == i && t.kind == ns[i].kind && |t.kids| == |ns[i].children| &&
      forall j | 0 <= j < |t.kids| ::
        t.kids[j] == (if ns[i].children[j].Nil? then IHole else View(ns, rank, ns[i].children[j].id))
    ensures var e := Erase(View(ns, rank, i));
      e.Node? && e.kind == ns[i].kind && |e.kids| == |ns[i].children| &&
      forall j | 0 <= j < |e.kids| :: e.kids[j] == Erase(View(ns, rank, i).kids[j])
  {
    assert RecOK(ns, rank, i);
  }

  /** A change to a record ranked below `x` cannot be seen from `x`. */
  lemma FrameBelow(ns: seq<NodeRec>, rank: seq<nat>, ns': seq<NodeRec>, rank': seq<nat>, x: nat, q: nat)
    requires WellFormed(ns, rank) && WellFormed(ns', rank') && x < |ns| <= |ns'| && q < |ns|
    requires forall y | 0 <= y < |ns| && y != q :: SameShape(ns'[y], ns[y])
    requires rank[q] < rank[x]
    ensures View(ns', rank', x) == View(ns, rank, x)
  {
    ViewUpdate(ns, rank, ns', rank', x, q);
    RankBelow(ns, rank, x);
    ReplaceSubAbsent(View(ns, rank, x), q, View(ns', rank', q));
  }

  lemma IdsInHoles(ks: seq<ITree>)
    requires forall j | 0 <= j < |ks| :: ks[j] == IHole
    ensures IdsIn(ks) == []
  {
    if ks != [] {
      IdsInHoles(ks[1..]);
    }
  }

  /** The record of `c` with slot `j` pointed at `w`. */
  function SetSlot(ns: seq<NodeRec>, c: nat, j: nat, w: nat): (ns': seq<NodeRec>)
    requires c < |ns| && j < |ns[c].children|
    ensures |ns'| == |ns| && ns'[c].kind == ns[c].kind && ns'[c].parent == ns[c].parent
    ensures ns'[c].children == ns[c].children[j := Ref(w)]
    ensures forall y | 0 <= y < |ns| && y != c :: ns'[y] == ns[y]
  {
    ns[c := ns[c].(children := ns[c].children[j := Ref(w)])]
  }

  /**
   * The hypotheses of the step shared by CopyTree and parse: node `c`, whose
   * first `j` slots already hold the consecutive nodes `c`..`w-1` and whose
   * other slots are nil, is to get in slot `j` the fresh tree `w`..`|ns2|-1`
   * built since, whose root already points back at `c`.
   */
  ghost predicate FillReady(ns1: seq<NodeRec>, r1: seq<nat>, ns2: seq<NodeRec>, r2: seq<nat>, c: nat, j: nat, w: nat)
  {
    WellFormed(ns1, r1) && WellFormed(ns2, r2) && c < |ns1| == w < |ns2| &&
    ns2[..w] == ns1 && r2[..w] == r1 && r1[c] < r2[w] &&
    j < |ns1[c].children| && (forall q | j <= q < |ns1[c].children| :: ns1[c].children[q] == Nil) &&
    Ids(View(ns1, r1, c)) == Range(c, w) && Linked(ns1, View(ns1, r1, c)) &&
    Ids(View(ns2, r2, w)) == Range(w, |ns2|) && Linked(ns2, View(ns2, r2, w)) && ns2[w].parent == Ref(c)
  }

  lemma FillPrefix(ns1: seq<NodeRec>, r1: seq<nat>, ns2: seq<NodeRec>, r2: seq<nat>, c: nat, j: nat, w: nat)
    requires FillReady(ns1, r1, ns2, r2, c, j, w)
    ensures ns2[c] == ns1[c] && r2[c] == r1[c]
    ensures forall q | 0 <= q < w :: ns2[q] == ns1[q] && r2[q] == r1[q]
  {
    forall q | 0 <= q < w ensures ns2[q] == ns1[q] && r2[q] == r1[q] {
      assert ns2[..w][q] == ns2[q] && r2[..w][q] == r2[q];
    }
  }

  lemma FillWellFormed(ns1: seq<NodeRec>, r1: seq<nat>, ns2: seq<NodeRec>, r2: seq<nat>, c: nat, j: nat, w: nat)
    requires FillReady(ns1, r1, ns2, r2, c, j, w)
    ensures WellFormed(SetSlot(ns2, c, j, w), r2)
  {
    FillPrefix(ns1, r1, ns2, r2, c, j, w);
    assert RecOK(ns2, r2, c);
    WFSet(ns2, r2, c, SetSlot(ns2, c, j, w)[c]);
    assert SetSlot(ns2, c, j, w) == ns2[c := SetSlot(ns2, c, j, w)[c]];
  }

  /** After the step the view of `c` is the old one with the fresh tree in slot `j`. */
  lemma FillView(ns1: seq<NodeRec>, r1: seq<nat>, ns2: seq<NodeRec>, r2: seq<nat>, c: nat, j: nat, w: nat)
    requires FillReady(ns1, r1, ns2, r2, c, j, w)
    ensures WellFormed(SetSlot(ns2, c, j, w), r2)
    ensures var t1 := View(ns1, r1, c);
      j < |t1.kids| &&
      View(SetSlot(ns2, c, j, w), r2, c) == INode(c, ns1[c].kind, t1.kids[j := View(ns2, r2, w)])
  {
    FillWellFormed(ns1, r1, ns2, r2, c, j, w);
    FillPrefix(ns1, r1, ns2, r2, c, j, w);
    var ns3 := SetSlot(ns2, c, j, w);
    var t1 := View(ns1, r1, c);
    var t3 := View(ns3, r2, c);
    ViewUnfold(ns1, r1, c);
    ViewUnfold(ns3, r2, c);
    assert RecOK(ns2, r2, c);
    FrameBelow(ns2, r2, ns3, r2, w, c);
    forall q | 0 <= q < |t1.kids| && q != j ensures t3.kids[q] == t1.kids[q] {
      var l := ns1[c].children[q];
      if l.Ref? {
        assert RecOK(ns1, r1, c);
        ExtendFrame(ns1, r1, ns2, r2, l.id);
        FrameBelow(ns2, r2, ns3, r2, l.id, c);
      }
    }
    assert t3.kids == t1.kids[j := View(ns2, r2, w)];
  }

  /** After the step the tree of `c` covers `c`..`|ns2|-1`. */
  lemma FillIds(ns1: seq<NodeRec>, r1: seq<nat>, ns2: seq<NodeRec>, r2: seq<nat>, c: nat, j: nat, w: nat)
    requires FillReady(ns1, r1, ns2, r2, c, j, w)
    ensures WellFormed(SetSlot(ns2, c, j, w), r2)
    ensures Ids(View(SetSlot(ns2, c, j, w), r2, c)) == Range(c, |ns2|)
  {
    FillView(ns1, r1, ns2, r2, c, j, w);
    var t1 := View(ns1, r1, c);
    var y := View(ns2, r2, w);
    ViewUnfold(ns1, r1, c);
    forall q | j <= q < |t1.kids| ensures t1.kids[q] == IHole {
      assert ns1[c].children[q] == Nil;
    }
    assert Ids(t1) == [c] + IdsIn(t1.kids);
    SlotIds(t1.kids, j, y, c, w, |ns2|);
    assert Ids(View(SetSlot(ns2, c, j, w), r2, c)) == [c] + IdsIn(t1.kids[j := y]);
  }

  /** Filling the first of the trailing holes of a node numbered c..w-1 with a tree numbered w..e-1 numbers it c..e-1. */
  lemma SlotIds(kids: seq<ITree>, j: nat, y: ITree, c: nat, w: nat, e: nat)
    requires j < |kids| && (forall q | j <= q < |kids| :: kids[q] == IHole)
    requires c < w <= e && [c] + IdsIn(kids) == Range(c, w) && Ids(y) == Range(w, e)
    ensures [c] + IdsIn(kids[j := y]) == Range(c, e)
  {
    IdsInSlice(kids, j);
    IdsInSet(kids, j, y);
    var rest := kids[j + 1..];
    assert forall q | 0 <= q < |rest| :: rest[q] == IHole;
    IdsInHoles(rest);
    assert Ids(kids[j]) == [];
    RangeAppend(c, w, e);
  }

  /** After the step the tree of `c` is linked. */
  lemma FillLinked(ns1: seq<NodeRec>, r1: seq<nat>, ns2: seq<NodeRec>, r2: seq<nat>, c: nat, j: nat, w: nat)
    requires FillReady(ns1, r1, ns2, r2, c, j, w)
    ensures WellFormed(SetSlot(ns2, c, j, w), r2)
    ensures Linked(SetSlot(ns2, c, j, w), View(SetSlot(ns2, c, j, w), r2, c))
  {
    FillView(ns1, r1, ns2, r2, c, j, w);
    FillPrefix(ns1, r1, ns2, r2, c, j, w);
    var ns3 := SetSlot(ns2, c, j, w);
    var t1 := View(ns1, r1, c);
    var t3 := View(ns3, r2, c);
    var y := View(ns2, r2, w);
    assert Unique(t1) by { RangeDistinct(c, w); }
    forall q | 0 <= q < |t3.kids|
      ensures Linked(ns3, t3.kids[q])
      ensures t3.kids[q].INode? ==> t3.kids[q].id < |ns3| && ns3[t3.kids[q].id].parent == Ref(c)
    {
      if q == j {
        forall x | x in Ids(y) ensures x < |ns2| && x < |ns3| && ns3[x].parent == ns2[x].parent {
          assert x in Range(w, |ns2|);
        }
        LinkedFrame(ns2, ns3, y);
      } else {
        var k := t1.kids[q];
        KidIds(t1, q);
        forall x | x in Ids(k) ensures x < |ns1| && x < |ns3| && ns3[x].parent == ns1[x].parent {
          assert x in Range(c, w);
        }
        LinkedFrame(ns1, ns3, k);
      }
    }
  }

  /** The view of a node whose slots are all nil is that node alone. */
  lemma BlankView(ns: seq<NodeRec>, rank: seq<nat>, x: nat)
    requires WellFormed(ns, rank) && x < |ns|
    requires forall j | 0 <= j < |ns[x].children| :: ns[x].children[j] == Nil
    ensures View(ns, rank, x) == INode(x, ns[x].kind, seq(|ns[x].children|, _ => IHole))
    ensures Erase(View(ns, rank, x)) == Blank(ns[x].kind)
    ensures Ids(View(ns, rank, x)) == [x] && Linked(ns, View(ns, rank, x))
  {
    ViewUnfold(ns, rank, x);
    var t := View(ns, rank, x);
    IdsInHoles(t.kids);
  }

  // ---------------------------------------------------------------------
  // Building a tree in pre-order (CopyTree and parse): a fresh node `c` is
  // appended, then each slot in turn receives a tree built just after.

  /**
   * Node `c`, appended to the arena `ns0`, of kind `k` and parent `parent`,
   * is being given the children `want`: slots below `j` hold them, the rest
   * are nil, and the tree of `c` covers exactly the nodes from `c` on.
   */
  ghost predicate Building(ns0: seq<NodeRec>, r0: seq<nat>, ns: seq<NodeRec>, rank: seq<nat>,
                           c: nat, k: Kind, parent: Link, want: seq<Tree>, j: nat)
  {
    WellFormed(ns, rank) && |ns0| == c < |ns| && ns[..c] == ns0 && rank[..c] == r0 &&
    (forall y | c <= y < |ns| :: rank[y] > MaxRank(r0)) &&
    j <= |want| && ns[c].kind == k && ns[c].parent == parent && |ns[c].children| == |want| &&
    (forall q | j <= q < |want| :: ns[c].children[q] == Nil) &&
    |Erase(View(ns, rank, c)).kids| == |want| &&
    (forall q | 0 <= q < j :: Erase(View(ns, rank, c)).kids[q] == want[q]) &&
    Ids(View(ns, rank, c)) == Range(c, |ns|) && Linked(ns, View(ns, rank, c))
  }

  lemma BuildStart(ns0: seq<NodeRec>, r0: seq<nat>, ns: seq<NodeRec>, rank: seq<nat>,
                   c: nat, k: Kind, parent: Link, want: seq<Tree>)
    requires WellFormed(ns, rank) && |ns0| == c && |ns| == c + 1 && ns[..c] == ns0 && rank[..c] == r0
    requires rank[c] > MaxRank(r0) && ns[c].kind == k && ns[c].parent == parent
    requires |ns[c].children| == |want| && forall q | 0 <= q < |want| :: ns[c].children[q] == Nil
    ensures Building(ns0, r0, ns, rank, c, k, parent, want, 0)
  {
    BlankView(ns, rank, c);
    assert Range(c, |ns|) == [c];
  }

  /**
   * `ns2`, `r2` are `ns1`, `r1` with records appended that hold one new
   * linked tree of value `v`: rooted at `w`, the first appended record, with
   * parent `parent`, its nodes numbered on from `w` in pre-order and ranked
   * above every old record.
   */
  ghost predicate FreshTree(ns1: seq<NodeRec>, r1: seq<nat>, ns2: seq<NodeRec>, r2: seq<nat>, w: nat, v: Tree, parent: Link)
  {
    WellFormed(ns2, r2) && w == |ns1| < |ns2| && ns2[..w] == ns1 && r2[..w] == r1 &&
    (forall y | w <= y < |ns2| :: r2[y] > MaxRank(r1)) &&
    Erase(View(ns2, r2, w)) == v && Ids(View(ns2, r2, w)) == Range(w, |ns2|) &&
    Linked(ns2, View(ns2, r2, w)) && ns2[w].parent == parent
  }

  lemma BuildStep(ns0: seq<NodeRec>, r0: seq<nat>, ns1: seq<NodeRec>, r1: seq<nat>,
                  ns2: seq<NodeRec>, r2: seq<nat>, c: nat, k: Kind, parent: Link,
                  want: seq<Tree>, j: nat, w: nat)
    requires Building(ns0, r0, ns1, r1, c, k, parent, want, j) && j < |want|
    requires FreshTree(ns1, r1, ns2, r2, w, want[j], Ref(c))
    ensures Building(ns0, r0, SetSlot(ns2, c, j, w), r2, c, k, parent, want, j + 1)
  {
    assert MaxRank(r1) >= r1[c];
    assert FillReady(ns1, r1, ns2, r2, c, j, w);
    FillPrefix(ns1, r1, ns2, r2, c, j, w);
    FillIds(ns1, r1, ns2, r2, c, j, w);
    FillLinked(ns1, r1, ns2, r2, c, j, w);
    BuildFrame(ns0, r0, ns1, r1, ns2, r2, c, k, parent, want, j, w);
    BuildKids(ns0, r0, ns1, r1, ns2, r2, c, k, parent, want, j, w);
  }

  lemma BuildFrame(ns0: seq<NodeRec>, r0: seq<nat>, ns1: seq<NodeRec>, r1: seq<nat>,
                   ns2: seq<NodeRec>, r2: seq<nat>, c: nat, k: Kind, parent: Link,
                   want: seq<Tree>, j: nat, w: nat)
    requires Building(ns0, r0, ns1, r1, c, k, parent, want, j) && j < |want|
    requires WellFormed(ns2, r2) && w == |ns1| < |ns2| && ns2[..w] == ns1 && r2[..w] == r1
    requires forall y | w <= y < |ns2| :: r2[y] > MaxRank(r1)
    ensures var ns3 := SetSlot(ns2, c, j, w);
      ns3[..c] == ns0 && r2[..c] == r0 && (forall y | c <= y < |ns3| :: r2[y] > MaxRank(r0))
  {
    var ns3 := SetSlot(ns2, c, j, w);
    forall y | 0 <= y < w ensures ns2[y] == ns1[y] && r2[y] == r1[y] {
      assert ns2[..w][y] == ns2[y] && r2[..w][y] == r2[y];
    }
    forall y | 0 <= y < c ensures ns3[y] == ns0[y] && r2[y] == r0[y] {
      assert ns1[..c][y] == ns1[y] && r1[..c][y] == r1[y];
    }
    assert ns3[..c] == ns0;
    assert r2[..c] == r0;
    assert MaxRank(r1) >= r1[c] > MaxRank(r0);
  }

  lemma BuildKids(ns0: seq<NodeRec>, r0: seq<nat>, ns1: seq<NodeRec>, r1: seq<nat>,
                  ns2: seq<NodeRec>, r2: seq<nat>, c: nat, k: Kind, parent: Link,
                  want: seq<Tree>, j: nat, w: nat)
    requires Building(ns0, r0, ns1, r1, c, k, parent, want, j) && j < |want|
    requires FillReady(ns1, r1, ns2, r2, c, j, w)
    requires Erase(View(ns2, r2, w)) == want[j]
    ensures WellFormed(SetSlot(ns2, c, j, w), r2)
    ensures var e := Erase(View(SetSlot(ns2, c, j, w), r2, c));
      |e.kids| == |want| && forall q | 0 <= q < j + 1 :: e.kids[q] == want[q]
  {
    FillView(ns1, r1, ns2, r2, c, j, w);
    var t1 := View(ns1, r1, c);
    var t3 := View(SetSlot(ns2, c, j, w), r2, c);
    assert t3.kids == t1.kids[j := View(ns2, r2, w)];
    var e1 := Erase(t1);
    var e3 := Erase(t3);
    assert e1.kids == EraseIn(t1.kids) && e3.kids == EraseIn(t3.kids);
    forall q | 0 <= q < j + 1 ensures e3.kids[q] == want[q] {
      if q < j {
        assert e3.kids[q] == Erase(t3.kids[q]) == Erase(t1.kids[q]) == e1.kids[q];
      }
    }
  }

  /**
   * What copying child `j` of a complete node `src` needs while its copy
   * `c` is being built: the slot holds a node, whose view the build has not
   * touched, whose value is child `j` of the node's value, complete and
   * smaller than the whole.
   */
  lemma CopyKidReady(ns0: seq<NodeRec>, r0: seq<nat>, ns: seq<NodeRec>, rank: seq<nat>, src: nat,
                     c: nat, k: Kind, parent: Link, want: seq<Tree>, j: nat)
    requires WellFormed(ns0, r0) && src < |ns0| && Complete(Erase(View(ns0, r0, src)))
    requires want == Erase(View(ns0, r0, src)).kids
    requires Building(ns0, r0, ns, rank, c, k, parent, want, j) && j < |want|
    ensures j < |ns0[src].children| && ns0[src].children[j].Ref? && ns0[src].children[j].id < |ns0|
    ensures var x := ns0[src].children[j].id;
      View(ns, rank, x) == View(ns0, r0, x) && Erase(View(ns, rank, x)) == want[j] &&
      Complete(want[j]) && Size(want[j]) < Size(Erase(View(ns0, r0, src)))
  {
    var v := Erase(View(ns0, r0, src));
    CompleteKids(ns0, r0, src);
    ViewUnfold(ns0, r0, src);
    SizeOfNode(v.kind, v.kids);
    var x := ns0[src].children[j].id;
    forall q | 0 <= q < |ns0| ensures SameShape(ns[q], ns0[q]) {
      assert ns[q] == ns[..c][q];
    }
    ExtendFrame(ns0, r0, ns, rank, x);
  }

  lemma BuildDone(ns0: seq<NodeRec>, r0: seq<nat>, ns: seq<NodeRec>, rank: seq<nat>,
                  c: nat, k: Kind, parent: Link, want: seq<Tree>)
    requires Building(ns0, r0, ns, rank, c, k, parent, want, |want|)
    ensures Erase(View(ns, rank, c)) == Node(k, want)
  {
    ViewUnfold(ns, rank, c);
    assert Erase(View(ns, rank, c)).kids == want;
  }

  // ---------------------------------------------------------------------
  // Splicing a tree in place of a subtree (ReplaceNode and Mutate).

  /** Pointing one slot of `c` at a node ranked above it keeps the arena well formed. */
  lemma WFSlot(ns: seq<NodeRec>, rank: seq<nat>, c: nat, j: nat, w: nat)
    requires WellFormed(ns, rank) && c < |ns| && j < |ns[c].children| && w < |ns| && rank[c] < rank[w]
    ensures WellFormed(SetSlot(ns, c, j, w), rank)
  {
    assert RecOK(ns, rank, c);
    WFSet(ns, rank, c, SetSlot(ns, c, j, w)[c]);
    assert SetSlot(ns, c, j, w) == ns[c := SetSlot(ns, c, j, w)[c]];
  }

  /** Swapping the middle of a sequence without repetitions for new ids found nowhere else. */
  lemma DistinctSplice(a: seq<nat>, mid: seq<nat>, mid': seq<nat>, b: seq<nat>)
    requires Distinct(a + mid + b) && Distinct(mid')
    requires forall x | x in mid' :: x !in a && x !in b
    ensures Distinct(a + mid' + b)
  {
    DistinctAppend(a + mid, b);
    DistinctAppend(a, mid);
    DistinctAppend(a, mid');
    forall x | x in a + mid' ensures x !in b {
      if x in a {
        assert x in a + mid;
      }
    }
    DistinctAppend(a + mid', b);
  }

  /**
   * Redirecting the parent `p` of the non-root node `o` (number `n` of a live
   * tree) to a linked tree `w`: the tree's ids are those of `o`'s slice of
   * them swapped for `w`'s, it stays linked, and its value is the old one
   * with `w`'s value substituted at pre-order index `n`.
   */
  lemma SpliceView(ns: seq<NodeRec>, rank: seq<nat>, ns': seq<NodeRec>, rank': seq<nat>,
                   root: nat, n: nat, o: nat, p: nat, w: nat)
    returns (a: seq<nat>, b: seq<nat>)
    requires TreeOK(ns, rank, root) && 0 < n < |Ids(View(ns, rank, root))| && o == Ids(View(ns, rank, root))[n]
    requires WellFormed(ns', rank') && |ns| <= |ns'| && w < |ns'| && o < |ns| && p < |ns|
    requires ns[o].parent == Ref(p) && Ref(o) in ns[p].children
    requires ns'[p].kind == ns[p].kind && ns'[p].children == Redirected(ns[p].children, Ref(o), Ref(w))
    requires forall q | 0 <= q < |ns| && q != p :: SameShape(ns'[q], ns[q])
    requires Linked(ns', View(ns', rank', w)) && ns'[w].parent == Ref(p)
    requires forall y | y in Ids(View(ns, rank, root)) ::
      y < |ns| && y < |ns'| && (ns[y].parent != Ref(o) ==> ns'[y].parent == ns[y].parent)
    ensures Ids(View(ns, rank, root)) == a + Ids(View(ns, rank, o)) + b
    ensures Ids(View(ns', rank', root)) == a + Ids(View(ns', rank', w)) + b
    ensures Linked(ns', View(ns', rank', root))
    ensures (IdsSize(View(ns, rank, root)); n < Size(Erase(View(ns, rank, root))))
    ensures Erase(View(ns', rank', root)) == Subst(Erase(View(ns, rank, root)), n, Erase(View(ns', rank', w)))
  {
    var t := View(ns, rank, root);
    var x := View(ns', rank', w);
    assert Ids(t)[0] == root;
    assert o in Ids(t);
    Redirect(ns, rank, ns', rank', root, o, p, w);
    a, b := IdsReplace(ns, rank, root, o, x);
    LinkedReplace(ns, ns', t, o, x);
    EraseReplace(t, n, x);
  }
}

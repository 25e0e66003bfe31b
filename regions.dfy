/**
 * Which trees of the arena an operation leaves alone. A picture's three
 * channels are separate trees of the shared node graph, and a generation is
 * a list of pictures none of which shares a node with another; an
 * operation on one channel is confined to that channel's nodes and to nodes
 * it allocates, so every other channel keeps its tree.
 */
module Regions {
  import opened Kinds
  import opened Trees
  import opened Heap
  import opened HeapUpdates
  import opened Planting

  /** No id in common. */
  predicate Apart(xs: seq<nat>, ys: seq<nat>)
  {
    forall y | y in xs :: y !in ys
  }

  /** From `ns0` to `ns` only records with ids in `ids` changed, and records may have been appended. */
  ghost predicate Confined(ns0: seq<NodeRec>, ns: seq<NodeRec>, ids: seq<nat>)
  {
    |ns0| <= |ns| && forall y | 0 <= y < |ns0| && y !in ids :: ns[y] == ns0[y]
  }

  /** The ids in `ids` are among `before` or were allocated at or after `bound`. */
  predicate Within(ids: seq<nat>, before: seq<nat>, bound: nat)
  {
    forall y | y in ids :: y in before || y >= bound
  }

  /**
   * The roots `cs` of a picture's channels: three live trees that share no
   * node, each root without a parent.
   */
  ghost predicate Trio(ns: seq<NodeRec>, rank: seq<nat>, cs: seq<nat>)
  {
    WellFormed(ns, rank) && |cs| == 3 &&
    (forall c | 0 <= c < 3 :: cs[c] < |ns| && TreeOK(ns, rank, cs[c]) && ns[cs[c]].parent == Nil) &&
    forall c, d | 0 <= c < d < 3 :: Apart(Ids(View(ns, rank, cs[c])), Ids(View(ns, rank, cs[d])))
  }

  /** All nodes of a picture's three channels. */
  ghost function Footprint(ns: seq<NodeRec>, rank: seq<nat>, cs: seq<nat>): seq<nat>
    requires Trio(ns, rank, cs)
  {
    Ids(View(ns, rank, cs[0])) + Ids(View(ns, rank, cs[1])) + Ids(View(ns, rank, cs[2]))
  }

  /** A live tree none of whose records changed is the same live tree. */
  lemma Untouched(ns0: seq<NodeRec>, r0: seq<nat>, ns: seq<NodeRec>, rank: seq<nat>, i: nat)
    requires WellFormed(ns0, r0) && WellFormed(ns, rank) && TreeOK(ns0, r0, i)
    requires forall y | y in Ids(View(ns0, r0, i)) :: y < |ns0| && y < |ns| && ns[y] == ns0[y]
    ensures i < |ns| && TreeOK(ns, rank, i) && View(ns, rank, i) == View(ns0, r0, i)
  {
    RankBelow(ns0, r0, i);
    ViewFrame(ns0, r0, ns, rank, i);
    LinkedFrame(ns0, ns, View(ns0, r0, i));
  }

  /** A live tree apart from the records an update was confined to is the same live tree afterwards. */
  lemma Elsewhere(ns0: seq<NodeRec>, r0: seq<nat>, ns: seq<NodeRec>, rank: seq<nat>, ids: seq<nat>, i: nat)
    requires WellFormed(ns0, r0) && WellFormed(ns, rank) && TreeOK(ns0, r0, i)
    requires Confined(ns0, ns, ids) && Apart(Ids(View(ns0, r0, i)), ids)
    ensures i < |ns| && TreeOK(ns, rank, i) && View(ns, rank, i) == View(ns0, r0, i)
  {
    RankBelow(ns0, r0, i);
    Untouched(ns0, r0, ns, rank, i);
  }

  /** Appending records changes no live tree. */
  lemma Appended(ns0: seq<NodeRec>, r0: seq<nat>, ns: seq<NodeRec>, rank: seq<nat>, i: nat)
    requires WellFormed(ns0, r0) && WellFormed(ns, rank) && TreeOK(ns0, r0, i)
    requires |ns0| <= |ns| && ns[..|ns0|] == ns0
    ensures i < |ns| && TreeOK(ns, rank, i) && View(ns, rank, i) == View(ns0, r0, i)
  {
    RankBelow(ns0, r0, i);
    forall y | y in Ids(View(ns0, r0, i)) ensures y < |ns| && ns[y] == ns0[y] {
      assert ns[..|ns0|][y] == ns[y];
    }
    Untouched(ns0, r0, ns, rank, i);
  }

  /**
   * Planting `x` in the nil slot that `path` leads to from `i` writes two
   * records: the slot's owner, a node of `i`'s tree, and `x`, whose parent
   * changes; every other record and every other parent pointer stays.
   */
  lemma {:induction false} PlantConfined(ns: seq<NodeRec>, rank: seq<nat>, i: nat, path: seq<nat>, x: nat)
    requires WellFormed(ns, rank) && i < |ns| && PathToHole(Erase(View(ns, rank, i)), path) && x < |ns|
    ensures var s := HoleOf(ns, rank, i, path);
      s.owner in Ids(View(ns, rank, i)) &&
      (forall y | 0 <= y < |ns| && y != x && y != s.owner :: Plant(ns, s.owner, s.slot, x)[y] == ns[y]) &&
      (forall y | 0 <= y < |ns| && y != x :: Plant(ns, s.owner, s.slot, x)[y].parent == ns[y].parent)
    decreases |path|
  {
    ViewUnfold(ns, rank, i);
    var t := View(ns, rank, i);
    var c := ns[i].children[path[0]];
    assert Ids(t)[0] == i;
    if c.Ref? {
      KidIds(t, path[0]);
      PlantConfined(ns, rank, c.id, path[1..], x);
    }
  }

  /** The channels other than `k` of a picture, when an update was confined to channel `k`'s records. */
  lemma TrioKeep(ns0: seq<NodeRec>, r0: seq<nat>, ns: seq<NodeRec>, rank: seq<nat>, cs: seq<nat>, k: nat)
    requires Trio(ns0, r0, cs) && WellFormed(ns, rank) && k < 3
    requires Confined(ns0, ns, Ids(View(ns0, r0, cs[k])))
    ensures forall c | 0 <= c < 3 && c != k ::
      cs[c] < |ns| && TreeOK(ns, rank, cs[c]) && View(ns, rank, cs[c]) == View(ns0, r0, cs[c]) && ns[cs[c]].parent == Nil
  {
    var old0 := Ids(View(ns0, r0, cs[k]));
    forall c | 0 <= c < 3 && c != k
      ensures cs[c] < |ns| && TreeOK(ns, rank, cs[c]) && View(ns, rank, cs[c]) == View(ns0, r0, cs[c])
      ensures ns[cs[c]].parent == Nil
    {
      assert Apart(Ids(View(ns0, r0, cs[c])), old0);
      Elsewhere(ns0, r0, ns, rank, old0, cs[c]);
      assert cs[c] == Ids(View(ns0, r0, cs[c]))[0];
    }
  }

  /**
   * One channel of a picture, number `k`, changed by an update confined to
   * its own records and to new ones, and now rooted at `cs'[k]` without a
   * parent: the picture is still three separate live trees, and the other
   * two channels are what they were.
   */
  lemma TrioStep(ns0: seq<NodeRec>, r0: seq<nat>, ns: seq<NodeRec>, rank: seq<nat>, cs: seq<nat>, k: nat, cs': seq<nat>)
    requires Trio(ns0, r0, cs) && WellFormed(ns, rank) && k < 3
    requires |cs'| == 3 && forall c | 0 <= c < 3 && c != k :: cs'[c] == cs[c]
    requires Confined(ns0, ns, Ids(View(ns0, r0, cs[k])))
    requires cs'[k] < |ns| && TreeOK(ns, rank, cs'[k]) && ns[cs'[k]].parent == Nil
    requires Within(Ids(View(ns, rank, cs'[k])), Ids(View(ns0, r0, cs[k])), |ns0|)
    ensures Trio(ns, rank, cs')
    ensures forall c | 0 <= c < 3 && c != k :: View(ns, rank, cs[c]) == View(ns0, r0, cs[c])
    ensures Within(Footprint(ns, rank, cs'), Footprint(ns0, r0, cs), |ns0|)
  {
    TrioKeep(ns0, r0, ns, rank, cs, k);
    TrioApart(ns0, r0, ns, rank, cs, k, cs');
    var old0 := Ids(View(ns0, r0, cs[k]));
    var f0 := Footprint(ns0, r0, cs);
    forall y | y in Footprint(ns, rank, cs') ensures y in f0 || y >= |ns0| {
      if y in Ids(View(ns, rank, cs'[k])) {
        assert y in old0 || y >= |ns0|;
      }
    }
  }

  /** The new channel `k` shares no node with the two kept channels. */
  lemma TrioApart(ns0: seq<NodeRec>, r0: seq<nat>, ns: seq<NodeRec>, rank: seq<nat>, cs: seq<nat>, k: nat, cs': seq<nat>)
    requires Trio(ns0, r0, cs) && WellFormed(ns, rank) && k < 3
    requires |cs'| == 3 && forall c | 0 <= c < 3 && c != k :: cs'[c] == cs[c]
    requires forall c | 0 <= c < 3 && c != k ::
      cs[c] < |ns| && TreeOK(ns, rank, cs[c]) && View(ns, rank, cs[c]) == View(ns0, r0, cs[c]) && ns[cs[c]].parent == Nil
    requires cs'[k] < |ns| && TreeOK(ns, rank, cs'[k]) && ns[cs'[k]].parent == Nil
    requires Within(Ids(View(ns, rank, cs'[k])), Ids(View(ns0, r0, cs[k])), |ns0|)
    ensures Trio(ns, rank, cs')
  {
    forall c | 0 <= c < 3 && c != k ensures Apart(Ids(View(ns, rank, cs'[k])), Ids(View(ns, rank, cs[c]))) {
      RankBelow(ns0, r0, cs[c]);
    }
  }

  /** Two pictures that share no node. */
  ghost predicate Separate(ns: seq<NodeRec>, rank: seq<nat>, cs: seq<nat>, ds: seq<nat>)
    requires Trio(ns, rank, cs) && Trio(ns, rank, ds)
  {
    Apart(Footprint(ns, rank, cs), Footprint(ns, rank, ds))
  }

  /** The channels a picture's footprint is made of. */
  lemma FootprintParts(ns: seq<NodeRec>, rank: seq<nat>, cs: seq<nat>)
    requires Trio(ns, rank, cs)
    ensures forall c, y | 0 <= c < 3 && y in Ids(View(ns, rank, cs[c])) :: y in Footprint(ns, rank, cs)
    ensures forall y | y in Footprint(ns, rank, cs) :: y < |ns|
  {
    RankBelow(ns, rank, cs[0]);
    RankBelow(ns, rank, cs[1]);
    RankBelow(ns, rank, cs[2]);
  }

  /**
   * A picture apart from the records an update was confined to keeps its
   * three channels and stays apart from a picture that only gained new nodes.
   */
  lemma OtherPicture(ns0: seq<NodeRec>, r0: seq<nat>, ns: seq<NodeRec>, rank: seq<nat>, ids: seq<nat>, ds: seq<nat>)
    requires Trio(ns0, r0, ds) && WellFormed(ns, rank)
    requires Confined(ns0, ns, ids) && Apart(Footprint(ns0, r0, ds), ids)
    ensures Trio(ns, rank, ds) && Footprint(ns, rank, ds) == Footprint(ns0, r0, ds)
    ensures forall c | 0 <= c < 3 :: View(ns, rank, ds[c]) == View(ns0, r0, ds[c])
  {
    FootprintParts(ns0, r0, ds);
    forall c | 0 <= c < 3 ensures ds[c] < |ns| && TreeOK(ns, rank, ds[c]) && View(ns, rank, ds[c]) == View(ns0, r0, ds[c])
      ensures ns[ds[c]].parent == Nil
    {
      Elsewhere(ns0, r0, ns, rank, ids, ds[c]);
      assert ds[c] == Ids(View(ns0, r0, ds[c]))[0];
    }
  }

  /** A picture that only gained new nodes stays apart from one that kept its old ones. */
  lemma StillSeparate(ns0: seq<NodeRec>, r0: seq<nat>, ns: seq<NodeRec>, rank: seq<nat>,
                      cs0: seq<nat>, cs: seq<nat>, ds: seq<nat>)
    requires Trio(ns0, r0, cs0) && Trio(ns0, r0, ds) && Trio(ns, rank, cs) && Trio(ns, rank, ds)
    requires Separate(ns0, r0, cs0, ds) && Footprint(ns, rank, ds) == Footprint(ns0, r0, ds)
    requires Within(Footprint(ns, rank, cs), Footprint(ns0, r0, cs0), |ns0|)
    ensures Separate(ns, rank, cs, ds) && Separate(ns, rank, ds, cs)
  {
    FootprintParts(ns0, r0, ds);
  }

  /** Confinement composes when the second update's ids are among the first's or newer. */
  lemma ConfinedTrans(ns0: seq<NodeRec>, ns1: seq<NodeRec>, ns2: seq<NodeRec>, f0: seq<nat>, f1: seq<nat>)
    requires Confined(ns0, ns1, f0) && Confined(ns1, ns2, f1) && Within(f1, f0, |ns0|)
    ensures Confined(ns0, ns2, f0)
  {
  }

  /** Appending records changes none of the old ones. */
  lemma ExtendedConfined(ns0: seq<NodeRec>, ns: seq<NodeRec>)
    requires |ns0| <= |ns| && ns[..|ns0|] == ns0
    ensures Confined(ns0, ns, [])
  {
    forall y | 0 <= y < |ns0| ensures ns[y] == ns0[y] {
      assert ns[..|ns0|][y] == ns[y];
    }
  }

  /** Growing only by new nodes composes. */
  lemma WithinTrans(f2: seq<nat>, f1: seq<nat>, f0: seq<nat>, b1: nat, b0: nat)
    requires Within(f2, f1, b1) && Within(f1, f0, b0) && b0 <= b1
    ensures Within(f2, f0, b0)
  {
  }

  /** An update confined to some of a footprint's ids is confined to the footprint. */
  lemma ConfinedWider(ns0: seq<NodeRec>, ns: seq<NodeRec>, ids: seq<nat>, ids': seq<nat>)
    requires Confined(ns0, ns, ids) && forall y | y in ids :: y in ids'
    ensures Confined(ns0, ns, ids')
  {
  }

  /** A picture made of nodes allocated at or after `bound` shares none with a picture already there. */
  lemma NewApart(ns: seq<NodeRec>, rank: seq<nat>, cs: seq<nat>, ds: seq<nat>, bound: nat)
    requires Trio(ns, rank, cs) && Trio(ns, rank, ds)
    requires (forall y | y in Footprint(ns, rank, cs) :: y < bound) && Within(Footprint(ns, rank, ds), [], bound)
    ensures Separate(ns, rank, cs, ds) && Separate(ns, rank, ds, cs)
  {
  }

  /**
   * Two confined steps in a row: the second touches only the footprint the
   * first left, which is the first's footprint or new nodes, so together
   * they touch only the first footprint and grow it only by new nodes.
   */
  lemma StepOn(ns0: seq<NodeRec>, ns1: seq<NodeRec>, ns2: seq<NodeRec>, f0: seq<nat>, f1: seq<nat>, f2: seq<nat>)
    requires Confined(ns0, ns1, f0) && Within(f1, f0, |ns0|)
    requires Confined(ns1, ns2, f1) && Within(f2, f1, |ns1|)
    ensures Confined(ns0, ns2, f0) && Within(f2, f0, |ns0|)
  {
    ConfinedTrans(ns0, ns1, ns2, f0, f1);
    WithinTrans(f2, f1, f0, |ns1|, |ns0|);
  }

  /** Three distinct single-node trees without parents make a picture whose footprint is those three nodes. */
  lemma ThreeSingles(ns: seq<NodeRec>, rank: seq<nat>, x: nat, y: nat, z: nat)
    requires WellFormed(ns, rank) && x != y && x != z && y != z
    requires x < |ns| && TreeOK(ns, rank, x) && ns[x].parent == Nil && Ids(View(ns, rank, x)) == [x]
    requires y < |ns| && TreeOK(ns, rank, y) && ns[y].parent == Nil && Ids(View(ns, rank, y)) == [y]
    requires z < |ns| && TreeOK(ns, rank, z) && ns[z].parent == Nil && Ids(View(ns, rank, z)) == [z]
    ensures Trio(ns, rank, [x, y, z]) && Footprint(ns, rank, [x, y, z]) == [x, y, z]
  {
    var cs := [x, y, z];
    assert cs[0] == x && cs[1] == y && cs[2] == z;
  }

  /**
   * Three copies made one after another, each numbered in pre-order from
   * its root up to where the next begins and without a parent, make a
   * picture of nodes allocated at or after the first copy.
   */
  lemma ThreeCopies(ns: seq<NodeRec>, rank: seq<nat>, x: nat, y: nat, z: nat, e: nat)
    requires WellFormed(ns, rank) && x <= y <= z <= e
    requires x < |ns| && TreeOK(ns, rank, x) && ns[x].parent == Nil && Ids(View(ns, rank, x)) == Range(x, y)
    requires y < |ns| && TreeOK(ns, rank, y) && ns[y].parent == Nil && Ids(View(ns, rank, y)) == Range(y, z)
    requires z < |ns| && TreeOK(ns, rank, z) && ns[z].parent == Nil && Ids(View(ns, rank, z)) == Range(z, e)
    ensures Trio(ns, rank, [x, y, z]) && Within(Footprint(ns, rank, [x, y, z]), [], x)
  {
    var cs := [x, y, z];
    assert cs[0] == x && cs[1] == y && cs[2] == z;
    RangeDistinct(x, y);
    RangeDistinct(y, z);
    RangeDistinct(z, e);
  }

  /** Each root is the first node of its own channel and lies in no other channel. */
  lemma RootsApart(ns: seq<NodeRec>, rank: seq<nat>, cs: seq<nat>)
    requires Trio(ns, rank, cs)
    ensures forall c | 0 <= c < 3 :: |Ids(View(ns, rank, cs[c]))| > 0 && Ids(View(ns, rank, cs[c]))[0] == cs[c]
    ensures forall c, d | 0 <= c < 3 && 0 <= d < 3 && c != d :: cs[c] !in Ids(View(ns, rank, cs[d]))
  {
    forall c | 0 <= c < 3 ensures |Ids(View(ns, rank, cs[c]))| > 0 && Ids(View(ns, rank, cs[c]))[0] == cs[c] {
      ViewUnfold(ns, rank, cs[c]);
    }
    forall c, d | 0 <= c < 3 && 0 <= d < 3 && c != d ensures cs[c] !in Ids(View(ns, rank, cs[d])) {
      assert cs[c] in Ids(View(ns, rank, cs[c]));
      if c < d {
        assert Apart(Ids(View(ns, rank, cs[c])), Ids(View(ns, rank, cs[d])));
      } else {
        assert Apart(Ids(View(ns, rank, cs[d])), Ids(View(ns, rank, cs[c])));
      }
    }
  }

  /** An update that touches only a channel's nodes and its replaced node's parent, nil or in the channel, is confined to the channel. */
  lemma ParentConfined(ns0: seq<NodeRec>, ns: seq<NodeRec>, ids: seq<nat>, par: Link)
    requires |ns0| <= |ns| && (par == Nil || par.id in ids)
    requires forall y | 0 <= y < |ns0| && y !in ids && Ref(y) != par :: ns[y] == ns0[y]
    ensures Confined(ns0, ns, ids)
  {
  }
}

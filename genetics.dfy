/**
 * The picture-level operations of main.go as functions on values: a picture
 * is its three channel trees r, g and b. NewPicture grows each channel from
 * a random base node by AddRandom calls and then closes it with AddLeaf
 * calls; cross grafts a copy of one of b's subtrees into a copy of a;
 * picture.Mutate mutates one node of one channel; evolve breeds numPics
 * offspring from the survivors. The random draws are parameters, and the
 * predicates named Valid... say that each draw is in its rand.Intn range.
 */
module Genetics {
  import opened Kinds
  import opened Trees

  /** numPics: the size of every generation. */
  const NumPics: nat := 16

  // ---------------------------------------------------------------------
  // NewPicture.

  /** One AddRandom call: GetRandomBaseNode's draw, then the slot drawn at each node on the way down. */
  datatype Add = Add(base: nat, path: seq<nat>)

  /** Every draw in range, and each walk reaches a nil slot: none of the AddRandom calls panics. */
  predicate ValidAdds(t: Tree, adds: seq<Add>)
    decreases |adds|
  {
    adds == [] ||
    (adds[0].base < 21 && PathToHole(t, adds[0].path) &&
     ValidAdds(InsertAt(t, adds[0].path, Blank(BaseKind(adds[0].base))), adds[1..]))
  }

  /** The channel after its AddRandom loop. */
  function Sprout(t: Tree, adds: seq<Add>): Tree
    requires ValidAdds(t, adds)
    decreases |adds|
  {
    if adds == [] then t
    else Sprout(InsertAt(t, adds[0].path, Blank(BaseKind(adds[0].base))), adds[1..])
  }

  /** The channel after its AddLeaf loop, call `i` placing the leaf `leaf(i)` into the first nil slot. */
  function Leafed(t: Tree, leaf: nat -> LeafPick, i: nat): Tree
    requires forall j :: ValidLeafPick(leaf(j))
    decreases Holes(t)
  {
    if Holes(t) == 0 then t
    else
      FillFirstProps(t, LeafOf(leaf(i)));
      Leafed(FillFirst(t, LeafOf(leaf(i))), leaf, i + 1)
  }

  /** The draws NewPicture makes for one channel: the base node, the AddRandom calls, the leaves. */
  datatype Growth = Growth(base: nat, adds: seq<Add>, leaf: nat -> LeafPick)

  /** The base draw is rand.Intn(21), the number of AddRandom calls rand.Intn(15). */
  ghost predicate ValidGrowth(d: Growth)
  {
    d.base < 21 && |d.adds| < 15 && ValidAdds(Blank(BaseKind(d.base)), d.adds) &&
    forall j :: ValidLeafPick(d.leaf(j))
  }

  /** The channel NewPicture builds from the draws `d`. */
  function Grown(d: Growth): Tree
    requires ValidGrowth(d)
  {
    Leafed(Sprout(Blank(BaseKind(d.base)), d.adds), d.leaf, 0)
  }

  /**
   * AddRandom never closes the tree: each call takes one nil slot and brings
   * at least one new one (base nodes have arity 1 to 3), adds one node and
   * keeps the root and the shape.
   */
  lemma {:induction false} SproutProps(t: Tree, adds: seq<Add>)
    requires ValidAdds(t, adds)
    ensures Size(Sprout(t, adds)) == Size(t) + |adds|
    ensures Holes(Sprout(t, adds)) >= Holes(t)
    ensures t.Node? ==> Sprout(t, adds).Node? && Sprout(t, adds).kind == t.kind
    ensures Shaped(t) ==> Shaped(Sprout(t, adds))
    decreases |adds|
  {
    if adds != [] {
      var x := Blank(BaseKind(adds[0].base));
      BlankProps(BaseKind(adds[0].base));
      InsertAtProps(t, adds[0].path, x);
      SproutProps(InsertAt(t, adds[0].path, x), adds[1..]);
    }
  }

  /**
   * The AddLeaf loop ends with a complete tree: one leaf per nil slot, the
   * root and the shape kept; a complete tree is left as it is.
   */
  lemma {:induction false} LeafedProps(t: Tree, leaf: nat -> LeafPick, i: nat)
    requires forall j :: ValidLeafPick(leaf(j))
    ensures Complete(Leafed(t, leaf, i))
    ensures Size(Leafed(t, leaf, i)) == Size(t) + Holes(t)
    ensures t.Node? ==> Leafed(t, leaf, i).Node? && Leafed(t, leaf, i).kind == t.kind
    ensures Shaped(t) ==> Shaped(Leafed(t, leaf, i))
    ensures Complete(t) ==> Leafed(t, leaf, i) == t
    decreases Holes(t)
  {
    if Holes(t) > 0 {
      var x := LeafOf(leaf(i));
      assert Size(x) == 1 && Holes(x) == 0 && Shaped(x);
      FillFirstProps(t, x);
      LeafedProps(FillFirst(t, x), leaf, i + 1);
      if t.Node? {
        assert FillFirst(t, x).Node? && FillFirst(t, x).kind == t.kind;
      }
    }
  }

  /**
   * Every channel of a new picture is a complete, shaped tree whose root is
   * the drawn base node, of arity at least 1, and which holds that root,
   * one node per AddRandom call and one leaf per nil slot they left.
   */
  lemma GrownProps(d: Growth)
    requires ValidGrowth(d)
    ensures var t := Grown(d); var s := Sprout(Blank(BaseKind(d.base)), d.adds);
      Complete(t) && Shaped(t) && t.Node? && t.kind == BaseKind(d.base) && Arity(t.kind) >= 1 &&
      Size(t) == 1 + |d.adds| + Holes(s) && Holes(s) >= Arity(BaseKind(d.base))
  {
    var b := Blank(BaseKind(d.base));
    BlankProps(BaseKind(d.base));
    SproutProps(b, d.adds);
    LeafedProps(Sprout(b, d.adds), d.leaf, 0);
  }

  // ---------------------------------------------------------------------
  // cross.

  /**
   * The draws of one cross: aCopy.pickRandomColor and b.pickRandomColor,
   * then the pre-order indices drawn below each chosen channel.
   */
  datatype CrossPick = CrossPick(ac: nat, bc: nat, ai: nat, bi: nat)

  /** Both colour draws are rand.Intn(3); each index is rand.Intn of its channel's NodeCount. */
  predicate ValidCross(xs: seq<Tree>, ys: seq<Tree>, p: CrossPick)
  {
    |xs| == 3 && |ys| == 3 && p.ac < 3 && p.bc < 3 && p.ai < Size(xs[p.ac]) && p.bi < Size(ys[p.bc])
  }

  /**
   * The channels of cross(a, b): a's channels, the chosen one with its
   * subtree at index ai replaced by b's chosen subtree; at index 0 the
   * recipient is a root, which ReplaceNode cannot reach, and nothing is
   * replaced.
   */
  function Crossed(xs: seq<Tree>, ys: seq<Tree>, p: CrossPick): (zs: seq<Tree>)
    requires ValidCross(xs, ys, p)
    ensures |zs| == 3
  {
    xs[p.ac := if p.ai == 0 then xs[p.ac] else Subst(xs[p.ac], p.ai, Nth(ys[p.bc], p.bi))]
  }

  /** All three channels of a picture are finished trees. */
  predicate Finished(vs: seq<Tree>)
  {
    |vs| == 3 && forall c | 0 <= c < 3 :: Complete(vs[c]) && Shaped(vs[c])
  }

  /**
   * An offspring of finished pictures is finished; only the chosen channel
   * differs from the recipient's, and there (for index > 0) the donor
   * subtree sits exactly at the chosen index.
   */
  lemma CrossedProps(xs: seq<Tree>, ys: seq<Tree>, p: CrossPick)
    requires ValidCross(xs, ys, p)
    ensures var zs := Crossed(xs, ys, p);
      (forall c | 0 <= c < 3 && c != p.ac :: zs[c] == xs[c]) &&
      (p.ai == 0 ==> zs == xs) &&
      (p.ai > 0 ==>
         p.ai < Size(zs[p.ac]) && Nth(zs[p.ac], p.ai) == Nth(ys[p.bc], p.bi) &&
         Size(zs[p.ac]) == Size(xs[p.ac]) - Size(Nth(xs[p.ac], p.ai)) + Size(Nth(ys[p.bc], p.bi))) &&
      (Finished(xs) && Finished(ys) ==> Finished(zs))
  {
    if p.ai > 0 {
      var x := xs[p.ac];
      var y := Nth(ys[p.bc], p.bi);
      NthIsNode(ys[p.bc], p.bi);
      SubstProps(x, p.ai, y);
      if Finished(xs) && Finished(ys) {
        NthShaped(ys[p.bc], p.bi);
        NthHoles(ys[p.bc], p.bi);
        NthHoles(x, p.ai);
      }
    }
  }

  // ---------------------------------------------------------------------
  // picture.Mutate.

  /** The draws of one picture.Mutate: the channel (rand.Intn(3)), the node index, Mutate's own draws. */
  datatype Mutation = Mutation(channel: nat, index: nat, pick: MutPick)

  predicate ValidMutation(vs: seq<Tree>, m: Mutation)
  {
    |vs| == 3 && m.channel < 3 && m.index < Size(vs[m.channel]) && ValidMutPick(m.pick)
  }

  /** The picture after one picture.Mutate: the chosen node of the chosen channel mutated. */
  function MutatedPicture(vs: seq<Tree>, m: Mutation): (ws: seq<Tree>)
    requires ValidMutation(vs, m)
    ensures |ws| == 3
  {
    vs[m.channel := MutateAt(vs[m.channel], m.index, m.pick)]
  }

  /** Each of a run of picture.Mutate calls draws within the picture as the previous ones left it. */
  predicate ValidMutations(vs: seq<Tree>, ms: seq<Mutation>)
    decreases |ms|
  {
    ms == [] || (ValidMutation(vs, ms[0]) && ValidMutations(MutatedPicture(vs, ms[0]), ms[1..]))
  }

  function MutatedAll(vs: seq<Tree>, ms: seq<Mutation>): (ws: seq<Tree>)
    requires ValidMutations(vs, ms)
    ensures |ms| == 0 ==> ws == vs
    decreases |ms|
  {
    if ms == [] then vs else MutatedAll(MutatedPicture(vs, ms[0]), ms[1..])
  }

  /** Mutation keeps a picture finished and touches only the chosen channel. */
  lemma MutatedPictureProps(vs: seq<Tree>, m: Mutation)
    requires ValidMutation(vs, m)
    ensures var ws := MutatedPicture(vs, m);
      (forall c | 0 <= c < 3 && c != m.channel :: ws[c] == vs[c]) &&
      (Finished(vs) ==> Finished(ws))
  {
    MutateAtProps(vs[m.channel], m.index, m.pick);
  }

  lemma {:induction false} MutatedAllFinished(vs: seq<Tree>, ms: seq<Mutation>)
    requires ValidMutations(vs, ms) && Finished(vs)
    ensures Finished(MutatedAll(vs, ms))
    decreases |ms|
  {
    if ms != [] {
      MutatedPictureProps(vs, ms[0]);
      MutatedAllFinished(MutatedPicture(vs, ms[0]), ms[1..]);
    }
  }

  // ---------------------------------------------------------------------
  // evolve.

  /**
   * The draws for offspring i of evolve: the recipient (drawn only once
   * every survivor has been a recipient), the donor, cross's draws, and
   * the mutations (rand.Intn(8) of them).
   */
  datatype Offspring = Offspring(mother: nat, father: nat, cross: CrossPick, mutations: seq<Mutation>)

  /** Offspring i < |survivors| has survivor i as its recipient; later ones the drawn one. */
  function Recipient(i: nat, o: Offspring, n: nat): nat
  {
    if i < n then i else o.mother
  }

  predicate ValidOffspring(vals: seq<seq<Tree>>, i: nat, o: Offspring)
  {
    Recipient(i, o, |vals|) < |vals| && o.father < |vals| && |o.mutations| < 8 &&
    ValidCross(vals[Recipient(i, o, |vals|)], vals[o.father], o.cross) &&
    ValidMutations(Crossed(vals[Recipient(i, o, |vals|)], vals[o.father], o.cross), o.mutations)
  }

  /** Offspring i before its mutations: the cross of its recipient and donor. */
  function Crossing(vals: seq<seq<Tree>>, i: nat, o: Offspring): seq<Tree>
    requires ValidOffspring(vals, i, o)
  {
    Crossed(vals[Recipient(i, o, |vals|)], vals[o.father], o.cross)
  }

  /** Offspring i: its crossing, then its mutations. */
  function Child(vals: seq<seq<Tree>>, i: nat, o: Offspring): seq<Tree>
    requires ValidOffspring(vals, i, o)
  {
    MutatedAll(Crossing(vals, i, o), o.mutations)
  }

  /**
   * Offspring of finished survivors are finished, and an offspring whose
   * draws change nothing (recipient index 0, no mutation) is a copy of its
   * recipient: survivor i itself for i < |survivors|.
   */
  lemma ChildProps(vals: seq<seq<Tree>>, i: nat, o: Offspring)
    requires ValidOffspring(vals, i, o)
    requires forall k | 0 <= k < |vals| :: Finished(vals[k])
    ensures Finished(Child(vals, i, o))
    ensures o.cross.ai == 0 && o.mutations == [] && i < |vals| ==> Child(vals, i, o) == vals[i]
  {
    var m := Recipient(i, o, |vals|);
    CrossedProps(vals[m], vals[o.father], o.cross);
    MutatedAllFinished(Crossed(vals[m], vals[o.father], o.cross), o.mutations);
  }
}

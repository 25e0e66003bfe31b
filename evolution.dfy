/**
 * The pictures of main.go on the node arena: a picture holds the roots of
 * its three channel trees, NewPicture grows them, cross builds a child from
 * copies, picture.Mutate rewrites one node in place and evolve breeds a new
 * generation. Every random draw is an argument, and each method is proved
 * against the value-level functions of module Genetics. The frame facts of
 * module Regions say which records each operation may touch, so that the
 * trees of other pictures in the same arena keep their values.
 */
module Evolution {
  import opened Kinds
  import opened Trees
  import opened Heap
  import opened HeapUpdates
  import opened Ast
  import opened Lexing
  import opened Printing
  import opened Parsing
  import opened RoundTrip
  import opened Genetics
  import opened Regions
  import opened Wrappers

  /** A picture: the roots of its red, green and blue channel trees. */
  class Picture {
    var r: nat
    var g: nat
    var b: nat

    constructor(r: nat, g: nat, b: nat)
      ensures this.r == r && this.g == g && this.b == b
    {
      this.r := r;
      this.g := g;
      this.b := b;
    }

    function Roots(): seq<nat>
      reads this
    {
      [r, g, b]
    }

    /** The three channels are live trees of `a` that share no node, their roots without a parent. */
    ghost predicate Sound(a: Arena)
      reads this, a
    {
      Trio(a.nodes, a.rank, Roots())
    }

    /** The channel trees as values: red, green, blue. */
    ghost function Values(a: Arena): (vs: seq<Tree>)
      reads this, a
      requires Sound(a)
      ensures |vs| == 3 && forall c {:trigger vs[c]} | 0 <= c < 3 :: vs[c] == a.ValueOf(Roots()[c])
    {
      Channels(a.nodes, a.rank, Roots())
    }

    /** Every node of the picture. */
    ghost function Foot(a: Arena): seq<nat>
      reads this, a
      requires Sound(a)
    {
      Footprint(a.nodes, a.rank, Roots())
    }

    /**
     * picture.Mutate, given its draws: node `m.index` of channel
     * `m.channel` is mutated in place. When that node is a channel's root,
     * the field holding that root takes the mutant, found by comparing the
     * node with r, g and b in turn. Only the picture's own records change.
     */
    method Mutate(a: Arena, m: Genetics.Mutation)
      requires Sound(a) && Finished(Values(a)) && ValidMutation(Values(a), m)
      modifies this, a
      ensures Sound(a) && Values(a) == MutatedPicture(old(Values(a)), m)
      ensures Roots() == old(Roots())[m.channel := if m.index == 0 then old(|a.nodes|) else old(Roots())[m.channel]]
      ensures Confined(old(a.nodes), a.nodes, old(Foot(a))) && Within(Foot(a), old(Foot(a)), old(|a.nodes|))
    {
      ghost var ns0, r0, cs := a.nodes, a.rank, Roots();
      var root := if m.channel == 0 then r else if m.channel == 1 then g else b;
      assert root == cs[m.channel];
      var o, mutant := MutateChannel(a, root, m.index, m.pick, cs, m.channel);
      ghost var cs' := cs[m.channel := if m.index == 0 then mutant else root];
      if o == r {
        r := mutant;
      } else if o == g {
        g := mutant;
      } else if o == b {
        b := mutant;
      }
      assert Roots() == cs';
      MutatedPictureIs(old(Values(a)), m);
    }

    /** pickRandomColor, given its rand.Intn(3): the root of that channel. */
    function PickRandomColor(c: nat): (n: nat)
      reads this
      requires c < 3
      ensures n == Roots()[c]
    {
      if c == 0 then r else if c == 1 then g else b
    }

    /**
     * picture.String: the three channels' texts inside a Picture node, as
     * saveTree writes them. It is the printed form of the Picture tree whose
     * children are the channels.
     */
    ghost function Text(a: Arena, fmt: Float32 -> string): (s: string)
      reads this, a
      requires Sound(a) && Finished(Values(a))
      ensures s == Show(Canvas(Values(a)), fmt)
    {
      ShowCanvas(Values(a), fmt);
      "( Picture\n" + Show(a.ValueOf(r), fmt) + "\n" + Show(a.ValueOf(g), fmt) + "\n" + Show(a.ValueOf(b), fmt) + " )"
    }
  }

  /** The channel trees a picture with roots `cs` has in arena state `ns`. */
  ghost function Channels(ns: seq<NodeRec>, rank: seq<nat>, cs: seq<nat>): (vs: seq<Tree>)
    requires Trio(ns, rank, cs)
    ensures |vs| == 3 && forall c {:trigger vs[c]} | 0 <= c < 3 :: vs[c] == Erase(View(ns, rank, cs[c]))
  {
    [Erase(View(ns, rank, cs[0])), Erase(View(ns, rank, cs[1])), Erase(View(ns, rank, cs[2]))]
  }

  /** When one channel changes and the others keep their views, the picture's trees change in that channel only. */
  lemma ChannelStep(ns0: seq<NodeRec>, r0: seq<nat>, ns: seq<NodeRec>, rank: seq<nat>, cs: seq<nat>, k: nat, cs': seq<nat>)
    requires Trio(ns0, r0, cs) && Trio(ns, rank, cs') && k < 3
    requires forall c | 0 <= c < 3 && c != k :: cs'[c] == cs[c] && View(ns, rank, cs[c]) == View(ns0, r0, cs[c])
    ensures Channels(ns, rank, cs') == Channels(ns0, r0, cs)[k := Channels(ns, rank, cs')[k]]
  {
  }

  /** MutatedPicture rewrites the drawn channel and keeps the other two. */
  lemma MutatedPictureIs(vs: seq<Tree>, m: Genetics.Mutation)
    requires ValidMutation(vs, m)
    ensures MutatedPicture(vs, m) == vs[m.channel := MutateAt(vs[m.channel], m.index, m.pick)]
  {
  }

  /** Sums over three children. */
  lemma ThreeParts(vs: seq<Tree>)
    requires |vs| == 3
    ensures HolesIn(vs) == Holes(vs[0]) + Holes(vs[1]) + Holes(vs[2])
    ensures SizeIn(vs) == Size(vs[0]) + Size(vs[1]) + Size(vs[2])
  {
    var last := [vs[2]];
    var tail := vs[1..];
    assert last[1..] == [] && tail[0] == vs[1] && tail[1..] == last;
    assert HolesIn(last) == Holes(vs[2]) + HolesIn([]);
    assert HolesIn(tail) == Holes(vs[1]) + HolesIn(last);
    assert SizeIn(last) == Size(vs[2]) + SizeIn([]);
    assert SizeIn(tail) == Size(vs[1]) + SizeIn(last);
  }

  /** The tree a picture prints as: a Picture node over its three channels. */
  function Canvas(vs: seq<Tree>): (t: Tree)
    requires Finished(vs)
    ensures Complete(t) && Shaped(t) && Size(t) == 1 + Size(vs[0]) + Size(vs[1]) + Size(vs[2])
  {
    ThreeParts(vs);
    Node(Kinds.Picture, vs)
  }

  /** Three finished channels separated by line breaks. */
  lemma ShowLines(vs: seq<Tree>, fmt: Float32 -> string)
    requires Finished(vs)
    ensures HolesIn(vs) == 0
    ensures ShowSep(vs, '\n', fmt) == Show(vs[0], fmt) + "\n" + Show(vs[1], fmt) + "\n" + Show(vs[2], fmt)
  {
    var last := [vs[2]];
    var tail := vs[1..];
    assert last[1..] == [] && tail[0] == vs[1] && tail[1..] == last;
    ThreeParts(vs);
    assert HolesIn(last) == Holes(vs[2]) + HolesIn([]);
    assert HolesIn(tail) == Holes(vs[1]) + HolesIn(last);
    var s2 := ShowSep(last, '\n', fmt);
    assert s2 == Show(vs[2], fmt);
    var s1 := ShowSep(tail, '\n', fmt);
    assert s1 == Show(vs[1], fmt) + ['\n'] + s2;
  }

  /** The Picture node prints as its three channels on lines of their own. */
  lemma ShowCanvas(vs: seq<Tree>, fmt: Float32 -> string)
    requires Finished(vs)
    ensures Show(Canvas(vs), fmt) == "( Picture\n" + Show(vs[0], fmt) + "\n" + Show(vs[1], fmt) + "\n" + Show(vs[2], fmt) + " )"
  {
    ShowLines(vs, fmt);
    ShowPictureNode(vs, fmt);
    Regroup("( Picture\n", Show(vs[0], fmt), Show(vs[1], fmt), Show(vs[2], fmt), " )");
  }

  lemma ShowPictureNode(vs: seq<Tree>, fmt: Float32 -> string)
    requires Finished(vs)
    ensures HolesIn(vs) == 0
    ensures Show(Canvas(vs), fmt) == "( Picture\n" + ShowSep(vs, '\n', fmt) + " )"
  {
    ThreeParts(vs);
  }

  lemma Regroup(h: string, x: string, y: string, z: string, t: string)
    ensures h + (x + "\n" + y + "\n" + z) + t == h + x + "\n" + y + "\n" + z + t
  {
  }

  lemma ReloadThree(vs: seq<Tree>, fmt: Float32 -> string, pf: string -> Option<Float32>)
    requires |vs| == 3
    ensures ReloadIn(vs, fmt, pf) == [Reload(vs[0], fmt, pf), Reload(vs[1], fmt, pf), Reload(vs[2], fmt, pf)]
  {
    var last := [vs[2]];
    var tail := vs[1..];
    assert last[1..] == [] && tail[0] == vs[1] && tail[1..] == last;
    assert ReloadIn(last, fmt, pf) == [Reload(vs[2], fmt, pf)];
    assert ReloadIn(tail, fmt, pf) == [Reload(vs[1], fmt, pf), Reload(vs[2], fmt, pf)];
  }

  /**
   * The text of a finished picture loads back as the Picture node over its
   * three channels, each with its constants reread.
   */
  lemma CanvasLoads(vs: seq<Tree>, fmt: Float32 -> string, pf: string -> Option<Float32>)
    requires Finished(vs)
    requires forall v | v in ConstsIn(vs) :: FixedPoint(fmt(v)) && pf(fmt(v)).Some?
    ensures var r := ParseTree(Tokens(Show(Canvas(vs), fmt)), pf);
      r.Ok? && r.value.0 == Node(Kinds.Picture, [Reload(vs[0], fmt, pf), Reload(vs[1], fmt, pf), Reload(vs[2], fmt, pf)])
  {
    SavedTreeReloads(Canvas(vs), fmt, pf);
    ReloadThree(vs, fmt, pf);
  }

  /** A saved picture (saveTree of picture.String) loads back channel by channel. */
  lemma SavedPictureLoads(p: Picture, a: Arena, fmt: Float32 -> string, pf: string -> Option<Float32>)
    requires p.Sound(a) && Finished(p.Values(a))
    requires forall v | v in ConstsIn(p.Values(a)) :: FixedPoint(fmt(v)) && pf(fmt(v)).Some?
    ensures var r := ParseTree(Tokens(p.Text(a, fmt)), pf);
      r.Ok? && r.value.0 == Node(Kinds.Picture, [Reload(p.Values(a)[0], fmt, pf), Reload(p.Values(a)[1], fmt, pf), Reload(p.Values(a)[2], fmt, pf)])
  {
    CanvasLoads(p.Values(a), fmt, pf);
  }

  // ---------------------------------------------------------------------
  // NewPicture.

  /**
   * The AddRandom loop of NewPicture for one channel: each step allocates a
   * base node and plants it in the hole its path leads to.
   */
  method AddRandoms(a: Arena, root: nat, adds: seq<Add>)
    requires a.Valid() && root < |a.nodes| && a.Live(root) && ValidAdds(a.ValueOf(root), adds)
    modifies a
    ensures a.Valid() && root < |a.nodes| && a.Live(root)
    ensures a.ValueOf(root) == Sprout(old(a.ValueOf(root)), adds)
    ensures Confined(old(a.nodes), a.nodes, old(a.IdsOf(root)))
    ensures Within(a.IdsOf(root), old(a.IdsOf(root)), old(|a.nodes|))
    ensures a.nodes[root].parent == old(a.nodes[root].parent)
  {
    ghost var ns0, ids0, t0 := a.nodes, a.IdsOf(root), a.ValueOf(root);
    var i := 0;
    while i < |adds|
      invariant 0 <= i <= |adds| && a.Valid() && root < |a.nodes| && a.Live(root)
      invariant ValidAdds(a.ValueOf(root), adds[i..]) && Sprout(a.ValueOf(root), adds[i..]) == Sprout(t0, adds)
      invariant Confined(ns0, a.nodes, ids0) && Within(a.IdsOf(root), ids0, |ns0|)
      invariant a.nodes[root].parent == ns0[root].parent
    {
      ghost var ns1, r1, ids1 := a.nodes, a.rank, a.IdsOf(root);
      assert adds[i..][0] == adds[i] && adds[i..][1..] == adds[i + 1..];
      var x := a.GetRandomBaseNode(adds[i].base);
      Appended(ns1, r1, a.nodes, a.rank, root);
      RankBelow(ns1, r1, root);
      PlantConfined(a.nodes, a.rank, root, adds[i].path, x);
      a.AddRandom(root, x, adds[i].path);
      i := i + 1;
    }
    assert adds[i..] == [];
  }

  /**
   * One round of NewPicture's AddLeaf loop: a fresh leaf, then AddLeaf on
   * the channel; ok is false exactly when the channel has no hole left.
   */
  method LeafOnce(a: Arena, root: nat, pick: LeafPick) returns (ok: bool)
    requires a.Valid() && root < |a.nodes| && a.Live(root) && ValidLeafPick(pick)
    modifies a
    ensures a.Valid() && root < |a.nodes| && a.Live(root)
    ensures ok <==> Holes(old(a.ValueOf(root))) > 0
    ensures a.ValueOf(root) == if ok then FillFirst(old(a.ValueOf(root)), LeafOf(pick)) else old(a.ValueOf(root))
    ensures Confined(old(a.nodes), a.nodes, old(a.IdsOf(root))) && Within(a.IdsOf(root), old(a.IdsOf(root)), old(|a.nodes|))
    ensures a.nodes[root].parent == old(a.nodes[root].parent)
  {
    ghost var ns1, r1, ids1 := a.nodes, a.rank, a.IdsOf(root);
    var l := a.GetRandomLeaf(pick);
    Appended(ns1, r1, a.nodes, a.rank, root);
    RankBelow(ns1, r1, root);
    ExtendedConfined(ns1, a.nodes);
    ghost var ns2, r2, v := a.nodes, a.rank, a.ValueOf(root);
    ok := a.AddLeaf(root, l);
    if ok {
      PlantConfined(ns2, r2, root, FirstPath(v), l);
      assert Confined(ns2, a.nodes, ids1 + [l]);
      ConfinedTrans(ns1, ns2, a.nodes, ids1, ids1 + [l]);
    }
  }

  /** The AddLeaf loop of NewPicture for one channel: fill the first hole with a fresh leaf until none is left. */
  method AddLeaves(a: Arena, root: nat, leaf: nat -> LeafPick)
    requires a.Valid() && root < |a.nodes| && a.Live(root) && forall j :: ValidLeafPick(leaf(j))
    modifies a
    ensures a.Valid() && root < |a.nodes| && a.Live(root)
    ensures a.ValueOf(root) == Leafed(old(a.ValueOf(root)), leaf, 0)
    ensures Confined(old(a.nodes), a.nodes, old(a.IdsOf(root)))
    ensures Within(a.IdsOf(root), old(a.IdsOf(root)), old(|a.nodes|))
    ensures a.nodes[root].parent == old(a.nodes[root].parent)
  {
    ghost var ns0, ids0, t0 := a.nodes, a.IdsOf(root), a.ValueOf(root);
    var i := 0;
    while true
      invariant a.Valid() && root < |a.nodes| && a.Live(root)
      invariant Leafed(a.ValueOf(root), leaf, i) == Leafed(t0, leaf, 0)
      invariant Confined(ns0, a.nodes, ids0) && Within(a.IdsOf(root), ids0, |ns0|)
      invariant a.nodes[root].parent == ns0[root].parent
      decreases Holes(a.ValueOf(root))
    {
      ghost var ns1, ids1, v := a.nodes, a.IdsOf(root), a.ValueOf(root);
      var ok := LeafOnce(a, root, leaf(i));
      StepOn(ns0, ns1, a.nodes, ids0, ids1, a.IdsOf(root));
      if !ok {
        break;
      }
      FillFirstProps(v, LeafOf(leaf(i)));
      i := i + 1;
    }
  }

  /** NewPicture's AddRandom loop on channel `k` of `p`: only that channel grows. */
  method SproutChannel(a: Arena, p: Picture, k: nat, adds: seq<Add>)
    requires p.Sound(a) && k < 3 && ValidAdds(p.Values(a)[k], adds)
    modifies a
    ensures p.Sound(a) && p.Values(a) == old(p.Values(a))[k := Sprout(old(p.Values(a))[k], adds)]
    ensures Confined(old(a.nodes), a.nodes, old(p.Foot(a)))
    ensures Within(p.Foot(a), old(p.Foot(a)), old(|a.nodes|))
  {
    ghost var ns0, r0 := a.nodes, a.rank;
    FootprintParts(ns0, r0, p.Roots());
    AddRandoms(a, p.Roots()[k], adds);
    TrioStep(ns0, r0, a.nodes, a.rank, p.Roots(), k, p.Roots());
    ConfinedWider(ns0, a.nodes, Ids(View(ns0, r0, p.Roots()[k])), Footprint(ns0, r0, p.Roots()));
  }

  /** NewPicture's AddLeaf loop on channel `k` of `p`: only that channel is finished off. */
  method LeafChannel(a: Arena, p: Picture, k: nat, leaf: nat -> LeafPick)
    requires p.Sound(a) && k < 3 && forall j :: ValidLeafPick(leaf(j))
    modifies a
    ensures p.Sound(a) && p.Values(a) == old(p.Values(a))[k := Leafed(old(p.Values(a))[k], leaf, 0)]
    ensures Confined(old(a.nodes), a.nodes, old(p.Foot(a)))
    ensures Within(p.Foot(a), old(p.Foot(a)), old(|a.nodes|))
  {
    ghost var ns0, r0 := a.nodes, a.rank;
    FootprintParts(ns0, r0, p.Roots());
    AddLeaves(a, p.Roots()[k], leaf);
    TrioStep(ns0, r0, a.nodes, a.rank, p.Roots(), k, p.Roots());
    ConfinedWider(ns0, a.nodes, Ids(View(ns0, r0, p.Roots()[k])), Footprint(ns0, r0, p.Roots()));
  }

  /** NewPicture's three GetRandomBaseNode calls: three fresh single-node trees without parents. */
  method ThreeBases(a: Arena, ds: seq<Growth>) returns (r: nat, g: nat, b: nat)
    requires a.Valid() && |ds| == 3 && forall c | 0 <= c < 3 :: ds[c].base < 21
    modifies a
    ensures Trio(a.nodes, a.rank, [r, g, b]) && Footprint(a.nodes, a.rank, [r, g, b]) == [r, g, b]
    ensures Channels(a.nodes, a.rank, [r, g, b]) == [Blank(BaseKind(ds[0].base)), Blank(BaseKind(ds[1].base)), Blank(BaseKind(ds[2].base))]
    ensures Confined(old(a.nodes), a.nodes, []) && r >= old(|a.nodes|) && g >= old(|a.nodes|) && b >= old(|a.nodes|)
  {
    ghost var ns0 := a.nodes;
    r := a.GetRandomBaseNode(ds[0].base);
    ghost var ns1, r1, v1 := a.nodes, a.rank, a.ViewOf(r);
    g := a.GetRandomBaseNode(ds[1].base);
    ghost var ns2, r2, v2 := a.nodes, a.rank, a.ViewOf(g);
    Appended(ns1, r1, a.nodes, a.rank, r);
    b := a.GetRandomBaseNode(ds[2].base);
    Appended(ns2, r2, a.nodes, a.rank, r);
    Appended(ns2, r2, a.nodes, a.rank, g);
    assert a.ViewOf(r) == v1 && a.ViewOf(g) == v2;
    ThreeSingles(a.nodes, a.rank, r, g, b);
    assert Confined(ns0, a.nodes, []) by {
      assert a.nodes == ns0 + [ns1[r]] + [ns2[g]] + [a.nodes[b]];
    }
    ghost var vs := Channels(a.nodes, a.rank, [r, g, b]);
    assert vs[0] == a.ValueOf(r) == Erase(v1) && vs[1] == a.ValueOf(g) == Erase(v2) && vs[2] == a.ValueOf(b);
  }

  /** The first lines of NewPicture: a picture of three fresh base nodes. */
  method BasePicture(a: Arena, ds: seq<Growth>) returns (p: Picture)
    requires a.Valid() && |ds| == 3 && forall c | 0 <= c < 3 :: ds[c].base < 21
    modifies a
    ensures fresh(p) && p.Sound(a)
    ensures p.Values(a) == [Blank(BaseKind(ds[0].base)), Blank(BaseKind(ds[1].base)), Blank(BaseKind(ds[2].base))]
    ensures Confined(old(a.nodes), a.nodes, []) && Within(p.Foot(a), [], old(|a.nodes|))
  {
    var r, g, b := ThreeBases(a, ds);
    p := new Picture(r, g, b);
    assert p.Roots() == [r, g, b];
  }

  /** NewPicture's three AddRandom loops, red, green, blue. */
  method SproutAll(a: Arena, p: Picture, ds: seq<Growth>)
    requires p.Sound(a) && |ds| == 3 && forall c | 0 <= c < 3 :: ValidAdds(p.Values(a)[c], ds[c].adds)
    modifies a
    ensures p.Sound(a)
    ensures p.Values(a) == [Sprout(old(p.Values(a))[0], ds[0].adds), Sprout(old(p.Values(a))[1], ds[1].adds), Sprout(old(p.Values(a))[2], ds[2].adds)]
    ensures Confined(old(a.nodes), a.nodes, old(p.Foot(a))) && Within(p.Foot(a), old(p.Foot(a)), old(|a.nodes|))
  {
    ghost var ns0, f0 := a.nodes, p.Foot(a);
    SproutChannel(a, p, 0, ds[0].adds);
    ghost var ns, f := a.nodes, p.Foot(a);
    SproutChannel(a, p, 1, ds[1].adds);
    StepOn(ns0, ns, a.nodes, f0, f, p.Foot(a));
    ns, f := a.nodes, p.Foot(a);
    SproutChannel(a, p, 2, ds[2].adds);
    StepOn(ns0, ns, a.nodes, f0, f, p.Foot(a));
  }

  /** NewPicture's three AddLeaf loops, red, green, blue. */
  method LeafAll(a: Arena, p: Picture, ds: seq<Growth>)
    requires p.Sound(a) && |ds| == 3 && forall c, j | 0 <= c < 3 :: ValidLeafPick(ds[c].leaf(j))
    modifies a
    ensures p.Sound(a)
    ensures p.Values(a) == [Leafed(old(p.Values(a))[0], ds[0].leaf, 0), Leafed(old(p.Values(a))[1], ds[1].leaf, 0), Leafed(old(p.Values(a))[2], ds[2].leaf, 0)]
    ensures Confined(old(a.nodes), a.nodes, old(p.Foot(a))) && Within(p.Foot(a), old(p.Foot(a)), old(|a.nodes|))
  {
    ghost var ns0, f0 := a.nodes, p.Foot(a);
    LeafChannel(a, p, 0, ds[0].leaf);
    ghost var ns, f := a.nodes, p.Foot(a);
    LeafChannel(a, p, 1, ds[1].leaf);
    StepOn(ns0, ns, a.nodes, f0, f, p.Foot(a));
    ns, f := a.nodes, p.Foot(a);
    LeafChannel(a, p, 2, ds[2].leaf);
    StepOn(ns0, ns, a.nodes, f0, f, p.Foot(a));
  }

  /**
   * NewPicture: three base nodes, then the AddRandom loops of red, green
   * and blue, then their AddLeaf loops; each channel comes out as Grown of
   * its draws. Only new nodes make up the picture and no old record changes.
   */
  method NewPicture(a: Arena, ds: seq<Growth>) returns (p: Picture)
    requires a.Valid() && |ds| == 3 && forall c | 0 <= c < 3 :: ValidGrowth(ds[c])
    modifies a
    ensures fresh(p) && p.Sound(a)
    ensures p.Values(a) == [Grown(ds[0]), Grown(ds[1]), Grown(ds[2])]
    ensures Confined(old(a.nodes), a.nodes, []) && Within(p.Foot(a), [], old(|a.nodes|))
  {
    ghost var ns0 := a.nodes;
    p := BasePicture(a, ds);
    ghost var ns, f := a.nodes, p.Foot(a);
    SproutAll(a, p, ds);
    StepOn(ns0, ns, a.nodes, [], f, p.Foot(a));
    ns, f := a.nodes, p.Foot(a);
    LeafAll(a, p, ds);
    StepOn(ns0, ns, a.nodes, [], f, p.Foot(a));
  }

  // ---------------------------------------------------------------------
  // cross.

  /** A copy numbered in pre-order from its root to the end and linked is a live tree. */
  lemma FreshCopy(ns: seq<NodeRec>, rank: seq<nat>, c: nat)
    requires WellFormed(ns, rank) && c < |ns| && Ids(View(ns, rank, c)) == Range(c, |ns|)
    requires Linked(ns, View(ns, rank, c))
    ensures TreeOK(ns, rank, c)
  {
    RangeDistinct(c, |ns|);
  }

  /** One CopyTree call of cross's first line: channel `k` copied, hung nowhere; the channels rooted at `cs` stay as they were. */
  method CopyChannel(a: Arena, cs: seq<nat>, k: nat) returns (c: nat)
    requires Trio(a.nodes, a.rank, cs) && k < 3 && Complete(Channels(a.nodes, a.rank, cs)[k])
    modifies a
    ensures Trio(a.nodes, a.rank, cs) && Channels(a.nodes, a.rank, cs) == old(Channels(a.nodes, a.rank, cs))
    ensures WellFormed(a.nodes, a.rank) && c == old(|a.nodes|) < |a.nodes|
    ensures a.nodes[..c] == old(a.nodes) && a.rank[..c] == old(a.rank)
    ensures TreeOK(a.nodes, a.rank, c) && a.nodes[c].parent == Nil && Ids(View(a.nodes, a.rank, c)) == Range(c, |a.nodes|)
    ensures Erase(View(a.nodes, a.rank, c)) == old(Channels(a.nodes, a.rank, cs))[k]
  {
    ghost var ns0, r0, vs := a.nodes, a.rank, Channels(a.nodes, a.rank, cs);
    c := a.CopyTree(cs[k], Nil);
    FreshCopy(a.nodes, a.rank, c);
    ExtendedConfined(ns0, a.nodes);
    OtherPicture(ns0, r0, a.nodes, a.rank, [], cs);
    ghost var ws := Channels(a.nodes, a.rank, cs);
    assert ws[0] == vs[0] && ws[1] == vs[1] && ws[2] == vs[2];
  }

  /** The three CopyTree calls of cross's first line: copies of the channels rooted at `cs`, hung nowhere. */
  method CopyChannels(a: Arena, cs: seq<nat>) returns (r: nat, g: nat, b: nat)
    requires Trio(a.nodes, a.rank, cs) && Finished(Channels(a.nodes, a.rank, cs))
    modifies a
    ensures Trio(a.nodes, a.rank, [r, g, b]) && Channels(a.nodes, a.rank, [r, g, b]) == old(Channels(a.nodes, a.rank, cs))
    ensures Confined(old(a.nodes), a.nodes, []) && Within(Footprint(a.nodes, a.rank, [r, g, b]), [], old(|a.nodes|))
  {
    ghost var ns0, vs := a.nodes, Channels(a.nodes, a.rank, cs);
    r := CopyChannel(a, cs, 0);
    ghost var ns1, r1 := a.nodes, a.rank;
    g := CopyChannel(a, cs, 1);
    ghost var ns2, r2 := a.nodes, a.rank;
    b := CopyChannel(a, cs, 2);
    ghost var ns, rk := a.nodes, a.rank;
    Appended(ns1, r1, ns2, r2, r);
    Appended(ns2, r2, ns, rk, r);
    Appended(ns2, r2, ns, rk, g);
    ThreeCopies(ns, rk, r, g, b, |ns|);
    ghost var ws := Channels(ns, rk, [r, g, b]);
    assert ws[0] == vs[0] && ws[1] == vs[1] && ws[2] == vs[2];
    assert ns[..|ns0|] == ns0 by {
      assert ns[..|ns0|] == ns[..b][..g][..|ns0|];
    }
    ExtendedConfined(ns0, ns);
  }

  /** The first line of cross: a picture of copies of `x`'s channels, hung nowhere. */
  method CopyPicture(a: Arena, x: Picture) returns (z: Picture)
    requires x.Sound(a) && Finished(x.Values(a))
    modifies a
    ensures fresh(z) && z.Sound(a) && z.Values(a) == old(x.Values(a))
    ensures Confined(old(a.nodes), a.nodes, []) && Within(z.Foot(a), [], old(|a.nodes|))
  {
    var r, g, b := CopyChannels(a, [x.r, x.g, x.b]);
    z := new Picture(r, g, b);
    assert z.Roots() == [r, g, b];
  }

  /**
   * The donor half of cross: node `bi` of channel `bc` of `y`, copied and
   * hung under that node's own parent. Nothing existing changes.
   */
  method Donor(a: Arena, y: Picture, bc: nat, bi: nat) returns (w: nat)
    requires y.Sound(a) && Finished(y.Values(a)) && bc < 3 && bi < Size(y.Values(a)[bc])
    modifies a
    ensures a.Valid() && w == old(|a.nodes|) < |a.nodes|
    ensures a.nodes[..w] == old(a.nodes) && a.rank[..w] == old(a.rank)
    ensures forall q | w <= q < |a.rank| :: a.rank[q] > MaxRank(old(a.rank))
    ensures a.Live(w) && a.IdsOf(w) == Range(w, |a.nodes|)
    ensures a.ValueOf(w) == Nth(old(y.Values(a))[bc], bi)
  {
    var bColor := y.PickRandomColor(bc);
    var bCount := a.NodeCount(bColor);
    var bNode, _ := a.GetNthNode(bColor, bi, 0);
    assert y.Values(a)[bc] == a.ValueOf(bColor) && |a.IdsOf(bColor)| == Size(a.ValueOf(bColor));
    NthView(a.nodes, a.rank, bColor, bi);
    NthHoles(y.Values(a)[bc], bi);
    var o := bNode.id;
    assert RecOK(a.nodes, a.rank, o);
    w := a.CopyTree(o, a.nodes[o].parent);
    FreshCopy(a.nodes, a.rank, w);
  }

  /**
   * The ReplaceNode line of cross, on channel `k` of the copy `z`: the copy
   * `w` takes the place of node `n` of that channel. Only that channel's
   * records change, and it gains only the copy's nodes.
   */
  method Graft(a: Arena, cs: seq<nat>, k: nat, o: nat, n: nat, w: nat, ghost ns1: seq<NodeRec>, ghost r1: seq<nat>)
    requires Trio(ns1, r1, cs) && k < 3 && n < Size(Channels(ns1, r1, cs)[k])
    requires (IdsSize(View(ns1, r1, cs[k])); Ids(View(ns1, r1, cs[k]))[n] == o)
    requires a.Valid() && w == |ns1| < |a.nodes| && a.nodes[..w] == ns1 && a.rank[..w] == r1
    requires (forall q | w <= q < |a.rank| :: a.rank[q] > MaxRank(r1))
    requires a.Live(w) && a.IdsOf(w) == Range(w, |a.nodes|)
    modifies a
    ensures Trio(a.nodes, a.rank, cs)
    ensures var vs := Channels(ns1, r1, cs);
      Channels(a.nodes, a.rank, cs) == vs[k := if n == 0 then vs[k] else Subst(vs[k], n, old(a.ValueOf(w)))]
    ensures Confined(ns1, a.nodes, Footprint(ns1, r1, cs))
    ensures Within(Footprint(a.nodes, a.rank, cs), Footprint(ns1, r1, cs), |ns1|)
  {
    var root := cs[k];
    ghost var ids1 := Ids(View(ns1, r1, root));
    Appended(ns1, r1, a.nodes, a.rank, root);
    IdsSize(View(ns1, r1, root));
    RankBelow(ns1, r1, root);
    assert o in ids1 && a.rank[o] == r1[o];
    RangeDistinct(w, |a.nodes|);
    ghost var ns2, vk, vw := a.nodes, a.ValueOf(root), a.ValueOf(w);
    assert vk == Channels(ns1, r1, cs)[k];
    if n > 0 {
      var par := OwnerOf(ns1, r1, root, o);
    }
    a.ReplaceNode(o, w, root, n);
    GraftConfined(ns1, ns2, a.nodes, ids1, o, w);
    TrioStep(ns1, r1, a.nodes, a.rank, cs, k, cs);
    ChannelStep(ns1, r1, a.nodes, a.rank, cs, k, cs);
    assert Channels(a.nodes, a.rank, cs)[k] == if n == 0 then vk else Subst(vk, n, vw);
    FootprintParts(ns1, r1, cs);
    ConfinedWider(ns1, a.nodes, ids1, Footprint(ns1, r1, cs));
  }

  /** ReplaceNode changes the copy and the replaced node's parent, which is nil or in the channel. */
  lemma GraftConfined(ns1: seq<NodeRec>, ns2: seq<NodeRec>, ns3: seq<NodeRec>, ids: seq<nat>, o: nat, w: nat)
    requires |ns1| <= |ns2| == |ns3| && ns2[..|ns1|] == ns1 && w >= |ns1| && o < |ns2|
    requires ns2[o].parent == Nil || ns2[o].parent.id in ids
    requires forall y | 0 <= y < |ns3| && y != w && Ref(y) != ns2[o].parent :: ns3[y] == ns2[y]
    ensures Confined(ns1, ns3, ids)
  {
    forall y | 0 <= y < |ns1| && y !in ids ensures ns3[y] == ns1[y] {
      assert ns2[y] == ns2[..|ns1|][y];
    }
  }

  /**
   * cross: a copy of `x` in which node `ai` of channel `ac` is replaced by a
   * copy of node `bi` of channel `bc` of `y` (nothing happens at `ai` = 0).
   * The child is made of new nodes only and no existing record changes, so
   * `x`, `y` and every other picture keep their trees.
   */
  method Cross(a: Arena, x: Picture, y: Picture, p: CrossPick) returns (z: Picture)
    requires x.Sound(a) && y.Sound(a) && Finished(x.Values(a)) && Finished(y.Values(a))
    requires ValidCross(x.Values(a), y.Values(a), p)
    modifies a
    ensures fresh(z) && z.Sound(a) && z.Values(a) == Crossed(old(x.Values(a)), old(y.Values(a)), p)
    ensures Confined(old(a.nodes), a.nodes, []) && Within(z.Foot(a), [], old(|a.nodes|))
  {
    ghost var ns0, r0, xs, ys := a.nodes, a.rank, x.Values(a), y.Values(a);
    z := CopyPicture(a, x);
    OtherPicture(ns0, r0, a.nodes, a.rank, [], y.Roots());
    assert y.Values(a) == ys;
    var aColor := z.PickRandomColor(p.ac);
    var aCount := a.NodeCount(aColor);
    var aNode, _ := a.GetNthNode(aColor, p.ai, 0);
    var cs := z.Roots();
    ghost var ns1, r1, f1 := a.nodes, a.rank, z.Foot(a);
    IdsSize(View(ns1, r1, aColor));
    assert Trio(ns1, r1, cs) && cs[p.ac] == aColor && Channels(ns1, r1, cs) == xs;
    assert p.ai < Size(Channels(ns1, r1, cs)[p.ac]);
    assert Ids(View(ns1, r1, cs[p.ac]))[p.ai] == aNode.id;
    var w := Donor(a, y, p.bc, p.bi);
    ghost var donor := a.ValueOf(w);
    assert donor == Nth(ys[p.bc], p.bi);
    assert z.Roots() == cs;
    Graft(a, cs, p.ac, aNode.id, p.ai, w, ns1, r1);
    assert Channels(a.nodes, a.rank, cs) == Crossed(xs, ys, p);
    StepOn(ns0, ns1, a.nodes, [], f1, Footprint(a.nodes, a.rank, cs));
  }

  // ---------------------------------------------------------------------
  // picture.Mutate.

  /**
   * The arena work of picture.Mutate once the channel is chosen: count the
   * channel's nodes, find node `n`, mutate it. `o` is that node and
   * `mutant` the new node; the channel's root becomes the mutant exactly
   * when n = 0, and only the picture's records change.
   */
  method MutateChannel(a: Arena, root: nat, n: nat, pick: MutPick, ghost cs: seq<nat>, ghost ch: nat) returns (o: nat, mutant: nat)
    requires Trio(a.nodes, a.rank, cs) && ch < 3 && cs[ch] == root && Finished(Channels(a.nodes, a.rank, cs))
    requires n < Size(Channels(a.nodes, a.rank, cs)[ch]) && ValidMutPick(pick)
    modifies a
    ensures mutant == old(|a.nodes|)
    ensures forall c | 0 <= c < 3 :: (o == cs[c]) <==> (n == 0 && c == ch)
    ensures var cs' := cs[ch := if n == 0 then mutant else root];
      Trio(a.nodes, a.rank, cs') &&
      Channels(a.nodes, a.rank, cs') == old(Channels(a.nodes, a.rank, cs))[ch := MutateAt(old(Channels(a.nodes, a.rank, cs))[ch], n, pick)] &&
      Confined(old(a.nodes), a.nodes, old(Footprint(a.nodes, a.rank, cs))) &&
      Within(Footprint(a.nodes, a.rank, cs'), old(Footprint(a.nodes, a.rank, cs)), old(|a.nodes|))
  {
    ghost var ns0, r0 := a.nodes, a.rank;
    var count := a.NodeCount(root);
    IdsSize(View(ns0, r0, root));
    var target, _ := a.GetNthNode(root, n, 0);
    o := target.id;
    ghost var ids0 := Ids(View(ns0, r0, root));
    MutationSite(ns0, r0, cs, ch, n, o);
    mutant := a.Mutate(o, pick, root, n);
    ghost var cs' := cs[ch := if n == 0 then mutant else root];
    ParentConfined(ns0, a.nodes, ids0, ns0[o].parent);
    TrioStep(ns0, r0, a.nodes, a.rank, cs, ch, cs');
    ChannelStep(ns0, r0, a.nodes, a.rank, cs, ch, cs');
    ghost var vs0 := Channels(ns0, r0, cs);
    assert Channels(a.nodes, a.rank, cs')[ch] == MutateAt(vs0[ch], n, pick);
    FootprintParts(ns0, r0, cs);
    ConfinedWider(ns0, a.nodes, ids0, Footprint(ns0, r0, cs));
  }

  /**
   * The node picture.Mutate draws: node `n` of channel `ch`. It is in that
   * channel, its children are all nodes (the picture is finished), its
   * parent is nil or in the channel, and it is a picture's root exactly
   * when n = 0, and then the root of channel `ch`.
   */
  lemma MutationSite(ns: seq<NodeRec>, rank: seq<nat>, cs: seq<nat>, ch: nat, n: nat, o: nat)
    requires Trio(ns, rank, cs) && ch < 3 && Finished(Channels(ns, rank, cs))
    requires n < Size(Channels(ns, rank, cs)[ch])
    requires (IdsSize(View(ns, rank, cs[ch])); Ids(View(ns, rank, cs[ch]))[n] == o)
    ensures o < |ns| && o in Ids(View(ns, rank, cs[ch]))
    ensures forall j | 0 <= j < |ns[o].children| :: ns[o].children[j].Ref?
    ensures ns[o].parent == Nil || ns[o].parent.id in Ids(View(ns, rank, cs[ch]))
    ensures forall c | 0 <= c < 3 :: (o == cs[c]) <==> (n == 0 && c == ch)
  {
    var root := cs[ch];
    var ids := Ids(View(ns, rank, root));
    IdsSize(View(ns, rank, root));
    RankBelow(ns, rank, root);
    assert o in ids;
    NthView(ns, rank, root, n);
    NthHoles(Channels(ns, rank, cs)[ch], n);
    CompleteKids(ns, rank, o);
    RootsApart(ns, rank, cs);
    if n > 0 {
      var par := OwnerOf(ns, rank, root, o);
      assert ids[0] == root;
    }
  }
  /**
   * The inner mutation loop of evolve: picture.Mutate once for each draw in
   * `ms`. The picture's trees are the left fold of MutatedPicture over the
   * draws, and only its own records change.
   */
  method MutateTimes(a: Arena, p: Picture, ms: seq<Genetics.Mutation>)
    requires p.Sound(a) && Finished(p.Values(a)) && ValidMutations(p.Values(a), ms)
    modifies p, a
    ensures p.Sound(a) && p.Values(a) == MutatedAll(old(p.Values(a)), ms)
    ensures Confined(old(a.nodes), a.nodes, old(p.Foot(a))) && Within(p.Foot(a), old(p.Foot(a)), old(|a.nodes|))
  {
    ghost var ns0, f0, v0 := a.nodes, p.Foot(a), p.Values(a);
    var i := 0;
    while i < |ms|
      invariant 0 <= i <= |ms| && p.Sound(a) && Finished(p.Values(a))
      invariant ValidMutations(p.Values(a), ms[i..]) && MutatedAll(p.Values(a), ms[i..]) == MutatedAll(v0, ms)
      invariant Confined(ns0, a.nodes, f0) && Within(p.Foot(a), f0, |ns0|)
    {
      assert ms[i..][0] == ms[i] && ms[i..][1..] == ms[i + 1..];
      ghost var ns, f := a.nodes, p.Foot(a);
      MutatedPictureProps(p.Values(a), ms[i]);
      p.Mutate(a, ms[i]);
      StepOn(ns0, ns, a.nodes, f0, f, p.Foot(a));
      i := i + 1;
    }
    assert ms[i..] == [];
  }

  // ---------------------------------------------------------------------
  // evolve.

  /** The channel roots of each picture in `ps`. */
  function RootsOf(ps: seq<Picture>): (rs: seq<seq<nat>>)
    reads ps
    ensures |rs| == |ps| && forall k {:trigger rs[k]} | 0 <= k < |ps| :: rs[k] == ps[k].Roots()
  {
    if ps == [] then [] else [ps[0].Roots()] + RootsOf(ps[1..])
  }

  /** Every root triple in `rs` is a picture in arena state `ns`. */
  ghost predicate Trios(ns: seq<NodeRec>, rank: seq<nat>, rs: seq<seq<nat>>)
  {
    forall k | 0 <= k < |rs| :: Trio(ns, rank, rs[k])
  }

  /** Pictures, and no two of them share a node. */
  ghost predicate Kin(ns: seq<NodeRec>, rank: seq<nat>, rs: seq<seq<nat>>)
  {
    Trios(ns, rank, rs) &&
    forall j, k | 0 <= j < |rs| && 0 <= k < |rs| && j != k :: Separate(ns, rank, rs[j], rs[k])
  }

  /** A generation: pictures that share no node, each made of nodes at or above `bound`. */
  ghost predicate Generation(ns: seq<NodeRec>, rank: seq<nat>, rs: seq<seq<nat>>, bound: nat)
  {
    Kin(ns, rank, rs) && forall k | 0 <= k < |rs| :: Within(Footprint(ns, rank, rs[k]), [], bound)
  }

  /** No picture object occurs twice. */
  predicate Distinct(ps: seq<Picture>)
  {
    forall j, k | 0 <= j < k < |ps| :: ps[j] != ps[k]
  }

  /** The channel trees of each picture in `rs`. */
  ghost function ChannelsOf(ns: seq<NodeRec>, rank: seq<nat>, rs: seq<seq<nat>>): (vals: seq<seq<Tree>>)
    requires Trios(ns, rank, rs)
    ensures |vals| == |rs| && forall k {:trigger vals[k]} | 0 <= k < |rs| :: vals[k] == Channels(ns, rank, rs[k])
  {
    if rs == [] then [] else [Channels(ns, rank, rs[0])] + ChannelsOf(ns, rank, rs[1..])
  }

  /** The trees of each picture in `ps`. */
  ghost function ValuesOf(a: Arena, ps: seq<Picture>): (vals: seq<seq<Tree>>)
    reads a, ps
    requires Trios(a.nodes, a.rank, RootsOf(ps))
    ensures |vals| == |ps|
  {
    ChannelsOf(a.nodes, a.rank, RootsOf(ps))
  }

  /** Entry `k` of ValuesOf is picture k's trees. */
  lemma ValuesAt(a: Arena, ps: seq<Picture>, k: nat)
    requires Trios(a.nodes, a.rank, RootsOf(ps)) && k < |ps|
    ensures ps[k].Sound(a) && ValuesOf(a, ps)[k] == ps[k].Values(a)
  {
    TrioAt(a.nodes, a.rank, RootsOf(ps), k);
  }

  lemma TrioAt(ns: seq<NodeRec>, rank: seq<nat>, rs: seq<seq<nat>>, k: nat)
    requires Trios(ns, rank, rs) && k < |rs|
    ensures Trio(ns, rank, rs[k])
  {
  }

  /** A step that changes no existing record leaves every picture's trees and nodes as they were. */
  lemma Unmoved(ns0: seq<NodeRec>, r0: seq<nat>, ns: seq<NodeRec>, rank: seq<nat>, rs: seq<seq<nat>>)
    requires Trios(ns0, r0, rs) && WellFormed(ns, rank) && Confined(ns0, ns, [])
    ensures Trios(ns, rank, rs) && ChannelsOf(ns, rank, rs) == ChannelsOf(ns0, r0, rs)
    ensures forall k | 0 <= k < |rs| :: Footprint(ns, rank, rs[k]) == Footprint(ns0, r0, rs[k])
  {
    forall k | 0 <= k < |rs|
      ensures Trio(ns, rank, rs[k]) && Footprint(ns, rank, rs[k]) == Footprint(ns0, r0, rs[k])
      ensures Channels(ns, rank, rs[k]) == Channels(ns0, r0, rs[k])
    {
      OtherPicture(ns0, r0, ns, rank, [], rs[k]);
    }
  }

  /** A new picture made of new nodes joins a generation that such a step left alone. */
  lemma KinGrow(ns0: seq<NodeRec>, r0: seq<nat>, ns: seq<NodeRec>, rank: seq<nat>, rs: seq<seq<nat>>, ds: seq<nat>, bound: nat)
    requires Generation(ns0, r0, rs, bound) && bound <= |ns0| && Trio(ns, rank, ds) && Confined(ns0, ns, [])
    requires Within(Footprint(ns, rank, ds), [], |ns0|)
    ensures Generation(ns, rank, rs + [ds], bound)
    ensures ChannelsOf(ns, rank, rs + [ds]) == ChannelsOf(ns0, r0, rs) + [Channels(ns, rank, ds)]
  {
    Unmoved(ns0, r0, ns, rank, rs);
    var rs' := rs + [ds];
    forall k | 0 <= k < |rs| ensures forall y | y in Footprint(ns, rank, rs[k]) :: y < |ns0| {
      FootprintParts(ns0, r0, rs[k]);
    }
    forall j, k | 0 <= j < |rs'| && 0 <= k < |rs'| && j != k ensures Separate(ns, rank, rs'[j], rs'[k]) {
      if j == |rs| {
        NewApart(ns, rank, rs[k], ds, |ns0|);
      } else if k == |rs| {
        NewApart(ns, rank, rs[j], ds, |ns0|);
      } else {
        assert Separate(ns0, r0, rs[j], rs[k]);
      }
    }
    forall k | 0 <= k < |rs'| ensures Trio(ns, rank, rs'[k]) && Within(Footprint(ns, rank, rs'[k]), [], bound) {
      if k < |rs| {
        assert rs'[k] == rs[k];
      }
    }
    ChannelsSnoc(ns, rank, rs, ds);
  }

  /** ChannelsOf of one more picture is one more entry. */
  lemma ChannelsSnoc(ns: seq<NodeRec>, rank: seq<nat>, rs: seq<seq<nat>>, ds: seq<nat>)
    requires Trios(ns, rank, rs) && Trio(ns, rank, ds) && Trios(ns, rank, rs + [ds])
    ensures ChannelsOf(ns, rank, rs + [ds]) == ChannelsOf(ns, rank, rs) + [Channels(ns, rank, ds)]
  {
    var rs' := rs + [ds];
    var l, r := ChannelsOf(ns, rank, rs'), ChannelsOf(ns, rank, rs) + [Channels(ns, rank, ds)];
    forall k | 0 <= k < |rs'| ensures l[k] == r[k] {
      if k < |rs| {
        assert rs'[k] == rs[k];
      }
    }
  }

  /**
   * One picture of a generation changes within its own footprint, gaining
   * only new nodes: the others keep their trees and nodes, it is still a
   * generation above the same bound, and nothing below the bound changed.
   */
  lemma MemberStep(ns0: seq<NodeRec>, r0: seq<nat>, ns: seq<NodeRec>, rank: seq<nat>,
                   rs0: seq<seq<nat>>, rs: seq<seq<nat>>, i: nat, bound: nat)
    requires Generation(ns0, r0, rs0, bound) && bound <= |ns0| && WellFormed(ns, rank) && i < |rs0| == |rs|
    requires forall k | 0 <= k < |rs| && k != i :: rs[k] == rs0[k]
    requires Trio(ns, rank, rs[i]) && Confined(ns0, ns, Footprint(ns0, r0, rs0[i]))
    requires Within(Footprint(ns, rank, rs[i]), Footprint(ns0, r0, rs0[i]), |ns0|)
    ensures Generation(ns, rank, rs, bound) && Confined(ns0[..bound], ns, [])
    ensures ChannelsOf(ns, rank, rs) == ChannelsOf(ns0, r0, rs0)[i := Channels(ns, rank, rs[i])]
  {
    forall k | 0 <= k < |rs| && k != i
      ensures Trio(ns, rank, rs[k]) && Footprint(ns, rank, rs[k]) == Footprint(ns0, r0, rs[k])
      ensures Channels(ns, rank, rs[k]) == Channels(ns0, r0, rs0[k])
    {
      assert Separate(ns0, r0, rs0[k], rs0[i]);
      OtherPicture(ns0, r0, ns, rank, Footprint(ns0, r0, rs0[i]), rs[k]);
    }
    assert Trios(ns, rank, rs);
    forall j, k | 0 <= j < |rs| && 0 <= k < |rs| && j != k ensures Separate(ns, rank, rs[j], rs[k]) {
      if j == i {
        StillSeparate(ns0, r0, ns, rank, rs0[i], rs[i], rs[k]);
      } else if k == i {
        StillSeparate(ns0, r0, ns, rank, rs0[i], rs[i], rs[j]);
      } else {
        assert Separate(ns0, r0, rs[j], rs[k]);
      }
    }
    forall k | 0 <= k < |rs| ensures Within(Footprint(ns, rank, rs[k]), [], bound) {
      if k == i {
        WithinTrans(Footprint(ns, rank, rs[i]), Footprint(ns0, r0, rs0[i]), [], |ns0|, bound);
      }
    }
    forall y | 0 <= y < bound ensures ns[y] == ns0[..bound][y] {
      assert y !in Footprint(ns0, r0, rs0[i]);
    }
    ChannelsUpdate(ns0, r0, ns, rank, rs0, rs, i);
  }

  /** ChannelsOf after one picture changed and the others kept their trees. */
  lemma ChannelsUpdate(ns0: seq<NodeRec>, r0: seq<nat>, ns: seq<NodeRec>, rank: seq<nat>,
                       rs0: seq<seq<nat>>, rs: seq<seq<nat>>, i: nat)
    requires Trios(ns0, r0, rs0) && Trios(ns, rank, rs) && i < |rs0| == |rs|
    requires forall k | 0 <= k < |rs| && k != i :: Channels(ns, rank, rs[k]) == Channels(ns0, r0, rs0[k])
    ensures ChannelsOf(ns, rank, rs) == ChannelsOf(ns0, r0, rs0)[i := Channels(ns, rank, rs[i])]
  {
    var l, r := ChannelsOf(ns, rank, rs), ChannelsOf(ns0, r0, rs0)[i := Channels(ns, rank, rs[i])];
    forall k | 0 <= k < |rs| ensures l[k] == r[k] {
    }
  }

  /**
   * The inner loop of evolve's last loop for picture `i` of a generation:
   * its trees become the mutated trees, the others keep theirs, the
   * generation stays one, and no record below `bound` changes.
   */
  method MutateMember(a: Arena, ps: seq<Picture>, i: nat, ms: seq<Genetics.Mutation>, ghost bound: nat)
    requires Distinct(ps) && i < |ps| && bound <= |a.nodes| && Generation(a.nodes, a.rank, RootsOf(ps), bound)
    requires Finished(ValuesOf(a, ps)[i]) && ValidMutations(ValuesOf(a, ps)[i], ms)
    modifies a, ps[i]
    ensures Generation(a.nodes, a.rank, RootsOf(ps), bound) && Confined(old(a.nodes)[..bound], a.nodes, [])
    ensures ValuesOf(a, ps) == old(ValuesOf(a, ps))[i := MutatedAll(old(ValuesOf(a, ps))[i], ms)]
  {
    ghost var ns, rk, rs := a.nodes, a.rank, RootsOf(ps);
    ValuesAt(a, ps, i);
    MutateTimes(a, ps[i], ms);
    ghost var rs' := RootsOf(ps);
    assert forall k | 0 <= k < |ps| && k != i :: rs'[k] == rs[k];
    MemberStep(ns, rk, a.nodes, a.rank, rs, rs', i, bound);
  }

  /**
   * The last loop of evolve: each picture of the generation takes its own
   * draws of mutations (rand.Intn(8) calls of picture.Mutate). The
   * generation stays one, each picture's trees are its mutated trees, and
   * no record below `bound` (where the survivors live) changes.
   */
  method MutateAll(a: Arena, ps: seq<Picture>, plan: seq<Offspring>, ghost bound: nat)
    requires Distinct(ps) && |plan| == |ps| && bound <= |a.nodes| && Generation(a.nodes, a.rank, RootsOf(ps), bound)
    requires forall k | 0 <= k < |ps| :: Finished(ValuesOf(a, ps)[k]) && ValidMutations(ValuesOf(a, ps)[k], plan[k].mutations)
    modifies a, ps
    ensures Generation(a.nodes, a.rank, RootsOf(ps), bound) && Confined(old(a.nodes)[..bound], a.nodes, [])
    ensures forall k | 0 <= k < |ps| :: ValuesOf(a, ps)[k] == MutatedAll(old(ValuesOf(a, ps))[k], plan[k].mutations)
  {
    ghost var pre, v0 := a.nodes[..bound], ValuesOf(a, ps);
    var i := 0;
    while i < |ps|
      invariant 0 <= i <= |ps| && |pre| == bound <= |a.nodes| && Generation(a.nodes, a.rank, RootsOf(ps), bound)
      invariant Confined(pre, a.nodes, [])
      invariant ValuesOf(a, ps) == MutatedUpTo(v0, plan, i)
    {
      MutateStep(a, ps, plan, i, bound, pre, v0);
      i := i + 1;
    }
    ghost var vs := ValuesOf(a, ps);
    assert vs == MutatedUpTo(v0, plan, |ps|);
    forall k | 0 <= k < |ps| ensures vs[k] == MutatedAll(v0[k], plan[k].mutations) {
    }
  }

  /** One turn of MutateAll's loop: picture `i` takes its mutations, so one more picture is mutated. */
  method MutateStep(a: Arena, ps: seq<Picture>, plan: seq<Offspring>, i: nat, ghost bound: nat,
                    ghost pre: seq<NodeRec>, ghost v0: seq<seq<Tree>>)
    requires Distinct(ps) && |plan| == |ps| == |v0| && i < |ps|
    requires forall k | 0 <= k < |v0| :: Finished(v0[k]) && ValidMutations(v0[k], plan[k].mutations)
    requires |pre| == bound <= |a.nodes| && Generation(a.nodes, a.rank, RootsOf(ps), bound)
    requires Confined(pre, a.nodes, []) && ValuesOf(a, ps) == MutatedUpTo(v0, plan, i)
    modifies a, ps[i]
    ensures bound <= |a.nodes| && Generation(a.nodes, a.rank, RootsOf(ps), bound)
    ensures Confined(pre, a.nodes, []) && ValuesOf(a, ps) == MutatedUpTo(v0, plan, i + 1)
  {
    ghost var ns := a.nodes;
    MutatedUpToStep(v0, plan, i);
    MutateMember(a, ps, i, plan[i].mutations, bound);
    KeptBelow(pre, ns, a.nodes);
  }

  /** MutateAll, which leaves the roots of every picture outside `ps` as they were. */
  method MutateEach(a: Arena, ps: seq<Picture>, plan: seq<Offspring>, ghost bound: nat, ghost others: seq<Picture>)
    requires Distinct(ps) && |plan| == |ps| && bound <= |a.nodes| && Generation(a.nodes, a.rank, RootsOf(ps), bound)
    requires forall k | 0 <= k < |ps| :: Finished(ValuesOf(a, ps)[k]) && ValidMutations(ValuesOf(a, ps)[k], plan[k].mutations)
    requires forall j, k | 0 <= j < |others| && 0 <= k < |ps| :: others[j] != ps[k]
    modifies a, ps
    ensures Generation(a.nodes, a.rank, RootsOf(ps), bound) && Confined(old(a.nodes)[..bound], a.nodes, [])
    ensures forall k | 0 <= k < |ps| :: ValuesOf(a, ps)[k] == MutatedAll(old(ValuesOf(a, ps))[k], plan[k].mutations)
    ensures RootsOf(others) == old(RootsOf(others))
  {
    ghost var rs := RootsOf(others);
    MutateAll(a, ps, plan, bound);
    forall j | 0 <= j < |others| ensures others[j].Roots() == rs[j] {
      assert others[j] !in ps;
    }
    SameRoots(others, rs);
  }

  /** The trees of a generation once its first `i` pictures have taken their mutations. */
  ghost function MutatedUpTo(v0: seq<seq<Tree>>, plan: seq<Offspring>, i: nat): (vs: seq<seq<Tree>>)
    requires |plan| == |v0| && forall k | 0 <= k < |v0| :: ValidMutations(v0[k], plan[k].mutations)
    ensures |vs| == |v0|
    ensures forall k {:trigger vs[k]} | 0 <= k < |v0| :: vs[k] == if k < i then MutatedAll(v0[k], plan[k].mutations) else v0[k]
  {
    seq(|v0|, k requires 0 <= k < |v0| => if k < i then MutatedAll(v0[k], plan[k].mutations) else v0[k])
  }

  /** Mutating picture `i` next extends the mutated prefix by one; picture `i` is still as it was. */
  lemma MutatedUpToStep(v0: seq<seq<Tree>>, plan: seq<Offspring>, i: nat)
    requires |plan| == |v0| && forall k | 0 <= k < |v0| :: ValidMutations(v0[k], plan[k].mutations)
    requires forall k | 0 <= k < |v0| :: Finished(v0[k])
    requires i < |v0|
    ensures var vs := MutatedUpTo(v0, plan, i);
      vs[i] == v0[i] && Finished(vs[i]) && ValidMutations(vs[i], plan[i].mutations) &&
      vs[i := MutatedAll(vs[i], plan[i].mutations)] == MutatedUpTo(v0, plan, i + 1)
  {
    var vs, ws := MutatedUpTo(v0, plan, i), MutatedUpTo(v0, plan, i + 1);
    var us := vs[i := MutatedAll(vs[i], plan[i].mutations)];
    forall k | 0 <= k < |v0| ensures us[k] == ws[k] {
    }
  }

  /** Nothing below the length of `pre` changed in two steps that each kept that prefix. */
  lemma KeptBelow(pre: seq<NodeRec>, ns1: seq<NodeRec>, ns2: seq<NodeRec>)
    requires Confined(pre, ns1, []) && Confined(ns1[..|pre|], ns2, [])
    ensures Confined(pre, ns2, [])
  {
    forall y | 0 <= y < |pre| ensures ns2[y] == pre[y] {
      assert ns2[y] == ns1[..|pre|][y];
    }
  }

  /**
   * One cross of evolve: the child of `x` and `y` joins the generation
   * `pics`. It is a new picture of new nodes; the pictures of the
   * generation and the survivors keep their trees.
   */
  method CrossChild(a: Arena, survivors: seq<Picture>, pics: seq<Picture>, x: Picture, y: Picture, p: CrossPick, ghost bound: nat)
    returns (z: Picture)
    requires Distinct(pics) && bound <= |a.nodes| && Generation(a.nodes, a.rank, RootsOf(pics), bound)
    requires Trios(a.nodes, a.rank, RootsOf(survivors))
    requires x.Sound(a) && y.Sound(a) && Finished(x.Values(a)) && Finished(y.Values(a))
    requires ValidCross(x.Values(a), y.Values(a), p)
    modifies a
    ensures fresh(z) && Distinct(pics + [z]) && Generation(a.nodes, a.rank, RootsOf(pics + [z]), bound)
    ensures ValuesOf(a, pics + [z]) == old(ValuesOf(a, pics)) + [Crossed(old(x.Values(a)), old(y.Values(a)), p)]
    ensures Trios(a.nodes, a.rank, RootsOf(survivors)) && ValuesOf(a, survivors) == old(ValuesOf(a, survivors))
    ensures Confined(old(a.nodes), a.nodes, [])
  {
    ghost var ns, rk, rs := a.nodes, a.rank, RootsOf(pics);
    z := Cross(a, x, y, p);
    assert RootsOf(pics) == rs;
    Unmoved(ns, rk, a.nodes, a.rank, RootsOf(survivors));
    KinGrow(ns, rk, a.nodes, a.rank, rs, z.Roots(), bound);
    RootsSnoc(pics, z);
    DistinctSnoc(pics, z);
  }

  /** A picture that is none of `ps` extends them without repetition. */
  lemma DistinctSnoc(ps: seq<Picture>, z: Picture)
    requires Distinct(ps) && z !in ps
    ensures Distinct(ps + [z])
  {
    var qs := ps + [z];
    forall j, k | 0 <= j < k < |qs| ensures qs[j] != qs[k] {
      assert qs[j] == ps[j];
    }
  }

  /** RootsOf of one more picture is one more entry. */
  lemma RootsSnoc(ps: seq<Picture>, z: Picture)
    ensures RootsOf(ps + [z]) == RootsOf(ps) + [z.Roots()]
  {
    var l, r := RootsOf(ps + [z]), RootsOf(ps) + [z.Roots()];
    forall k | 0 <= k < |l| ensures l[k] == r[k] {
      assert (ps + [z])[k] == if k < |ps| then ps[k] else z;
    }
  }

  /** The first `i` children of evolve as crossed, before their mutations. */
  ghost function Crosses(vals: seq<seq<Tree>>, plan: seq<Offspring>, i: nat): (cs: seq<seq<Tree>>)
    requires i <= |plan| && forall k | 0 <= k < |plan| :: ValidOffspring(vals, k, plan[k])
    ensures |cs| == i && forall k {:trigger cs[k]} | 0 <= k < i :: cs[k] == Crossing(vals, k, plan[k])
  {
    seq(i, k requires 0 <= k < i => Crossing(vals, k, plan[k]))
  }

  /** One more cross extends the crossed children by one. */
  lemma CrossesStep(vals: seq<seq<Tree>>, plan: seq<Offspring>, i: nat)
    requires i < |plan| && forall k | 0 <= k < |plan| :: ValidOffspring(vals, k, plan[k])
    ensures Crosses(vals, plan, i) + [Crossing(vals, i, plan[i])] == Crosses(vals, plan, i + 1)
  {
    var l := Crosses(vals, plan, i) + [Crossing(vals, i, plan[i])];
    var r := Crosses(vals, plan, i + 1);
    forall k | 0 <= k <= i ensures l[k] == r[k] {
    }
  }

  /**
   * One round of the crossing loops of evolve: child i, the cross of its
   * recipient and donor, joins the children made so far.
   */
  method CrossNext(a: Arena, survivors: seq<Picture>, newPics: seq<Picture>, plan: seq<Offspring>, i: nat,
                   ghost vals: seq<seq<Tree>>, ghost bound: nat) returns (z: Picture)
    requires 1 <= |survivors| <= NumPics && |plan| == NumPics && |newPics| == i < NumPics && bound <= |a.nodes|
    requires Distinct(newPics) && Generation(a.nodes, a.rank, RootsOf(newPics), bound)
    requires Trios(a.nodes, a.rank, RootsOf(survivors)) && ValuesOf(a, survivors) == vals
    requires forall j | 0 <= j < |survivors| :: Finished(vals[j])
    requires forall k | 0 <= k < NumPics :: ValidOffspring(vals, k, plan[k])
    requires ValuesOf(a, newPics) == Crosses(vals, plan, i)
    modifies a
    ensures fresh(z) && Distinct(newPics + [z]) && Generation(a.nodes, a.rank, RootsOf(newPics + [z]), bound)
    ensures Trios(a.nodes, a.rank, RootsOf(survivors)) && ValuesOf(a, survivors) == vals
    ensures ValuesOf(a, newPics + [z]) == Crosses(vals, plan, i + 1)
    ensures Confined(old(a.nodes), a.nodes, [])
  {
    var x := if i < |survivors| then survivors[i] else survivors[plan[i].mother];
    var y := survivors[plan[i].father];
    ValuesAt(a, survivors, Recipient(i, plan[i], |survivors|));
    ValuesAt(a, survivors, plan[i].father);
    CrossesStep(vals, plan, i);
    ghost var c := Crossing(vals, i, plan[i]);
    assert c == Crossed(x.Values(a), y.Values(a), plan[i].cross);
    z := CrossChild(a, survivors, newPics, x, y, plan[i].cross, bound);
  }

  /**
   * The two crossing loops of evolve, run as one loop over i: child i is
   * the cross of survivor i (i < |survivors|) or of the drawn survivor, with
   * the drawn donor. The children are new pictures of new nodes, and the
   * survivors keep their trees.
   */
  method CrossAll(a: Arena, survivors: seq<Picture>, plan: seq<Offspring>) returns (newPics: seq<Picture>)
    requires 1 <= |survivors| <= NumPics && |plan| == NumPics
    requires Trios(a.nodes, a.rank, RootsOf(survivors))
    requires forall j | 0 <= j < |survivors| :: Finished(ValuesOf(a, survivors)[j])
    requires forall i | 0 <= i < NumPics :: ValidOffspring(ValuesOf(a, survivors), i, plan[i])
    modifies a
    ensures |newPics| == NumPics && Distinct(newPics) && Generation(a.nodes, a.rank, RootsOf(newPics), old(|a.nodes|))
    ensures forall k | 0 <= k < NumPics :: fresh(newPics[k])
    ensures ValuesOf(a, newPics) == Crosses(old(ValuesOf(a, survivors)), plan, NumPics)
    ensures Trios(a.nodes, a.rank, RootsOf(survivors)) && ValuesOf(a, survivors) == old(ValuesOf(a, survivors))
    ensures Confined(old(a.nodes), a.nodes, [])
  {
    ghost var ns0, vals := a.nodes, ValuesOf(a, survivors);
    newPics := [];
    var i := 0;
    while i < NumPics
      invariant 0 <= i <= NumPics && |newPics| == i && |ns0| <= |a.nodes|
      invariant Distinct(newPics) && Generation(a.nodes, a.rank, RootsOf(newPics), |ns0|)
      invariant Trios(a.nodes, a.rank, RootsOf(survivors)) && ValuesOf(a, survivors) == vals
      invariant Confined(ns0, a.nodes, [])
      invariant forall k | 0 <= k < i :: fresh(newPics[k])
      invariant ValuesOf(a, newPics) == Crosses(vals, plan, i)
    {
      ghost var ns, prev := a.nodes, newPics;
      var z := CrossNext(a, survivors, newPics, plan, i, vals, |ns0|);
      ConfinedTrans(ns0, ns, a.nodes, [], []);
      newPics := newPics + [z];
      forall k | 0 <= k <= i ensures fresh(newPics[k]) {
        if k < i {
          assert newPics[k] == prev[k];
        }
      }
      i := i + 1;
    }
  }

  /** Pictures whose roots are each as recorded have the recorded roots. */
  lemma SameRoots(ps: seq<Picture>, rs: seq<seq<nat>>)
    requires |rs| == |ps| && forall j | 0 <= j < |ps| :: ps[j].Roots() == rs[j]
    ensures RootsOf(ps) == rs
  {
  }

  /** The crossed children of finished survivors are finished and can take their drawn mutations. */
  lemma CrossesReady(vals: seq<seq<Tree>>, plan: seq<Offspring>)
    requires |plan| == NumPics && forall j | 0 <= j < |vals| :: Finished(vals[j])
    requires forall i | 0 <= i < NumPics :: ValidOffspring(vals, i, plan[i])
    ensures var cs := Crosses(vals, plan, NumPics);
      forall k | 0 <= k < NumPics :: Finished(cs[k]) && ValidMutations(cs[k], plan[k].mutations)
  {
    var cs := Crosses(vals, plan, NumPics);
    forall k | 0 <= k < NumPics ensures Finished(cs[k]) && ValidMutations(cs[k], plan[k].mutations) {
      assert ValidOffspring(vals, k, plan[k]);
      CrossedProps(vals[Recipient(k, plan[k], |vals|)], vals[plan[k].father], plan[k].cross);
    }
  }

  /** Mutating each crossed child with its own draws gives the children Child describes. */
  lemma ChildrenOfCrosses(vals: seq<seq<Tree>>, plan: seq<Offspring>, crossed: seq<seq<Tree>>, children: seq<seq<Tree>>)
    requires |plan| == NumPics && forall i | 0 <= i < NumPics :: ValidOffspring(vals, i, plan[i])
    requires crossed == Crosses(vals, plan, NumPics) && |children| == NumPics
    requires forall k | 0 <= k < NumPics :: ValidMutations(crossed[k], plan[k].mutations)
    requires forall k | 0 <= k < NumPics :: children[k] == MutatedAll(crossed[k], plan[k].mutations)
    ensures forall k | 0 <= k < NumPics :: children[k] == Child(vals, k, plan[k])
  {
  }

  /**
   * evolve: a new generation of NumPics pictures from the survivors. Child
   * i < |survivors| crosses survivor i with a drawn one, every later child
   * two drawn survivors, and then every child takes its drawn mutations
   * (Offspring and Child in module Genetics). The children are new
   * pictures that share no node with each other and are made of new nodes
   * only, and the survivors keep their trees: no record that existed
   * before changes.
   */
  method Evolve(a: Arena, survivors: seq<Picture>, plan: seq<Offspring>) returns (newPics: seq<Picture>)
    requires 1 <= |survivors| <= NumPics && |plan| == NumPics
    requires Trios(a.nodes, a.rank, RootsOf(survivors))
    requires forall j | 0 <= j < |survivors| :: Finished(ValuesOf(a, survivors)[j])
    requires forall i | 0 <= i < NumPics :: ValidOffspring(ValuesOf(a, survivors), i, plan[i])
    modifies a
    ensures |newPics| == NumPics && Distinct(newPics) && Generation(a.nodes, a.rank, RootsOf(newPics), old(|a.nodes|))
    ensures forall k | 0 <= k < NumPics :: fresh(newPics[k])
    ensures forall k | 0 <= k < NumPics :: ValuesOf(a, newPics)[k] == Child(old(ValuesOf(a, survivors)), k, plan[k])
    ensures Trios(a.nodes, a.rank, RootsOf(survivors)) && ValuesOf(a, survivors) == old(ValuesOf(a, survivors))
    ensures Confined(old(a.nodes), a.nodes, [])
  {
    ghost var ns0, r0, vals, rs := a.nodes, a.rank, ValuesOf(a, survivors), RootsOf(survivors);
    assert vals == ChannelsOf(ns0, r0, rs);
    newPics := CrossAll(a, survivors, plan);
    SameRoots(survivors, rs);
    ghost var crossed := ValuesOf(a, newPics);
    CrossesReady(vals, plan);
    ghost var ns1 := a.nodes;
    assert forall j, k | 0 <= j < |survivors| && 0 <= k < |newPics| :: survivors[j] != newPics[k];
    MutateEach(a, newPics, plan, |ns0|, survivors);
    ChildrenOfCrosses(vals, plan, crossed, ValuesOf(a, newPics));
    KeptBelow(ns0, ns1, a.nodes);
    Unmoved(ns0, r0, a.nodes, a.rank, rs);
    assert ValuesOf(a, survivors) == ChannelsOf(a.nodes, a.rank, rs);
  }
}

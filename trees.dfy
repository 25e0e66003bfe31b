/**
 * Expression trees as values: what a node of ast/ast.go denotes once node
 * identity and parent links are forgotten. A `Hole` is a nil child slot of a
 * tree still under construction. The functions here are the specifications
 * that the in-place operations of the arena are proved against.
 */
module Trees {
  import opened Kinds

  datatype Tree = Hole | Node(kind: Kind, kids: seq<Tree>)

  function Leaf(k: Kind): Tree
  {
    Node(k, [])
  }

  /** A freshly allocated node of kind `k` (the New* constructors): every slot nil. */
  function Blank(k: Kind): Tree
  {
    Node(k, seq(Arity(k), _ => Hole))
  }

  /** The number of nodes (nil slots do not count): what NodeCount computes. */
  function Size(t: Tree): nat
  {
    match t
    case Hole => 0
    case Node(_, kids) => 1 + SizeIn(kids)
  }

  function SizeIn(ks: seq<Tree>): nat
  {
    if ks == [] then 0 else Size(ks[0]) + SizeIn(ks[1..])
  }

  /** The number of nil slots. */
  function Holes(t: Tree): nat
  {
    match t
    case Hole => 1
    case Node(_, kids) => HolesIn(kids)
  }

  function HolesIn(ks: seq<Tree>): nat
  {
    if ks == [] then 0 else Holes(ks[0]) + HolesIn(ks[1..])
  }

  /** The values held by the tree's Constant nodes. */
  function ConstsOf(t: Tree): set<Float32>
  {
    match t
    case Hole => {}
    case Node(k, kids) => (if k.Constant? then {k.value} else {}) + ConstsIn(kids)
  }

  function ConstsIn(ks: seq<Tree>): set<Float32>
  {
    if ks == [] then {} else ConstsOf(ks[0]) + ConstsIn(ks[1..])
  }

  /** A tree that has left construction: no nil slot anywhere. */
  predicate Complete(t: Tree)
  {
    Holes(t) == 0
  }

  /** Every node has exactly as many slots as its kind's arity. */
  predicate Shaped(t: Tree)
  {
    match t
    case Hole => true
    case Node(k, kids) => |kids| == Arity(k) && forall i | 0 <= i < |kids| :: Shaped(kids[i])
  }

  /** The subtrees of `t` in pre-order (root, then each child's subtrees left to right). */
  function PreOrder(t: Tree): seq<Tree>
  {
    match t
    case Hole => []
    case Node(_, kids) => [t] + PreOrderIn(kids)
  }

  function PreOrderIn(ks: seq<Tree>): seq<Tree>
  {
    if ks == [] then [] else PreOrder(ks[0]) + PreOrderIn(ks[1..])
  }

  /**
   * The subtree at pre-order index `n`, found the way GetNthNode walks: stop
   * at index 0, otherwise skip whole child subtrees by their sizes.
   */
  function Nth(t: Tree, n: nat): Tree
    requires n < Size(t)
  {
    if n == 0 then t else NthIn(t.kids, n - 1)
  }

  function NthIn(ks: seq<Tree>, m: nat): Tree
    requires m < SizeIn(ks)
  {
    if m < Size(ks[0]) then Nth(ks[0], m) else NthIn(ks[1..], m - Size(ks[0]))
  }

  /** `t` with the subtree at pre-order index `n` replaced by `x`. */
  function Subst(t: Tree, n: nat, x: Tree): Tree
    requires n < Size(t)
  {
    if n == 0 then x else Node(t.kind, SubstIn(t.kids, n - 1, x))
  }

  function SubstIn(ks: seq<Tree>, m: nat, x: Tree): seq<Tree>
    requires m < SizeIn(ks)
  {
    if m < Size(ks[0]) then [Subst(ks[0], m, x)] + ks[1..]
    else [ks[0]] + SubstIn(ks[1..], m - Size(ks[0]), x)
  }

  /** `t` with its first nil slot in pre-order filled by `x` (AddLeaf's effect). */
  function FillFirst(t: Tree, x: Tree): Tree
  {
    match t
    case Hole => x
    case Node(k, kids) => Node(k, FillFirstIn(kids, x))
  }

  function FillFirstIn(ks: seq<Tree>, x: Tree): seq<Tree>
  {
    if ks == [] then []
    else if Holes(ks[0]) > 0 then [FillFirst(ks[0], x)] + ks[1..]
    else [ks[0]] + FillFirstIn(ks[1..], x)
  }

  /**
   * A sequence of AddRandom slot choices that leads from `t` down through
   * occupied slots to a nil slot; every node on the way has at least one slot.
   */
  predicate PathToHole(t: Tree, path: seq<nat>)
  {
    t.Node? && |path| > 0 && path[0] < |t.kids| &&
    (t.kids[path[0]] == Hole || PathToHole(t.kids[path[0]], path[1..]))
  }

  /** AddRandom's effect: `x` placed in the nil slot that `path` leads to. */
  function InsertAt(t: Tree, path: seq<nat>, x: Tree): Tree
    requires PathToHole(t, path)
  {
    var a := path[0];
    var c := t.kids[a];
    Node(t.kind, t.kids[a := if c == Hole then x else InsertAt(c, path[1..], x)])
  }

  /** The slot choices that lead to the first nil slot in pre-order: where AddLeaf puts its leaf. */
  function FirstPath(t: Tree): (p: seq<nat>)
    requires t.Node? && Holes(t) > 0
    ensures PathToHole(t, p)
  {
    FirstPathIn(t.kids)
  }

  function FirstPathIn(ks: seq<Tree>): (p: seq<nat>)
    requires HolesIn(ks) > 0
    ensures |p| > 0 && p[0] < |ks| && (ks[p[0]] == Hole || PathToHole(ks[p[0]], p[1..]))
  {
    if Holes(ks[0]) > 0 then
      (if ks[0].Hole? then [0] else [0] + FirstPath(ks[0]))
    else
      var q := FirstPathIn(ks[1..]);
      [q[0] + 1] + q[1..]
  }

  /** The number of path steps InsertAt descends before it finds the nil slot. */
  function PathDepth(t: Tree, path: seq<nat>): nat
    requires PathToHole(t, path)
  {
    if t.kids[path[0]] == Hole then 0 else 1 + PathDepth(t.kids[path[0]], path[1..])
  }

  /** Empties the slot reached after `d` further steps along `path`. */
  function ClearAt(t: Tree, path: seq<nat>, d: nat): Tree
  {
    if t.Hole? || |path| == 0 || path[0] >= |t.kids| then t
    else if d == 0 then Node(t.kind, t.kids[path[0] := Hole])
    else Node(t.kind, t.kids[path[0] := ClearAt(t.kids[path[0]], path[1..], d - 1)])
  }

  // ---------------------------------------------------------------------
  // Mutation (ast/ast.go Mutate) as a function on values.

  /** The random draws of one GetRandomLeaf call: rand.Intn(3) and, for a Constant, its value. */
  datatype LeafPick = LeafPick(which: nat, value: Float32)

  predicate ValidLeafPick(p: LeafPick)
  {
    p.which < 3
  }

  function LeafOf(p: LeafPick): Tree
    requires ValidLeafPick(p)
  {
    Leaf(LeafKind(p.which, p.value))
  }

  /**
   * The draws of one Mutate call: `r` = rand.Intn(24), then GetRandomBaseNode's
   * `base` if r <= 21 or GetRandomLeaf's `leaf` otherwise, and `fill[i]` the
   * leaf drawn for slot i of the new node when that slot is still nil.
   */
  datatype MutPick = MutPick(r: nat, base: nat, leaf: LeafPick, fill: seq<LeafPick>)

  predicate ValidMutPick(p: MutPick)
  {
    p.r < 24 && p.base < 21 && ValidLeafPick(p.leaf) && |p.fill| >= 3 &&
    forall i | 0 <= i < |p.fill| :: ValidLeafPick(p.fill[i])
  }

  function MutantKind(p: MutPick): Kind
    requires ValidMutPick(p)
  {
    if p.r <= 21 then BaseKind(p.base) else LeafKind(p.leaf.which, p.leaf.value)
  }

  function Min(a: nat, b: nat): nat
  {
    if a < b then a else b
  }

  /** How many of `t`'s children the mutant keeps. */
  function Kept(t: Tree, p: MutPick): nat
    requires t.Node? && ValidMutPick(p)
  {
    Min(|t.kids|, Arity(MutantKind(p)))
  }

  /** The node Mutate builds in place of `t`. */
  function Mutated(t: Tree, p: MutPick): Tree
    requires t.Node? && ValidMutPick(p)
  {
    var k := MutantKind(p);
    var keep := Kept(t, p);
    Node(k, seq(Arity(k), i requires 0 <= i < Arity(k) =>
      if i < keep then t.kids[i] else LeafOf(p.fill[i])))
  }

  /** `t` with the node at pre-order index `idx` mutated. */
  function MutateAt(t: Tree, idx: nat, p: MutPick): Tree
    requires idx < Size(t) && ValidMutPick(p)
  {
    NthIsNode(t, idx);
    Subst(t, idx, Mutated(Nth(t, idx), p))
  }

  // ---------------------------------------------------------------------
  // Lemmas.

  lemma {:induction false} SizeInAppend(a: seq<Tree>, b: seq<Tree>)
    ensures SizeIn(a + b) == SizeIn(a) + SizeIn(b)
  {
    if a == [] {
      assert a + b == b;
    } else {
      assert (a + b)[0] == a[0];
      assert (a + b)[1..] == a[1..] + b;
      SizeInAppend(a[1..], b);
    }
  }

  lemma {:induction false} HolesInAppend(a: seq<Tree>, b: seq<Tree>)
    ensures HolesIn(a + b) == HolesIn(a) + HolesIn(b)
  {
    if a == [] {
      assert a + b == b;
    } else {
      assert (a + b)[0] == a[0];
      assert (a + b)[1..] == a[1..] + b;
      HolesInAppend(a[1..], b);
    }
  }

  /** A node counts itself plus its children's counts, so it is never less than one. */
  lemma {:induction false} SizeOfNode(k: Kind, kids: seq<Tree>)
    ensures Size(Node(k, kids)) == 1 + SizeIn(kids) >= 1
    ensures forall i | 0 <= i < |kids| :: Size(kids[i]) <= SizeIn(kids)
  {
    SizeInBound(kids);
  }

  lemma {:induction false} SizeInBound(ks: seq<Tree>)
    ensures forall i | 0 <= i < |ks| :: Size(ks[i]) <= SizeIn(ks)
  {
    if ks != [] {
      SizeInBound(ks[1..]);
      forall i | 1 <= i < |ks| ensures Size(ks[i]) <= SizeIn(ks) {
        assert ks[i] == ks[1..][i - 1];
      }
    }
  }

  lemma {:induction false} HolesInBound(ks: seq<Tree>)
    ensures forall i | 0 <= i < |ks| :: Holes(ks[i]) <= HolesIn(ks)
  {
    if ks != [] {
      HolesInBound(ks[1..]);
      forall i | 1 <= i < |ks| ensures Holes(ks[i]) <= HolesIn(ks) {
        assert ks[i] == ks[1..][i - 1];
      }
    }
  }

  /** SizeIn sums child sizes, so a prefix of the children is counted by a prefix sum. */
  lemma SizeInPrefix(ks: seq<Tree>, j: nat)
    requires j < |ks|
    ensures SizeIn(ks[..j + 1]) == SizeIn(ks[..j]) + Size(ks[j])
  {
    assert ks[..j + 1] == ks[..j] + [ks[j]];
    SizeInAppend(ks[..j], [ks[j]]);
    assert SizeIn([ks[j]]) == Size(ks[j]) + SizeIn([]);
  }

  lemma HolesInPrefix(ks: seq<Tree>, j: nat)
    requires j < |ks|
    ensures HolesIn(ks[..j + 1]) == HolesIn(ks[..j]) + Holes(ks[j])
  {
    assert ks[..j + 1] == ks[..j] + [ks[j]];
    HolesInAppend(ks[..j], [ks[j]]);
    assert HolesIn([ks[j]]) == Holes(ks[j]) + HolesIn([]);
  }

  /** The pre-order list has exactly one entry per node. */
  lemma {:induction false} PreOrderSize(t: Tree)
    ensures |PreOrder(t)| == Size(t)
  {
    match t
    case Hole =>
    case Node(_, kids) => PreOrderInSize(kids);
  }

  lemma {:induction false} PreOrderInSize(ks: seq<Tree>)
    ensures |PreOrderIn(ks)| == SizeIn(ks)
  {
    if ks != [] {
      PreOrderSize(ks[0]);
      PreOrderInSize(ks[1..]);
    }
  }

  /** GetNthNode's walk finds exactly the n-th entry of the pre-order list; index 0 is the root. */
  lemma {:induction false} NthIsPreOrder(t: Tree, n: nat)
    requires n < Size(t)
    ensures |PreOrder(t)| == Size(t) && Nth(t, n) == PreOrder(t)[n]
    ensures n == 0 ==> Nth(t, n) == t
  {
    PreOrderSize(t);
    if n > 0 {
      NthInIsPreOrderIn(t.kids, n - 1);
    }
  }

  lemma {:induction false} NthInIsPreOrderIn(ks: seq<Tree>, m: nat)
    requires m < SizeIn(ks)
    ensures |PreOrderIn(ks)| == SizeIn(ks) && NthIn(ks, m) == PreOrderIn(ks)[m]
  {
    PreOrderInSize(ks);
    PreOrderSize(ks[0]);
    if m < Size(ks[0]) {
      NthIsPreOrder(ks[0], m);
    } else {
      NthInIsPreOrderIn(ks[1..], m - Size(ks[0]));
    }
  }

  /** The node found at any index is a node, never a nil slot. */
  lemma {:induction false} NthIsNode(t: Tree, n: nat)
    requires n < Size(t)
    ensures Nth(t, n).Node?
  {
    if n > 0 {
      NthInIsNode(t.kids, n - 1);
    }
  }

  lemma {:induction false} NthInIsNode(ks: seq<Tree>, m: nat)
    requires m < SizeIn(ks)
    ensures NthIn(ks, m).Node?
  {
    if m < Size(ks[0]) {
      NthIsNode(ks[0], m);
    } else {
      NthInIsNode(ks[1..], m - Size(ks[0]));
    }
  }

  /**
   * Substitution puts `x` at index `n`, changes the node count by the size
   * difference, and substituting the subtree already there changes nothing.
   */
  lemma {:induction false} SubstProps(t: Tree, n: nat, x: Tree)
    requires n < Size(t)
    ensures Size(Subst(t, n, x)) == Size(t) - Size(Nth(t, n)) + Size(x)
    ensures Holes(Subst(t, n, x)) == Holes(t) - Holes(Nth(t, n)) + Holes(x)
    ensures x.Node? ==> n < Size(Subst(t, n, x)) && Nth(Subst(t, n, x), n) == x
    ensures Subst(t, n, Nth(t, n)) == t
    ensures Shaped(t) && Shaped(x) ==> Shaped(Subst(t, n, x))
  {
    if n > 0 {
      SubstInProps(t.kids, n - 1, x);
    }
  }

  lemma {:induction false} SubstInProps(ks: seq<Tree>, m: nat, x: Tree)
    requires m < SizeIn(ks)
    ensures |SubstIn(ks, m, x)| == |ks|
    ensures SizeIn(SubstIn(ks, m, x)) == SizeIn(ks) - Size(NthIn(ks, m)) + Size(x)
    ensures HolesIn(SubstIn(ks, m, x)) == HolesIn(ks) - Holes(NthIn(ks, m)) + Holes(x)
    ensures x.Node? ==> m < SizeIn(SubstIn(ks, m, x)) && NthIn(SubstIn(ks, m, x), m) == x
    ensures SubstIn(ks, m, NthIn(ks, m)) == ks
    ensures (forall i | 0 <= i < |ks| :: Shaped(ks[i])) && Shaped(x) ==>
      forall i | 0 <= i < |ks| :: Shaped(SubstIn(ks, m, x)[i])
  {
    var r := SubstIn(ks, m, x);
    if m < Size(ks[0]) {
      SubstProps(ks[0], m, x);
      assert r[1..] == ks[1..];
      assert [ks[0]] + ks[1..] == ks;
    } else {
      SubstInProps(ks[1..], m - Size(ks[0]), x);
      assert r[1..] == SubstIn(ks[1..], m - Size(ks[0]), x);
      assert [ks[0]] + ks[1..] == ks;
      if (forall i | 0 <= i < |ks| :: Shaped(ks[i])) && Shaped(x) {
        forall i | 0 <= i < |ks| ensures Shaped(r[i]) {
          if i > 0 {
            assert r[i] == r[1..][i - 1];
            assert ks[1..][i - 1] == ks[i];
          }
        }
      }
    }
  }

  /** Substitution undoes itself: putting the old subtree back at `n` restores the tree. */
  lemma {:induction false} SubstUndo(t: Tree, n: nat, x: Tree)
    requires n < Size(t) && x.Node?
    ensures n < Size(Subst(t, n, x)) && Subst(Subst(t, n, x), n, Nth(t, n)) == t
  {
    SubstProps(t, n, x);
    if n > 0 {
      SubstInUndo(t.kids, n - 1, x);
    }
  }

  lemma {:induction false} SubstInUndo(ks: seq<Tree>, m: nat, x: Tree)
    requires m < SizeIn(ks) && x.Node?
    ensures m < SizeIn(SubstIn(ks, m, x)) && SubstIn(SubstIn(ks, m, x), m, NthIn(ks, m)) == ks
  {
    SubstInProps(ks, m, x);
    var r := SubstIn(ks, m, x);
    assert [ks[0]] + ks[1..] == ks;
    if m < Size(ks[0]) {
      SubstUndo(ks[0], m, x);
      assert r[0] == Subst(ks[0], m, x) && r[1..] == ks[1..];
    } else {
      SubstInUndo(ks[1..], m - Size(ks[0]), x);
      assert r[0] == ks[0] && r[1..] == SubstIn(ks[1..], m - Size(ks[0]), x);
    }
  }

  /**
   * Filling the first nil slot: with a slot to fill, one nil slot goes and
   * `x`'s nodes and nil slots come in; with none, nothing changes.
   */
  lemma {:induction false} FillFirstProps(t: Tree, x: Tree)
    ensures Holes(t) > 0 ==>
      Holes(FillFirst(t, x)) == Holes(t) - 1 + Holes(x) &&
      Size(FillFirst(t, x)) == Size(t) + Size(x)
    ensures Holes(t) == 0 && t.Node? ==> FillFirst(t, x) == t
    ensures Shaped(t) && Shaped(x) ==> Shaped(FillFirst(t, x))
  {
    match t
    case Hole =>
    case Node(k, kids) => FillFirstInProps(kids, x);
  }

  lemma {:induction false} FillFirstInProps(ks: seq<Tree>, x: Tree)
    ensures |FillFirstIn(ks, x)| == |ks|
    ensures HolesIn(ks) > 0 ==>
      HolesIn(FillFirstIn(ks, x)) == HolesIn(ks) - 1 + Holes(x) &&
      SizeIn(FillFirstIn(ks, x)) == SizeIn(ks) + Size(x)
    ensures HolesIn(ks) == 0 ==> FillFirstIn(ks, x) == ks
    ensures (forall i | 0 <= i < |ks| :: Shaped(ks[i])) && Shaped(x) ==>
      forall i | 0 <= i < |ks| :: Shaped(FillFirstIn(ks, x)[i])
  {
    if ks != [] {
      var r := FillFirstIn(ks, x);
      FillFirstInProps(ks[1..], x);
      if Holes(ks[0]) > 0 {
        FillFirstProps(ks[0], x);
        assert r[1..] == ks[1..];
      } else {
        assert r[1..] == FillFirstIn(ks[1..], x);
        if ks[0].Node? {
          FillFirstProps(ks[0], x);
        }
        assert [ks[0]] + ks[1..] == ks;
        if (forall i | 0 <= i < |ks| :: Shaped(ks[i])) && Shaped(x) {
          forall i | 0 <= i < |ks| ensures Shaped(r[i]) {
            if i > 0 {
              assert r[i] == r[1..][i - 1];
              assert ks[1..][i - 1] == ks[i];
            }
          }
        }
      }
    }
  }

  /**
   * AddRandom overwrites no node: the node count grows by exactly `x`'s, one
   * nil slot is used up, and emptying the slot again gives back the old tree.
   */
  lemma {:induction false} InsertAtProps(t: Tree, path: seq<nat>, x: Tree)
    requires PathToHole(t, path)
    ensures Size(InsertAt(t, path, x)) == Size(t) + Size(x)
    ensures Holes(InsertAt(t, path, x)) == Holes(t) - 1 + Holes(x)
    ensures ClearAt(InsertAt(t, path, x), path, PathDepth(t, path)) == t
    ensures Shaped(t) && Shaped(x) ==> Shaped(InsertAt(t, path, x))
  {
    var a := path[0];
    var c := t.kids[a];
    var c' := if c == Hole then x else InsertAt(c, path[1..], x);
    if c != Hole {
      InsertAtProps(c, path[1..], x);
    }
    ReplaceKid(t.kids, a, c');
    assert t.kids[a := c'][a := c] == t.kids;
  }

  /** Replacing one child changes the child-list counts by the difference. */
  lemma ReplaceKid(ks: seq<Tree>, a: nat, y: Tree)
    requires a < |ks|
    ensures SizeIn(ks[a := y]) == SizeIn(ks) - Size(ks[a]) + Size(y)
    ensures HolesIn(ks[a := y]) == HolesIn(ks) - Holes(ks[a]) + Holes(y)
  {
    var c := ks[a];
    assert ks == ks[..a] + [c] + ks[a + 1..];
    assert ks[a := y] == ks[..a] + [y] + ks[a + 1..];
    SizeInAppend(ks[..a] + [c], ks[a + 1..]);
    SizeInAppend(ks[..a], [c]);
    SizeInAppend(ks[..a] + [y], ks[a + 1..]);
    SizeInAppend(ks[..a], [y]);
    HolesInAppend(ks[..a] + [c], ks[a + 1..]);
    HolesInAppend(ks[..a], [c]);
    HolesInAppend(ks[..a] + [y], ks[a + 1..]);
    HolesInAppend(ks[..a], [y]);
    assert SizeIn([c]) == Size(c) && SizeIn([y]) == Size(y);
    assert HolesIn([c]) == Holes(c) && HolesIn([y]) == Holes(y);
  }

  /**
   * The mutant has its kind's arity; its first Kept slots hold the old
   * children in order, the rest hold fresh leaves, and the old children past
   * the new arity are gone.
   */
  lemma MutatedProps(t: Tree, p: MutPick)
    requires t.Node? && ValidMutPick(p)
    ensures var m := Mutated(t, p);
      m.kind == MutantKind(p) && |m.kids| == Arity(m.kind) &&
      (forall i | 0 <= i < Kept(t, p) :: m.kids[i] == t.kids[i]) &&
      (forall i | Kept(t, p) <= i < |m.kids| :: m.kids[i] == LeafOf(p.fill[i]))
    ensures Kept(t, p) == |t.kids| || Kept(t, p) == Arity(MutantKind(p))
    ensures (p.r <= 21) == IsOperator(MutantKind(p))
  {
  }

  /** The mutant stays well shaped and complete, and its size is the kept subtrees plus the new leaves. */
  lemma MutatedSize(t: Tree, p: MutPick)
    requires t.Node? && ValidMutPick(p)
    ensures Size(Mutated(t, p)) == 1 + SizeIn(t.kids[..Kept(t, p)]) + (Arity(MutantKind(p)) - Kept(t, p))
    ensures Holes(Mutated(t, p)) == HolesIn(t.kids[..Kept(t, p)])
    ensures Shaped(t) ==> Shaped(Mutated(t, p))
  {
    var m := Mutated(t, p);
    var keep := Kept(t, p);
    var leaves := m.kids[keep..];
    assert m.kids == t.kids[..keep] + leaves;
    forall i | 0 <= i < |leaves| ensures leaves[i].Node? && leaves[i].kids == [] {
      assert leaves[i] == LeafOf(p.fill[keep + i]);
    }
    LeavesCount(leaves);
    SizeInAppend(t.kids[..keep], leaves);
    HolesInAppend(t.kids[..keep], leaves);
    if Shaped(t) {
      forall i | 0 <= i < |m.kids| ensures Shaped(m.kids[i]) {
        if i >= keep {
          assert m.kids[i] == LeafOf(p.fill[i]);
        }
      }
    }
  }

  lemma {:induction false} LeavesCount(ls: seq<Tree>)
    requires forall i | 0 <= i < |ls| :: ls[i].Node? && ls[i].kids == []
    ensures SizeIn(ls) == |ls| && HolesIn(ls) == 0
  {
    if ls != [] {
      assert SizeIn(ls[0].kids) == 0 && HolesIn(ls[0].kids) == 0;
      LeavesCount(ls[1..]);
    }
  }

  /** Mutating at an index builds the mutant there and keeps the tree well shaped. */
  lemma MutateAtProps(t: Tree, idx: nat, p: MutPick)
    requires idx < Size(t) && ValidMutPick(p)
    ensures (NthIsNode(t, idx);
      var m := Mutated(Nth(t, idx), p);
      idx < Size(MutateAt(t, idx, p)) && Nth(MutateAt(t, idx, p), idx) == m &&
      Size(MutateAt(t, idx, p)) == Size(t) - Size(Nth(t, idx)) + Size(m))
    ensures Shaped(t) ==> Shaped(MutateAt(t, idx, p))
    ensures Complete(t) ==> Complete(MutateAt(t, idx, p))
  {
    NthIsNode(t, idx);
    var n := Nth(t, idx);
    var m := Mutated(n, p);
    SubstProps(t, idx, m);
    MutatedSize(n, p);
    if Shaped(t) {
      NthShaped(t, idx);
    }
    if Complete(t) {
      NthHoles(t, idx);
      HolesInPrefixBound(n.kids, Kept(n, p));
    }
  }

  lemma {:induction false} NthShaped(t: Tree, n: nat)
    requires n < Size(t) && Shaped(t)
    ensures Shaped(Nth(t, n))
  {
    if n > 0 {
      NthInShaped(t.kids, n - 1);
    }
  }

  lemma {:induction false} NthInShaped(ks: seq<Tree>, m: nat)
    requires m < SizeIn(ks) && forall i | 0 <= i < |ks| :: Shaped(ks[i])
    ensures Shaped(NthIn(ks, m))
  {
    if m < Size(ks[0]) {
      NthShaped(ks[0], m);
    } else {
      NthInShaped(ks[1..], m - Size(ks[0]));
    }
  }

  lemma {:induction false} NthHoles(t: Tree, n: nat)
    requires n < Size(t)
    ensures Holes(Nth(t, n)) <= Holes(t)
  {
    if n > 0 {
      NthInHoles(t.kids, n - 1);
    }
  }

  lemma {:induction false} NthInHoles(ks: seq<Tree>, m: nat)
    requires m < SizeIn(ks)
    ensures Holes(NthIn(ks, m)) <= HolesIn(ks)
  {
    if m < Size(ks[0]) {
      NthHoles(ks[0], m);
    } else {
      NthInHoles(ks[1..], m - Size(ks[0]));
    }
  }

  lemma HolesInPrefixBound(ks: seq<Tree>, j: nat)
    requires j <= |ks|
    ensures HolesIn(ks[..j]) <= HolesIn(ks)
  {
    assert ks == ks[..j] + ks[j..];
    HolesInAppend(ks[..j], ks[j..]);
  }

  lemma {:induction false} AllHoles(ks: seq<Tree>)
    requires forall i | 0 <= i < |ks| :: ks[i] == Hole
    ensures SizeIn(ks) == 0 && HolesIn(ks) == |ks|
  {
    if ks != [] {
      AllHoles(ks[1..]);
    }
  }

  /** A fresh node is one node with one nil slot per unit of arity. */
  lemma BlankProps(k: Kind)
    ensures Size(Blank(k)) == 1 && Holes(Blank(k)) == Arity(k) && Shaped(Blank(k))
  {
    AllHoles(Blank(k).kids);
  }

  /**
   * AddLeaf's slot is AddRandom's for the path to the first nil slot:
   * FirstPath leads to a nil slot and filling it is FillFirst.
   */
  lemma {:induction false} FirstPathFills(t: Tree, x: Tree)
    requires t.Node? && Holes(t) > 0
    ensures InsertAt(t, FirstPath(t), x) == FillFirst(t, x)
    decreases t, 1
  {
    FirstPathInFills(t.kind, t.kids, x);
  }

  lemma {:induction false} FirstPathInFills(k: Kind, ks: seq<Tree>, x: Tree)
    requires HolesIn(ks) > 0
    ensures InsertAt(Node(k, ks), FirstPathIn(ks), x) == Node(k, FillFirstIn(ks, x))
    decreases ks, 0
  {
    var p := FirstPathIn(ks);
    if Holes(ks[0]) > 0 {
      if ks[0].Node? {
        FirstPathFills(ks[0], x);
        assert p[1..] == FirstPath(ks[0]);
      }
      assert ks[0 := FillFirst(ks[0], x)] == [FillFirst(ks[0], x)] + ks[1..];
    } else {
      var q := FirstPathIn(ks[1..]);
      FirstPathInFills(k, ks[1..], x);
      assert p == [q[0] + 1] + q[1..];
      InsertShift(k, ks, q, x);
    }
  }

  /** A path into the later children, shifted by one, inserts there and leaves the first child. */
  lemma InsertShift(k: Kind, ks: seq<Tree>, q: seq<nat>, x: Tree)
    requires |ks| > 0 && PathToHole(Node(k, ks[1..]), q)
    ensures PathToHole(Node(k, ks), [q[0] + 1] + q[1..])
    ensures InsertAt(Node(k, ks), [q[0] + 1] + q[1..], x).kids == [ks[0]] + InsertAt(Node(k, ks[1..]), q, x).kids
  {
    var p := [q[0] + 1] + q[1..];
    var rest := ks[1..];
    assert p[0] == q[0] + 1 && p[1..] == q[1..];
    assert ks[p[0]] == rest[q[0]];
    var c := rest[q[0]];
    var c' := if c == Hole then x else InsertAt(c, q[1..], x);
    assert ks[p[0] := c'] == [ks[0]] + rest[q[0] := c'];
  }


  /** FirstPath starts at the first child that has a nil slot. */
  lemma {:induction false} FirstPathAt(ks: seq<Tree>, j: nat)
    requires j < |ks| && HolesIn(ks[..j]) == 0 && Holes(ks[j]) > 0
    ensures HolesIn(ks) > 0
    ensures FirstPathIn(ks) == [j] + (if ks[j].Hole? then [] else FirstPath(ks[j]))
    decreases j
  {
    HolesInPrefix(ks, j);
    HolesInPrefixBound(ks, j + 1);
    if j > 0 {
      assert Holes(ks[0]) == 0 by {
        HolesInPrefix(ks, 0);
        HolesInPrefixBound(ks[..j], 1);
        assert ks[..j][..1] == ks[..1];
      }
      var rest := ks[1..];
      assert rest[..j - 1] == ks[1..j];
      assert HolesIn(ks[..j]) == Holes(ks[0]) + HolesIn(ks[1..j]) by {
        assert ks[..j][1..] == ks[1..j];
      }
      FirstPathAt(rest, j - 1);
    }
  }
}

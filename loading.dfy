/**
 * BeginLexing and parse of ast/parser.go on the node graph. The lexer runs
 * to the end of the input first and parse then reads its tokens in order:
 * the channel between the two goroutines becomes the sequence of tokens
 * the lexer emitted, of which each call consumes a prefix. parse allocates
 * the nodes of the tree it reads in pre-order and links each to its parent;
 * it is proved against ParseTree of module Parsing.
 */
module Loading {
  import opened Wrappers
  import opened Kinds
  import opened Trees
  import opened Lexing
  import opened Parsing
  import opened Heap
  import opened HeapUpdates
  import opened Ast

  /** The arena only grew: old nodes and ranks are kept and every new node ranks above all old ones. */
  ghost predicate Grown(ns0: seq<NodeRec>, r0: seq<nat>, ns: seq<NodeRec>, rank: seq<nat>)
  {
    |ns0| <= |ns| == |rank| && ns[..|ns0|] == ns0 && rank[..|ns0|] == r0 &&
    forall y | |ns0| <= y < |ns| :: rank[y] > MaxRank(r0)
  }

  /** Node `c` heads a tree of value `t`, made of the nodes from `c` on, linked, hung under `parent`. */
  ghost predicate Planted(ns: seq<NodeRec>, rank: seq<nat>, c: nat, parent: Link, t: Tree)
  {
    WellFormed(ns, rank) && c < |ns| && Erase(View(ns, rank, c)) == t &&
    Ids(View(ns, rank, c)) == Range(c, |ns|) && Linked(ns, View(ns, rank, c)) && ns[c].parent == parent
  }

  /**
   * The arena after a parse that the reference parse `res` describes: on
   * success the node returned is the first new one and heads the tree
   * `res` reads; on failure the error is the same.
   */
  ghost predicate Loaded(ns0: seq<NodeRec>, r0: seq<nat>, ns: seq<NodeRec>, rank: seq<nat>, parent: Link,
                         res: Result<(Tree, seq<Token>), ParseError>, r: Result<nat, ParseError>)
  {
    WellFormed(ns, rank) && Grown(ns0, r0, ns, rank) &&
    match res
    case Ok((t, _)) => r == Ok(|ns0|) && Planted(ns, rank, |ns0|, parent, t)
    case Err(e) => r == Err(e)
  }

  /** The reference parse of an operator node of kind `k` once its word has been read. */
  function Rooted(k: Kind, kr: Result<(seq<Tree>, seq<Token>), ParseError>): Result<(Tree, seq<Token>), ParseError>
  {
    match kr
    case Err(e) => Err(e)
    case Ok((kids, rest)) => Ok((Node(k, kids), rest))
  }

  /** `done` put in front of the children a parse of further children reads. */
  function Prepend(done: seq<Tree>, kr: Result<(seq<Tree>, seq<Token>), ParseError>): Result<(seq<Tree>, seq<Token>), ParseError>
  {
    match kr
    case Err(e) => Err(e)
    case Ok((kids, rest)) => Ok((done + kids, rest))
  }

  lemma PrependNothing(kr: Result<(seq<Tree>, seq<Token>), ParseError>)
    ensures Prepend([], kr) == kr
  {
    match kr
    case Err(_) =>
    case Ok((kids, rest)) => assert [] + kids == kids;
  }

  /** The slots not yet filled. */
  function Pending(m: nat): seq<Tree>
  {
    seq(m, _ => Hole)
  }

  /** When the next slot's tree fails to parse, so does the whole operator node, with that error. */
  lemma KidsFail(ts: seq<Token>, n: nat, pf: string -> Option<Float32>, done: seq<Tree>, cur: seq<Token>, left: nat, k: Kind)
    requires left > 0 && ParseTree(cur, pf).Err? && ParseKids(ts, n, pf) == Prepend(done, ParseKids(cur, left, pf))
    ensures ParseKids(ts, n, pf) == Err(ParseTree(cur, pf).error)
    ensures Rooted(k, ParseKids(ts, n, pf)) == Err(ParseTree(cur, pf).error)
  {
  }

  /** With no slot left to fill, nothing is pending after the children read. */
  lemma NoPending(done: seq<Tree>, left: nat)
    requires left == 0
    ensures done + Pending(left) == done
  {
    assert Pending(left) == [];
  }

  /** The loop of the operator branch after the next slot took the next tree of `cur`, with `left` slots to go. */
  lemma KidsNext(ts: seq<Token>, n: nat, pf: string -> Option<Float32>, done: seq<Tree>, cur: seq<Token>, left: nat)
    requires left > 0 && ParseTree(cur, pf).Ok? && ParseKids(ts, n, pf) == Prepend(done, ParseKids(cur, left, pf))
    ensures ParseKids(ts, n, pf) ==
      Prepend(done + [ParseTree(cur, pf).value.0], ParseKids(ParseTree(cur, pf).value.1, left - 1, pf))
  {
    KidsStep(cur, left, pf, done);
  }

  /** Reading `m` children is reading one tree, then `m - 1` children after it. */
  lemma KidsStep(ts: seq<Token>, m: nat, pf: string -> Option<Float32>, done: seq<Tree>)
    requires m > 0 && ParseTree(ts, pf).Ok?
    ensures var (t, rest) := ParseTree(ts, pf).value;
      Prepend(done, ParseKids(ts, m, pf)) == Prepend(done + [t], ParseKids(rest, m - 1, pf))
  {
    var (t, rest) := ParseTree(ts, pf).value;
    match ParseKids(rest, m - 1, pf)
    case Err(e) =>
    case Ok((more, rest')) =>
      assert done + ([t] + more) == (done + [t]) + more;
  }

  lemma GrownTrans(ns0: seq<NodeRec>, r0: seq<nat>, ns1: seq<NodeRec>, r1: seq<nat>, ns2: seq<NodeRec>, r2: seq<nat>)
    requires Grown(ns0, r0, ns1, r1) && Grown(ns1, r1, ns2, r2)
    ensures Grown(ns0, r0, ns2, r2)
  {
    var n0, n1 := |ns0|, |ns1|;
    assert ns2[..n0] == ns2[..n1][..n0];
    assert r2[..n0] == r2[..n1][..n0];
    forall y | n0 <= y < |ns2| ensures r2[y] > MaxRank(r0) {
      if y < n1 {
        assert r2[y] == r2[..n1][y] == r1[y];
      } else if n0 < n1 {
        assert r1[n0] > MaxRank(r0);
      } else {
        assert r1 == r1[..n0] == r0;
      }
    }
  }

  /** Building only ever appended to the arena. */
  lemma BuildingGrown(ns0: seq<NodeRec>, r0: seq<nat>, ns: seq<NodeRec>, rank: seq<nat>,
                      c: nat, k: Kind, parent: Link, want: seq<Tree>, j: nat)
    requires Building(ns0, r0, ns, rank, c, k, parent, want, j)
    ensures Grown(ns0, r0, ns, rank)
  {
  }

  /** Building depends only on the children already placed. */
  lemma BuildingRewant(ns0: seq<NodeRec>, r0: seq<nat>, ns: seq<NodeRec>, rank: seq<nat>,
                       c: nat, k: Kind, parent: Link, want: seq<Tree>, want': seq<Tree>, j: nat)
    requires Building(ns0, r0, ns, rank, c, k, parent, want, j)
    requires |want'| == |want| && j <= |want| && want'[..j] == want[..j]
    ensures Building(ns0, r0, ns, rank, c, k, parent, want', j)
  {
    forall q | 0 <= q < j ensures want'[q] == want[q] {
      assert want'[q] == want'[..j][q];
    }
  }

  /**
   * parse: skip parentheses, then build the node an operator or constant
   * token names under `parent`. Returns the node and the unread tokens.
   */
  method Parse(a: Arena, ts: seq<Token>, parent: Link, pf: string -> Option<Float32>)
      returns (r: Result<nat, ParseError>, rest: seq<Token>)
    requires a.Valid() && LinkIn(parent, |a.nodes|)
    modifies a
    ensures a.Valid() && Loaded(old(a.nodes), old(a.rank), a.nodes, a.rank, parent, ParseTree(ts, pf), r)
    ensures ParseTree(ts, pf).Ok? ==> rest == ParseTree(ts, pf).value.1
    decreases |ts|, 0
  {
    var cur := ts;
    while true
      invariant |cur| <= |ts| && ParseTree(cur, pf) == ParseTree(ts, pf)
      invariant a.nodes == old(a.nodes) && a.rank == old(a.rank)
      decreases |cur|
    {
      if cur == [] {
        return Err(NoMoreTokens), cur;
      }
      var tok := cur[0];
      cur := cur[1..];
      match tok.typ
      case Op =>
        var kind := KindOfKeyword(tok.value);
        if kind.None? {
          return Err(UnknownWord(tok.value)), cur;
        }
        r, rest := ParseOperator(a, kind.value, cur, parent, pf);
        return;
      case Const =>
        var v := pf(tok.value);
        if v.None? {
          return Err(BadNumber(tok.value)), cur;
        }
        var c := OpenNode(a, Constant(v.value), parent);
        assert Pending(0) == [];
        BuildDone(old(a.nodes), old(a.rank), a.nodes, a.rank, c, Constant(v.value), parent, []);
        BuildingGrown(old(a.nodes), old(a.rank), a.nodes, a.rank, c, Constant(v.value), parent, [], 0);
        return Ok(c), cur;
      case OpenParen =>
      case CloseParen =>
    }
  }

  /** stringToNode or NewOpConstant, then SetParent: a fresh node of kind `k` under `parent`, every slot nil. */
  method OpenNode(a: Arena, k: Kind, parent: Link) returns (c: nat)
    requires a.Valid() && LinkIn(parent, |a.nodes|)
    modifies a
    ensures c == old(|a.nodes|) && Building(old(a.nodes), old(a.rank), a.nodes, a.rank, c, k, parent, Pending(Arity(k)), 0)
  {
    ghost var ns0, r0 := a.nodes, a.rank;
    c := a.NewNode(k);
    a.SetParent(c, parent);
    assert a.nodes[..c] == ns0 && a.rank[..c] == r0;
    BuildStart(ns0, r0, a.nodes, a.rank, c, k, parent, Pending(Arity(k)));
  }

  /**
   * The operator branch of parse: a fresh node of kind `k` under `parent`,
   * whose slots are filled in order by parsing one tree each from `ts`.
   */
  method ParseOperator(a: Arena, k: Kind, ts: seq<Token>, parent: Link, pf: string -> Option<Float32>)
      returns (r: Result<nat, ParseError>, rest: seq<Token>)
    requires a.Valid() && LinkIn(parent, |a.nodes|)
    modifies a
    ensures a.Valid() && Loaded(old(a.nodes), old(a.rank), a.nodes, a.rank, parent, Rooted(k, ParseKids(ts, Arity(k), pf)), r)
    ensures ParseKids(ts, Arity(k), pf).Ok? ==> rest == ParseKids(ts, Arity(k), pf).value.1
    decreases |ts|, 2
  {
    ghost var ns0, r0 := a.nodes, a.rank;
    var c := OpenNode(a, k, parent);
    var n := Arity(k);
    ghost var done: seq<Tree> := [];
    PrependNothing(ParseKids(ts, n, pf));
    var cur := ts;
    var j := 0;
    ghost var left := n;
    while j < n
      invariant j + left == n && |done| == j
      invariant Filling(ns0, r0, a.nodes, a.rank, c, k, parent, ts, pf, done, cur, left)
    {
      var w, more := ParseSlot(a, c, k, parent, j, cur, pf, ns0, r0, ts, done, left);
      if w.Err? {
        return w, more;
      }
      done := done + [ParseTree(cur, pf).value.0];
      cur := more;
      j := j + 1;
      left := left - 1;
    }
    FillingDone(ns0, r0, a.nodes, a.rank, c, k, parent, ts, pf, done, cur, left);
    return Ok(c), cur;
  }

  /**
   * The state of the operator branch's loop: the node `c` is being built
   * with the trees `done` in its first slots and `left` slots to go, and
   * what is left of the stream, `cur`, holds the remaining children.
   */
  ghost predicate Filling(ns0: seq<NodeRec>, r0: seq<nat>, ns: seq<NodeRec>, rank: seq<nat>, c: nat, k: Kind, parent: Link,
                          ts: seq<Token>, pf: string -> Option<Float32>, done: seq<Tree>, cur: seq<Token>, left: nat)
  {
    |done| + left == Arity(k) && |cur| <= |ts| &&
    Building(ns0, r0, ns, rank, c, k, parent, done + Pending(left), |done|) &&
    ParseKids(ts, Arity(k), pf) == Prepend(done, ParseKids(cur, left, pf))
  }

  /** Once every slot is filled, node `c` holds the operator node ParseTree reads. */
  lemma FillingDone(ns0: seq<NodeRec>, r0: seq<nat>, ns: seq<NodeRec>, rank: seq<nat>, c: nat, k: Kind, parent: Link,
                    ts: seq<Token>, pf: string -> Option<Float32>, done: seq<Tree>, cur: seq<Token>, left: nat)
    requires left == 0 && Filling(ns0, r0, ns, rank, c, k, parent, ts, pf, done, cur, left)
    ensures Loaded(ns0, r0, ns, rank, parent, Rooted(k, ParseKids(ts, Arity(k), pf)), Ok(c))
    ensures ParseKids(ts, Arity(k), pf) == Ok((done, cur))
  {
    NoPending(done, left);
    BuildDone(ns0, r0, ns, rank, c, k, parent, done);
    BuildingGrown(ns0, r0, ns, rank, c, k, parent, done, |done|);
    assert done + [] == done;
  }

  /** `n.GetChildren()[j] = parse(tokens, n)`: slot `j` of node `c` receives the next tree of the stream. */
  method ParseSlot(a: Arena, c: nat, k: Kind, parent: Link, j: nat, cur: seq<Token>, pf: string -> Option<Float32>,
                   ghost ns0: seq<NodeRec>, ghost r0: seq<nat>, ghost ts: seq<Token>, ghost done: seq<Tree>, ghost left: nat)
      returns (w: Result<nat, ParseError>, rest: seq<Token>)
    requires left > 0 && j == |done| && Filling(ns0, r0, a.nodes, a.rank, c, k, parent, ts, pf, done, cur, left)
    modifies a
    ensures a.Valid()
    ensures w.Err? ==> (ParseKids(ts, Arity(k), pf).Err? &&
      Loaded(ns0, r0, a.nodes, a.rank, parent, Rooted(k, ParseKids(ts, Arity(k), pf)), w))
    ensures w.Ok? ==> (ParseTree(cur, pf).Ok? && rest == ParseTree(cur, pf).value.1 &&
      Filling(ns0, r0, a.nodes, a.rank, c, k, parent, ts, pf, done + [ParseTree(cur, pf).value.0], rest, left - 1))
    decreases |cur|, 1
  {
    ghost var ns1, r1 := a.nodes, a.rank;
    BuildingGrown(ns0, r0, ns1, r1, c, k, parent, done + Pending(left), j);
    var r;
    r, rest := Parse(a, cur, Ref(c), pf);
    GrownTrans(ns0, r0, ns1, r1, a.nodes, a.rank);
    if r.Err? {
      KidsFail(ts, Arity(k), pf, done, cur, left, k);
      return r, rest;
    }
    ghost var t := ParseTree(cur, pf).value.0;
    ghost var want := (done + [t]) + Pending(left - 1);
    BuildingRewant(ns0, r0, ns1, r1, c, k, parent, done + Pending(left), want, j);
    BuildStep(ns0, r0, ns1, r1, a.nodes, a.rank, c, k, parent, want, j, r.value);
    assert a.rank[c] == r1[c] <= MaxRank(r1);
    a.SetChild(c, j, r.value);
    BuildingGrown(ns0, r0, a.nodes, a.rank, c, k, parent, want, j + 1);
    KidsNext(ts, Arity(k), pf, done, cur, left);
    assert |done + [t]| == j + 1;
    w := r;
  }

  /**
   * BeginLexing: run the lexer over `s` and parse one tree from its tokens,
   * with no parent. The result is what ParseTree reads from Tokens(s).
   */
  method BeginLexing(a: Arena, s: string, pf: string -> Option<Float32>) returns (root: Result<nat, ParseError>)
    requires a.Valid()
    modifies a
    ensures a.Valid() && Loaded(old(a.nodes), old(a.rank), a.nodes, a.rank, Nil, ParseTree(Tokens(s), pf), root)
  {
    var l := new Lexer(s);
    l.Run();
    assert l.tokens == Tokens(s);
    var rest;
    root, rest := Parse(a, l.tokens, Nil, pf);
  }
}

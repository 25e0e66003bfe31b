/**
 * A saved picture loads back: the text String prints for a finished tree
 * (saveTree) is lexed and parsed by BeginLexing into the same tree, up to
 * what printing and re-reading does to each float32 constant. The chain is
 * String, then the lexer (ShowLexes), then parse, which ignores the
 * parentheses (ParseIgnoresParens) and reads the Polish notation that is
 * left (ParsePolish).
 */
module RoundTrip {
  import opened Wrappers
  import opened Kinds
  import opened Trees
  import opened Lexing
  import opened Printing
  import opened Parsing

  /** The printed tokens without parentheses: each keyword followed by its children, in pre-order. */
  function Polish(t: Tree, fmt: Float32 -> string): seq<Token>
    requires Complete(t) && Shaped(t)
  {
    match t
    case Node(k, kids) =>
      if k.Constant? then [Token(Const, fmt(k.value))]
      else [Token(Op, Keyword(k))] + PolishIn(kids, fmt)
  }

  function PolishIn(ks: seq<Tree>, fmt: Float32 -> string): seq<Token>
    requires HolesIn(ks) == 0 && forall i | 0 <= i < |ks| :: Shaped(ks[i])
  {
    if ks == [] then []
    else
      HolesInBound(ks);
      Polish(ks[0], fmt) + PolishIn(ks[1..], fmt)
  }

  /** A constant as it comes back from being printed with `fmt` and read with `pf`. */
  function Reread(v: Float32, fmt: Float32 -> string, pf: string -> Option<Float32>): Float32
  {
    match pf(fmt(v))
    case Some(w) => w
    case None => v
  }

  /** The tree with every constant reread; the shape and every other kind stay. */
  function Reload(t: Tree, fmt: Float32 -> string, pf: string -> Option<Float32>): Tree
  {
    match t
    case Hole => Hole
    case Node(k, kids) => Node(if k.Constant? then Constant(Reread(k.value, fmt, pf)) else k, ReloadIn(kids, fmt, pf))
  }

  function ReloadIn(ks: seq<Tree>, fmt: Float32 -> string, pf: string -> Option<Float32>): (r: seq<Tree>)
    ensures |r| == |ks|
  {
    if ks == [] then [] else [Reload(ks[0], fmt, pf)] + ReloadIn(ks[1..], fmt, pf)
  }

  /** When reading a printed constant gives the constant back, reloading changes nothing. */
  lemma {:induction false} ReloadExact(t: Tree, fmt: Float32 -> string, pf: string -> Option<Float32>)
    requires forall v | v in ConstsOf(t) :: pf(fmt(v)) == Some(v)
    ensures Reload(t, fmt, pf) == t
  {
    match t
    case Hole =>
    case Node(k, kids) => ReloadInExact(kids, fmt, pf);
  }

  lemma {:induction false} ReloadInExact(ks: seq<Tree>, fmt: Float32 -> string, pf: string -> Option<Float32>)
    requires forall v | v in ConstsIn(ks) :: pf(fmt(v)) == Some(v)
    ensures ReloadIn(ks, fmt, pf) == ks
  {
    if ks != [] {
      ReloadExact(ks[0], fmt, pf);
      ReloadInExact(ks[1..], fmt, pf);
    }
  }

  /** Dropping the parentheses from the printed tokens leaves the Polish notation. */
  lemma {:induction false} StripShow(t: Tree, fmt: Float32 -> string)
    requires Complete(t) && Shaped(t)
    ensures Strip(ShowTokens(t, fmt)) == Polish(t, fmt)
  {
    match t
    case Node(k, kids) =>
      if k.Constant? {
      } else if k == X || k == Y {
        assert PolishIn(kids, fmt) == [];
      } else {
        var open := [Token(OpenParen, "("), Token(Op, Keyword(k))];
        var close := [Token(CloseParen, ")")];
        StripShowIn(kids, fmt);
        StripAppend(open + ShowTokensIn(kids, fmt), close);
        StripAppend(open, ShowTokensIn(kids, fmt));
        assert Strip(open) == [Token(Op, Keyword(k))];
        assert Strip(close) == [];
      }
  }

  lemma {:induction false} StripShowIn(ks: seq<Tree>, fmt: Float32 -> string)
    requires HolesIn(ks) == 0 && forall i | 0 <= i < |ks| :: Shaped(ks[i])
    ensures Strip(ShowTokensIn(ks, fmt)) == PolishIn(ks, fmt)
  {
    if ks != [] {
      HolesInBound(ks);
      StripShow(ks[0], fmt);
      StripShowIn(ks[1..], fmt);
      StripAppend(ShowTokens(ks[0], fmt), ShowTokensIn(ks[1..], fmt));
    }
  }

  /**
   * parse reads a tree's Polish notation back as the tree, constants reread,
   * and leaves whatever follows untouched.
   */
  lemma {:induction false} ParsePolish(t: Tree, fmt: Float32 -> string, pf: string -> Option<Float32>, more: seq<Token>)
    requires Complete(t) && Shaped(t) && forall v | v in ConstsOf(t) :: pf(fmt(v)).Some?
    ensures ParseTree(Polish(t, fmt) + more, pf) == Ok((Reload(t, fmt, pf), more))
  {
    match t
    case Node(k, kids) =>
      var ts := Polish(t, fmt) + more;
      if k.Constant? {
        assert ts[0] == Token(Const, fmt(k.value)) && ts[1..] == more;
        assert ReloadIn(kids, fmt, pf) == [];
      } else {
        KeywordRoundTrip(k);
        assert ts[0] == Token(Op, Keyword(k)) && ts[1..] == PolishIn(kids, fmt) + more;
        ParsePolishIn(kids, fmt, pf, more);
        ParseOpStep(ts, k, pf, ReloadIn(kids, fmt, pf), more);
      }
  }

  /** An operator token naming `k`, then `k`'s children, parses as the node. */
  lemma ParseOpStep(ts: seq<Token>, k: Kind, pf: string -> Option<Float32>, kids: seq<Tree>, more: seq<Token>)
    requires ts != [] && ts[0].typ == Op && KindOfKeyword(ts[0].value) == Some(k)
    requires ParseKids(ts[1..], Arity(k), pf) == Ok((kids, more))
    ensures ParseTree(ts, pf) == Ok((Node(k, kids), more))
  {
  }

  lemma {:induction false} ParsePolishIn(ks: seq<Tree>, fmt: Float32 -> string, pf: string -> Option<Float32>, more: seq<Token>)
    requires HolesIn(ks) == 0 && (forall i | 0 <= i < |ks| :: Shaped(ks[i])) && forall v | v in ConstsIn(ks) :: pf(fmt(v)).Some?
    ensures ParseKids(PolishIn(ks, fmt) + more, |ks|, pf) == Ok((ReloadIn(ks, fmt, pf), more))
  {
    if ks == [] {
      assert PolishIn(ks, fmt) + more == more;
    } else {
      HolesInBound(ks);
      var after := PolishIn(ks[1..], fmt) + more;
      assert PolishIn(ks, fmt) + more == Polish(ks[0], fmt) + after;
      ParsePolish(ks[0], fmt, pf, after);
      ParsePolishIn(ks[1..], fmt, pf, more);
    }
  }

  /**
   * The text saved for a finished tree loads back as that tree with its
   * constants reread; what parse leaves on the channel is only closing
   * parentheses. `fmt` prints each constant of the tree as a fixed-point
   * numeral and `pf` reads it: FormatFloat(v, 'f', 9, 32) and ParseFloat on
   * a finite float32.
   */
  lemma SavedTreeReloads(t: Tree, fmt: Float32 -> string, pf: string -> Option<Float32>)
    requires Complete(t) && Shaped(t)
    requires forall v | v in ConstsOf(t) :: FixedPoint(fmt(v)) && pf(fmt(v)).Some?
    ensures var r := ParseTree(Tokens(Show(t, fmt)), pf);
      r.Ok? && r.value.0 == Reload(t, fmt, pf) &&
      forall i | 0 <= i < |r.value.1| :: r.value.1[i].typ in {OpenParen, CloseParen}
  {
    var ts := ShowTokens(t, fmt);
    ShowLexes(t, fmt);
    ParseIgnoresParens(ts, pf);
    StripShow(t, fmt);
    ParsePolish(t, fmt, pf, []);
    assert Polish(t, fmt) + [] == Polish(t, fmt);
    var r := ParseTree(ts, pf);
    assert StripRest(r) == Ok((Reload(t, fmt, pf), []));
    StripKeeps(r.value.1);
  }

  /** With an exact float round trip, the saved tree loads back as itself. */
  lemma SavedTreeReloadsExactly(t: Tree, fmt: Float32 -> string, pf: string -> Option<Float32>)
    requires Complete(t) && Shaped(t)
    requires forall v | v in ConstsOf(t) :: FixedPoint(fmt(v)) && pf(fmt(v)) == Some(v)
    ensures ParseTree(Tokens(Show(t, fmt)), pf).Ok?
    ensures ParseTree(Tokens(Show(t, fmt)), pf).value.0 == t
  {
    SavedTreeReloads(t, fmt, pf);
    ReloadExact(t, fmt, pf);
  }
}

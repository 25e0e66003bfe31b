/**
 * parse of ast/parser.go as a function on the token stream: parentheses are
 * skipped wherever they occur, an operator token opens a node whose slots
 * are filled by parsing one tree each from the rest of the stream, and a
 * constant token is a leaf. The node structure therefore comes from the
 * arities of the kinds alone, not from the parentheses. A closed channel,
 * an unknown word and a malformed numeral, where the Go code panics, are
 * the three errors. Reading a float32 (strconv.ParseFloat with bit size 32,
 * then the float32 conversion) is the parameter `pf`; None is its error.
 */
module Parsing {
  import opened Wrappers
  import opened Kinds
  import opened Trees
  import opened Lexing

  datatype ParseError = NoMoreTokens | UnknownWord(word: string) | BadNumber(lexeme: string)

  /** `rest` is what is left of `ts` after reading some of its tokens from the front. */
  predicate SuffixOf(rest: seq<Token>, ts: seq<Token>)
  {
    |rest| <= |ts| && rest == ts[|ts| - |rest|..]
  }

  /** One tree read from the front of the stream, and the tokens after it. */
  function ParseTree(ts: seq<Token>, pf: string -> Option<Float32>): (r: Result<(Tree, seq<Token>), ParseError>)
    ensures r.Ok? ==> |r.value.1| < |ts|
    decreases |ts|, 0
  {
    if ts == [] then Err(NoMoreTokens)
    else
      var tok := ts[0];
      match tok.typ
      case OpenParen => ParseTree(ts[1..], pf)
      case CloseParen => ParseTree(ts[1..], pf)
      case Op =>
        (match KindOfKeyword(tok.value)
         case None => Err(UnknownWord(tok.value))
         case Some(k) =>
           match ParseKids(ts[1..], Arity(k), pf)
           case Err(e) => Err(e)
           case Ok((kids, rest)) => Ok((Node(k, kids), rest)))
      case Const =>
        match pf(tok.value)
        case None => Err(BadNumber(tok.value))
        case Some(v) => Ok((Node(Constant(v), []), ts[1..]))
  }

  /** The `n` children of a node, read one tree after another. */
  function ParseKids(ts: seq<Token>, n: nat, pf: string -> Option<Float32>): (r: Result<(seq<Tree>, seq<Token>), ParseError>)
    ensures r.Ok? ==> |r.value.1| <= |ts|
    decreases |ts|, 1, n
  {
    if n == 0 then Ok(([], ts))
    else
      match ParseTree(ts, pf)
      case Err(e) => Err(e)
      case Ok((t, rest)) =>
        match ParseKids(rest, n - 1, pf)
        case Err(e) => Err(e)
        case Ok((more, rest')) => Ok(([t] + more, rest'))
  }

  /**
   * A parsed tree is finished and shaped: every slot filled, every node with
   * its kind's arity of children. And parse only ever reads from the front
   * of the stream.
   */
  lemma {:induction false} ParseFacts(ts: seq<Token>, pf: string -> Option<Float32>)
    ensures var r := ParseTree(ts, pf);
      r.Ok? ==> Complete(r.value.0) && Shaped(r.value.0) && SuffixOf(r.value.1, ts)
    decreases |ts|, 0
  {
    if ts != [] {
      var tok := ts[0];
      if tok.typ == OpenParen || tok.typ == CloseParen {
        ParseFacts(ts[1..], pf);
      } else if tok.typ == Op && KindOfKeyword(tok.value).Some? {
        var k := KindOfKeyword(tok.value).value;
        ParseKidsFacts(ts[1..], Arity(k), pf);
      } else if tok.typ == Const && pf(tok.value).Some? {
        assert Holes(Node(Constant(pf(tok.value).value), [])) == HolesIn([]) == 0;
      }
    }
  }

  lemma {:induction false} ParseKidsFacts(ts: seq<Token>, n: nat, pf: string -> Option<Float32>)
    ensures var r := ParseKids(ts, n, pf);
      r.Ok? ==> (|r.value.0| == n && HolesIn(r.value.0) == 0 && SuffixOf(r.value.1, ts) &&
                 forall i | 0 <= i < n :: Shaped(r.value.0[i]))
    decreases |ts|, 1, n
  {
    if n > 0 {
      ParseFacts(ts, pf);
      match ParseTree(ts, pf)
      case Err(_) =>
      case Ok((t, rest)) =>
        ParseKidsFacts(rest, n - 1, pf);
        match ParseKids(rest, n - 1, pf)
        case Err(_) =>
        case Ok((more, rest')) =>
          var kids := [t] + more;
          assert kids[0] == t && kids[1..] == more;
          forall i | 0 <= i < n ensures Shaped(kids[i]) {
            if i > 0 {
              assert kids[i] == more[i - 1];
            }
          }
    }
  }

  /** The stream without its parenthesis tokens. */
  function Strip(ts: seq<Token>): (r: seq<Token>)
    ensures |r| <= |ts|
  {
    if ts == [] then []
    else (if ts[0].typ == OpenParen || ts[0].typ == CloseParen then [] else [ts[0]]) + Strip(ts[1..])
  }

  /** A parse result with its leftover stream stripped. */
  function StripRest<T>(r: Result<(T, seq<Token>), ParseError>): Result<(T, seq<Token>), ParseError>
  {
    match r
    case Err(e) => Err(e)
    case Ok((x, rest)) => Ok((x, Strip(rest)))
  }

  lemma {:induction false} StripAppend(a: seq<Token>, b: seq<Token>)
    ensures Strip(a + b) == Strip(a) + Strip(b)
  {
    if a == [] {
      assert a + b == b;
    } else {
      assert (a + b)[0] == a[0];
      assert (a + b)[1..] == a[1..] + b;
      StripAppend(a[1..], b);
    }
  }

  /** Strip removes exactly the parentheses and keeps every other token in order. */
  lemma {:induction false} StripKeeps(ts: seq<Token>)
    ensures forall i | 0 <= i < |Strip(ts)| :: Strip(ts)[i].typ in {Op, Const}
    ensures Strip(ts) == [] <==> forall i | 0 <= i < |ts| :: ts[i].typ in {OpenParen, CloseParen}
  {
    if ts != [] {
      StripKeeps(ts[1..]);
      var head := if ts[0].typ == OpenParen || ts[0].typ == CloseParen then [] else [ts[0]];
      assert Strip(ts) == head + Strip(ts[1..]);
      forall i | 0 <= i < |Strip(ts)| ensures Strip(ts)[i].typ in {Op, Const} {
        if i >= |head| {
          assert Strip(ts)[i] == Strip(ts[1..])[i - |head|];
        }
      }
      if Strip(ts) == [] {
        forall i | 0 <= i < |ts| ensures ts[i].typ in {OpenParen, CloseParen} {
          if i > 0 {
            assert ts[i] == ts[1..][i - 1];
          }
        }
      }
    }
  }

  /**
   * Parentheses mean nothing to parse: dropping every one of them from the
   * stream gives the same tree, and the same leftover with its parentheses
   * dropped; errors are the same errors.
   */
  lemma {:induction false} ParseIgnoresParens(ts: seq<Token>, pf: string -> Option<Float32>)
    ensures ParseTree(Strip(ts), pf) == StripRest(ParseTree(ts, pf))
    decreases |ts|, 0
  {
    if ts != [] {
      var tok := ts[0];
      if tok.typ == OpenParen || tok.typ == CloseParen {
        assert Strip(ts) == Strip(ts[1..]);
        ParseIgnoresParens(ts[1..], pf);
      } else {
        var s := Strip(ts);
        assert s == [tok] + Strip(ts[1..]);
        assert s != [] && s[0] == tok && s[1..] == Strip(ts[1..]);
        if tok.typ == Op && KindOfKeyword(tok.value).Some? {
          ParseKidsIgnoresParens(ts[1..], Arity(KindOfKeyword(tok.value).value), pf);
        }
      }
    }
  }

  lemma {:induction false} ParseKidsIgnoresParens(ts: seq<Token>, n: nat, pf: string -> Option<Float32>)
    ensures ParseKids(Strip(ts), n, pf) == StripRest(ParseKids(ts, n, pf))
    decreases |ts|, 1, n
  {
    if n > 0 {
      ParseIgnoresParens(ts, pf);
      match ParseTree(ts, pf)
      case Err(e) =>
      case Ok((t, rest)) =>
        assert ParseTree(Strip(ts), pf) == Ok((t, Strip(rest)));
        ParseKidsIgnoresParens(rest, n - 1, pf);
        match ParseKids(rest, n - 1, pf)
        case Err(e) =>
        case Ok((more, rest')) =>
          assert ParseKids(Strip(rest), n - 1, pf) == Ok((more, Strip(rest')));
    }
  }
}

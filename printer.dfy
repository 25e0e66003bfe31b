/**
 * The String methods of ast/ast.go: the text a finished tree is saved as.
 * An operator prints as "( Keyword child child ... )", Wrap as
 * "(Wrap child)", Picture with its three channels on lines of their own, X
 * and Y as their names and a constant in fixed-point notation. The
 * formatting of a float32 (strconv.FormatFloat with 'f', 9 and 32) is the
 * parameter `fmt`; `FixedPoint` names the shape it produces for a finite
 * value, which is all the lexer needs of it.
 */
module Printing {
  import opened Kinds
  import opened Trees
  import opened Lexing

  /** String of a complete, shaped tree. */
  function Show(t: Tree, fmt: Float32 -> string): string
    requires Complete(t) && Shaped(t)
  {
    match t
    case Node(k, kids) =>
      if k.Constant? then fmt(k.value)
      else if k == X || k == Y then Keyword(k)
      else if k == Wrap then "(Wrap " + ShowSep(kids, ' ', fmt) + ")"
      else if k == Picture then "( Picture\n" + ShowSep(kids, '\n', fmt) + " )"
      else "( " + Keyword(k) + " " + ShowSep(kids, ' ', fmt) + " )"
  }

  /** The children's strings joined by `sep`, as the String methods concatenate them. */
  function ShowSep(ks: seq<Tree>, sep: char, fmt: Float32 -> string): string
    requires HolesIn(ks) == 0 && forall i | 0 <= i < |ks| :: Shaped(ks[i])
  {
    if ks == [] then ""
    else
      HolesInBound(ks);
      if |ks| == 1 then Show(ks[0], fmt)
      else Show(ks[0], fmt) + [sep] + ShowSep(ks[1..], sep, fmt)
  }

  predicate IsDigit(c: char)
  {
    '0' <= c <= '9'
  }

  /**
   * An optional minus sign, then digits around one decimal point with at
   * least one digit on each side: what FormatFloat(x, 'f', 9, 32) prints for
   * a finite x.
   */
  predicate FixedPoint(s: string)
  {
    var o := if s != [] && s[0] == '-' then 1 else 0;
    exists p :: o < p < |s| - 1 && s[p] == '.' &&
      (forall k | o <= k < |s| && k != p :: IsDigit(s[k]))
  }

  /** A fixed-point numeral is read by lexNumber as one constant token, sign and fraction included. */
  lemma FixedPointLexes(s: string)
    requires FixedPoint(s)
    ensures Tokens(s) == [Token(Const, s)]
  {
    var o := if s[0] == '-' then 1 else 0;
    var p :| o < p < |s| - 1 && s[p] == '.' && (forall k | o <= k < |s| && k != p :: IsDigit(s[k]));
    assert IsStartNumber(s[0]);
    assert !IsDelimiter(s[0]);
    RunEndExact(s, p + 1, Digits, |s|);
    if o == 0 && p == 1 {
      assert SignEnd(s, 0) == 2;
    } else {
      assert IsDigit(s[1]);
      assert SignEnd(s, 0) == 1;
      RunEndExact(s, 1, Digits, p);
    }
    assert NumberEnd(s, 0) == |s|;
    assert s[0..|s|] == s;
    assert s != "-";
    assert Emitted(s, 0) == [Token(Const, s)];
    assert StepEnd(s, 0) == |s|;
    assert TokensFrom(s, |s|) == [];
  }

  /** A word lexOp reads whole: it starts an operator and every later character is in lexOp's set. */
  predicate OpWord(w: string)
  {
    w != [] && IsStartOp(w[0]) && forall i | 1 <= i < |w| :: InSet(w[i], OpChars)
  }

  /** An operator word is lexed by lexOp as one operator token. */
  lemma OpWordLexes(w: string)
    requires OpWord(w)
    ensures Tokens(w) == [Token(Op, w)]
  {
    RunEndExact(w, 1, OpChars, |w|);
    assert w[0..|w|] == w;
    assert Emitted(w, 0) == [Token(Op, w)];
    assert TokensFrom(w, |w|) == [];
  }

  /** Every keyword but "-" is an operator word. */
  lemma KeywordIsOpWord(k: Kind)
    requires !k.Constant? && k != Minus
    ensures OpWord(Keyword(k))
  {
    var w := Keyword(k);
    if k == Plus || k == Mult || k == Div {
      assert |w| == 1 && (w[0] == '+' || w[0] == '*' || w[0] == '/');
    } else {
      KeywordLetters(k);
      LettersOpWord(w);
    }
  }

  lemma KeywordLetters(k: Kind)
    requires !k.Constant? && k != Plus && k != Minus && k != Mult && k != Div
    ensures Letters(Keyword(k))
  {
    if k in {Picture, Negate, Ceil, Sin, Cos, Floor, Log, Wrap, Abs, Atan} {
      assert Letters(Keyword(k));
    } else {
      assert Letters(Keyword(k));
    }
  }

  /** A non-empty run of ASCII letters. */
  predicate Letters(w: string)
  {
    w != [] && forall i | 0 <= i < |w| :: 'a' <= w[i] <= 'z' || 'A' <= w[i] <= 'Z'
  }

  lemma LettersOpWord(w: string)
    requires Letters(w)
    ensures OpWord(w)
  {
    assert 'a' <= w[0] <= 'z' || 'A' <= w[0] <= 'Z';
  }

  /** Each keyword lexes as a single operator token; "-" gets there through lexNumber. */
  lemma KeywordLexes(k: Kind)
    requires !k.Constant?
    ensures Tokens(Keyword(k)) == [Token(Op, Keyword(k))]
  {
    var w := Keyword(k);
    if k == Minus {
      assert SignEnd(w, 0) == 1;
      assert RunEnd(w, 1, Digits) == 1;
      assert NumberEnd(w, 0) == 1;
      assert w[0..1] == w;
      assert Emitted(w, 0) == [Token(Op, w)];
      assert TokensFrom(w, 1) == [];
    } else {
      KeywordIsOpWord(k);
      OpWordLexes(w);
    }
  }

  // ---------------------------------------------------------------------
  // The token stream of the printed text.

  /** The tokens the text of `t` lexes to: parentheses around every operator, one token per word or numeral. */
  function ShowTokens(t: Tree, fmt: Float32 -> string): seq<Token>
    requires Complete(t) && Shaped(t)
  {
    match t
    case Node(k, kids) =>
      if k.Constant? then [Token(Const, fmt(k.value))]
      else if k == X || k == Y then [Token(Op, Keyword(k))]
      else [Token(OpenParen, "("), Token(Op, Keyword(k))] + ShowTokensIn(kids, fmt) + [Token(CloseParen, ")")]
  }

  function ShowTokensIn(ks: seq<Tree>, fmt: Float32 -> string): seq<Token>
    requires HolesIn(ks) == 0 && forall i | 0 <= i < |ks| :: Shaped(ks[i])
  {
    if ks == [] then []
    else
      HolesInBound(ks);
      ShowTokens(ks[0], fmt) + ShowTokensIn(ks[1..], fmt)
  }

  /** A leading delimiter contributes its own token, if any, and then lexing goes on after it. */
  lemma TokensLead(c: char, z: string)
    requires IsDelimiter(c)
    ensures Tokens([c] + z) == DelimToken(c) + Tokens(z)
  {
    TokensShift([c], z, 0);
    assert StepEnd([c] + z, 0) == 1;
  }

  /** The closing " )" of an operator and the ")" of Wrap both lex to one close token. */
  lemma CloserLexes()
    ensures Tokens(" )") == [Token(CloseParen, ")")]
    ensures Tokens(")") == [Token(CloseParen, ")")]
  {
    TokensLead(')', []);
    assert [')'] + [] == ")";
    TokensLead(' ', ")");
    assert [' '] + ")" == " )";
  }

  /** What follows an operator's "(": the keyword, a blank, the children's text and the closer. */
  lemma FrameBodyLexes(kw: string, sep: char, body: string, close: string)
    requires Tokens(kw) == [Token(Op, kw)] && IsWhiteSpace(sep)
    requires Tokens(close) == [Token(CloseParen, ")")] && StartsDelimited(close)
    ensures Tokens(kw + ([sep] + (body + close))) == [Token(Op, kw)] + Tokens(body) + [Token(CloseParen, ")")]
  {
    var tail := body + close;
    TokensAppend(body, close);
    TokensLead(sep, tail);
    TokensAppend(kw, [sep] + tail);
  }

  /** The frame Show puts around the children's text of an operator other than X and Y. */
  function Frame(k: Kind, body: string): string
    requires !k.Constant? && k != X && k != Y
  {
    if k == Wrap then "(Wrap " + body + ")"
    else if k == Picture then "( Picture\n" + body + " )"
    else "( " + Keyword(k) + " " + body + " )"
  }

  /** The blank between "(" and the keyword: none for Wrap. */
  function Lead(k: Kind): string
  {
    if k == Wrap then "" else " "
  }

  /** The blank between the keyword and the children: a newline for Picture. */
  function Sep(k: Kind): char
  {
    if k == Picture then '\n' else ' '
  }

  /** The text after the children: ")" for Wrap, " )" otherwise. */
  function Closer(k: Kind): string
  {
    if k == Wrap then ")" else " )"
  }

  /** Each frame is "(", the lead, the keyword, the separator, the children and the closer. */
  lemma FrameShape(k: Kind, body: string)
    requires !k.Constant? && k != X && k != Y
    ensures Frame(k, body) == ['('] + (Lead(k) + (Keyword(k) + ([Sep(k)] + (body + Closer(k)))))
  {
    if k == Wrap {
      Regroup("(", "", "Wrap", ' ', body, ")");
    } else if k == Picture {
      assert Keyword(k) == "Picture" && Sep(k) == '\n' && Lead(k) == " " && Closer(k) == " )";
      assert "( Picture\n" + body + " )" == "( " + "Picture" + ['\n'] + body + " )";
      Regroup("( ", " ", "Picture", '\n', body, " )");
    } else {
      Regroup("( ", " ", Keyword(k), ' ', body, " )");
    }
  }

  /** The opening of a frame, regrouped as a leading "(" and the rest. */
  lemma Regroup(open: string, lead: string, kw: string, sep: char, body: string, close: string)
    requires open == ['('] + lead
    ensures open + kw + [sep] + body + close == ['('] + (lead + (kw + ([sep] + (body + close))))
  {
  }

  /** The pieces of a frame other than the keyword and the children lex as delimiters. */
  lemma FramePartsLex(k: Kind, z: string)
    ensures IsWhiteSpace(Sep(k))
    ensures Tokens(Closer(k)) == [Token(CloseParen, ")")] && StartsDelimited(Closer(k))
    ensures Tokens(Lead(k) + z) == Tokens(z)
  {
    CloserLexes();
    if k == Wrap {
      assert Lead(k) + z == z;
    } else {
      TokensLead(' ', z);
    }
  }

  /** Every frame lexes to an open token and the keyword, the children's tokens, and a close token. */
  lemma FrameLexes(k: Kind, body: string)
    requires !k.Constant? && k != X && k != Y
    ensures Tokens(Frame(k, body)) == [Token(OpenParen, "("), Token(Op, Keyword(k))] + Tokens(body) + [Token(CloseParen, ")")]
  {
    var kw, lead, sep, close := Keyword(k), Lead(k), Sep(k), Closer(k);
    var inner := kw + ([sep] + (body + close));
    FrameShape(k, body);
    KeywordLexes(k);
    FramePartsLex(k, inner);
    FrameBodyLexes(kw, sep, body, close);
    TokensLead('(', lead + inner);
  }

  /** Lexing a fixed-point-formatted tree's text gives ShowTokens: the printer's output is lexed word by word. */
  lemma {:induction false} ShowLexes(t: Tree, fmt: Float32 -> string)
    requires Complete(t) && Shaped(t) && forall v | v in ConstsOf(t) :: FixedPoint(fmt(v))
    ensures Tokens(Show(t, fmt)) == ShowTokens(t, fmt)
    decreases t, 1
  {
    match t
    case Node(k, kids) =>
      if k.Constant? {
        FixedPointLexes(fmt(k.value));
      } else if k == X || k == Y {
        KeywordLexes(k);
      } else {
        var sep := if k == Picture then '\n' else ' ';
        var body := ShowSep(kids, sep, fmt);
        assert Show(t, fmt) == Frame(k, body);
        ShowSepLexes(kids, sep, fmt);
        FrameLexes(k, body);
      }
  }

  /** Two texts joined by a blank or a newline lex to the tokens of one and then of the other. */
  lemma SepJoinLexes(head: string, sep: char, rest: string)
    requires IsWhiteSpace(sep)
    ensures Tokens(head + [sep] + rest) == Tokens(head) + Tokens(rest)
  {
    assert head + [sep] + rest == head + ([sep] + rest);
    TokensLead(sep, rest);
    TokensAppend(head, [sep] + rest);
    assert DelimToken(sep) == [];
  }

  /** Children joined by a blank or a newline lex to the children's tokens one after another. */
  lemma {:induction false} ShowSepLexes(ks: seq<Tree>, sep: char, fmt: Float32 -> string)
    requires HolesIn(ks) == 0 && (forall i | 0 <= i < |ks| :: Shaped(ks[i])) && forall v | v in ConstsIn(ks) :: FixedPoint(fmt(v))
    requires IsWhiteSpace(sep)
    ensures Tokens(ShowSep(ks, sep, fmt)) == ShowTokensIn(ks, fmt)
    decreases ks, 0
  {
    if ks != [] {
      HolesInBound(ks);
      ShowLexes(ks[0], fmt);
      if |ks| == 1 {
        assert ks[1..] == [];
      } else {
        ShowSepLexes(ks[1..], sep, fmt);
        SepJoinLexes(Show(ks[0], fmt), sep, ShowSep(ks[1..], sep, fmt));
      }
    }
  }
}

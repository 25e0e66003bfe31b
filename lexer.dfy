/**
 * The lexer of ast/parser.go. `TokensFrom` is the token sequence the state
 * machine determineToken / lexOp / lexNumber produces for the input from a
 * position on, written as a plain recursion over the text; class `Lexer` is
 * the Go struct with its cursor fields, and its `Run` is proved to emit
 * exactly `TokensFrom`. The Go lexer sends tokens on a channel from a
 * goroutine; here `tokens` is the sequence sent so far. Positions index
 * characters: every rune is one character wide.
 */
module Lexing {

  datatype TokenType = OpenParen | CloseParen | Op | Const

  datatype Token = Token(typ: TokenType, value: string)

  /** What `next` returns: a character, or the eof rune -1. */
  datatype Rune = Eof | Char(c: char)

  /** The state functions of the machine; `Done` is the nil that ends `run`. */
  datatype State = Determine | Number | Operator | Done

  /** The four literal sets lexOp and lexNumber pass to accept and acceptRun. */
  datatype CharSet = Signs | Digits | Dot | OpChars

  /**
   * `strings.IndexRune(set, c) >= 0` for each literal set. The long literal
   * of lexOp lists the four signs + = / and * and then, in keyboard order,
   * every ASCII letter and digit.
   */
  predicate InSet(c: char, cs: CharSet)
  {
    match cs
    case Signs => c == '-' || c == '.'
    case Digits => '0' <= c <= '9'
    case Dot => c == '.'
    case OpChars => c == '+' || c == '=' || c == '/' || c == '*' || ('a' <= c <= 'z') || ('A' <= c <= 'Z') || ('0' <= c <= '9')
  }

  predicate IsWhiteSpace(c: char)
  {
    c == ' ' || c == '\n' || c == '\t' || c == '\r'
  }

  predicate IsStartNumber(c: char)
  {
    ('0' <= c <= '9') || c == '-' || c == '.'
  }

  /** A character that ends every lexeme: whitespace and the parens. */
  predicate IsDelimiter(c: char)
  {
    IsWhiteSpace(c) || c == '(' || c == ')'
  }

  /** A character that starts an operator lexeme: anything determineToken hands to lexOp. */
  predicate IsStartOp(c: char)
  {
    !IsDelimiter(c) && !IsStartNumber(c)
  }

  /** The same test on what `next` returned; eof belongs to no set. */
  predicate RuneIn(r: Rune, cs: CharSet)
  {
    r.Char? && InSet(r.c, cs)
  }

  // ---------------------------------------------------------------------
  // Where each lexeme ends.

  /** Where acceptRun from `i` stops: the first position at or after `i` not holding a `cs` character. */
  function RunEnd(s: string, i: nat, cs: CharSet): (j: nat)
    requires i <= |s|
    ensures i <= j <= |s|
    decreases |s| - i
  {
    if i < |s| && InSet(s[i], cs) then RunEnd(s, i + 1, cs) else i
  }

  /** The run RunEnd measures is made of `cs` characters and cannot be extended. */
  lemma {:induction false} RunEndFacts(s: string, i: nat, cs: CharSet)
    requires i <= |s|
    ensures forall k | i <= k < RunEnd(s, i, cs) :: InSet(s[k], cs)
    ensures RunEnd(s, i, cs) < |s| ==> !InSet(s[RunEnd(s, i, cs)], cs)
    decreases |s| - i
  {
    if i < |s| && InSet(s[i], cs) {
      RunEndFacts(s, i + 1, cs);
    }
  }

  /** Conversely, a run of `cs` characters ended by the end of `s` or by another character is the one RunEnd finds. */
  lemma {:induction false} RunEndExact(s: string, i: nat, cs: CharSet, j: nat)
    requires i <= j <= |s| && (forall k | i <= k < j :: InSet(s[k], cs)) && (j < |s| ==> !InSet(s[j], cs))
    ensures RunEnd(s, i, cs) == j
    decreases j - i
  {
    if i < j {
      RunEndExact(s, i + 1, cs, j);
    }
  }

  /** lexOp's lexeme from `p`: the character determineToken read, then the longest run of OpChars. */
  function OpEnd(s: string, p: nat): (q: nat)
    requires p < |s|
    ensures p < q <= |s|
  {
    RunEnd(s, p + 1, OpChars)
  }

  /** Where lexNumber's `accept("-.")` leaves the cursor. */
  function SignEnd(s: string, p: nat): (a: nat)
    requires p < |s|
    ensures p < a <= |s|
  {
    if p + 1 < |s| && InSet(s[p + 1], Signs) then p + 2 else p + 1
  }

  /**
   * lexNumber's lexeme from `p`: the character determineToken read, at most
   * one more `-` or `.`, a run of digits, and, after a `.`, a second run of
   * digits.
   */
  function NumberEnd(s: string, p: nat): (q: nat)
    requires p < |s|
    ensures p < q <= |s|
  {
    var b := RunEnd(s, SignEnd(s, p), Digits);
    if b < |s| && s[b] == '.' then RunEnd(s, b + 1, Digits) else b
  }

  /** A lone `-` is emitted as an operator token; every other number lexeme as a constant. */
  function NumberToken(lexeme: string): Token
  {
    if lexeme == "-" then Token(Op, lexeme) else Token(Const, lexeme)
  }

  /** What determineToken emits for one delimiter: a token for a paren, nothing for whitespace. */
  function DelimToken(c: char): seq<Token>
  {
    if c == '(' then [Token(OpenParen, "(")] else if c == ')' then [Token(CloseParen, ")")] else []
  }

  // ---------------------------------------------------------------------
  // The reference lexer.

  /** Where the first step of the machine from `p` ends. */
  function StepEnd(s: string, p: nat): (q: nat)
    requires p < |s|
    ensures p < q <= |s|
  {
    if IsDelimiter(s[p]) then p + 1
    else if IsStartNumber(s[p]) then NumberEnd(s, p)
    else OpEnd(s, p)
  }

  /** What that step emits: the tokens of a delimiter, or one token holding the lexeme. */
  function Emitted(s: string, p: nat): seq<Token>
    requires p < |s|
  {
    if IsDelimiter(s[p]) then DelimToken(s[p])
    else if IsStartNumber(s[p]) then [NumberToken(s[p..NumberEnd(s, p)])]
    else [Token(Op, s[p..OpEnd(s, p)])]
  }

  /** The tokens the lexer emits for `s` from position `p` on, in order. */
  function TokensFrom(s: string, p: nat): seq<Token>
    requires p <= |s|
    decreases |s| - p
  {
    if p == |s| then [] else Emitted(s, p) + TokensFrom(s, StepEnd(s, p))
  }

  /** The tokens of a whole text. */
  function Tokens(s: string): seq<Token>
  {
    TokensFrom(s, 0)
  }

  // ---------------------------------------------------------------------
  // What the token sequence says about the input.

  /** `s` with its whitespace removed. */
  function Squeeze(s: string): string
  {
    if s == [] then [] else (if IsWhiteSpace(s[0]) then [] else [s[0]]) + Squeeze(s[1..])
  }

  /** The token values, concatenated. */
  function Values(ts: seq<Token>): string
  {
    if ts == [] then [] else ts[0].value + Values(ts[1..])
  }

  /** The shape of one token as the lexer can emit it. */
  predicate WellLexed(t: Token)
  {
    t.value != [] &&
    match t.typ
    case OpenParen => t.value == "("
    case CloseParen => t.value == ")"
    case Const => IsStartNumber(t.value[0]) && t.value != "-"
    case Op => t.value == "-" || IsStartOp(t.value[0])
  }

  lemma {:induction false} SqueezeAppend(a: string, b: string)
    ensures Squeeze(a + b) == Squeeze(a) + Squeeze(b)
  {
    if a != [] {
      assert (a + b)[1..] == a[1..] + b;
      SqueezeAppend(a[1..], b);
    } else {
      assert a + b == b;
    }
  }

  lemma {:induction false} SqueezeSolid(s: string)
    requires forall j | 0 <= j < |s| :: !IsWhiteSpace(s[j])
    ensures Squeeze(s) == s
  {
    if s != [] {
      SqueezeSolid(s[1..]);
    }
  }

  lemma {:induction false} ValuesAppend(a: seq<Token>, b: seq<Token>)
    ensures Values(a + b) == Values(a) + Values(b)
  {
    if a != [] {
      assert (a + b)[1..] == a[1..] + b;
      ValuesAppend(a[1..], b);
    } else {
      assert a + b == b;
    }
  }

  /** Digits, signs and OpChars hold no whitespace, so no lexeme does. */
  lemma LexemeSolid(s: string, p: nat)
    requires p < |s| && !IsWhiteSpace(s[p])
    ensures forall k | p <= k < StepEnd(s, p) :: !IsWhiteSpace(s[k])
  {
    if IsDelimiter(s[p]) {
    } else if IsStartNumber(s[p]) {
      var b := RunEnd(s, SignEnd(s, p), Digits);
      RunEndFacts(s, SignEnd(s, p), Digits);
      if b < |s| && s[b] == '.' {
        RunEndFacts(s, b + 1, Digits);
      }
    } else {
      RunEndFacts(s, p + 1, OpChars);
    }
  }

  /** One step emits exactly the non-whitespace characters it consumes. */
  lemma EmittedCover(s: string, p: nat)
    requires p < |s|
    ensures Values(Emitted(s, p)) == Squeeze(s[p..StepEnd(s, p)])
  {
    var q := StepEnd(s, p);
    if IsWhiteSpace(s[p]) {
      assert s[p..q] == [s[p]];
    } else {
      LexemeSolid(s, p);
      SqueezeSolid(s[p..q]);
      if IsDelimiter(s[p]) {
        assert s[p..q] == [s[p]];
      }
    }
  }

  /** Every non-whitespace character lands in exactly one token, in order. */
  lemma {:induction false} TokensCover(s: string, p: nat)
    requires p <= |s|
    ensures Values(TokensFrom(s, p)) == Squeeze(s[p..])
    decreases |s| - p
  {
    if p < |s| {
      var q := StepEnd(s, p);
      EmittedCover(s, p);
      TokensCover(s, q);
      SqueezeJoin(s[p..q], s[q..], Emitted(s, p), TokensFrom(s, q));
      assert s[p..] == s[p..q] + s[q..];
    }
  }

  /** Token lists that carry the squeezed characters of two texts, joined, carry those of the joined text. */
  lemma SqueezeJoin(x: string, y: string, e: seq<Token>, r: seq<Token>)
    requires Values(e) == Squeeze(x) && Values(r) == Squeeze(y)
    ensures Values(e + r) == Squeeze(x + y)
  {
    ValuesAppend(e, r);
    SqueezeAppend(x, y);
  }

  lemma EmittedWellLexed(s: string, p: nat)
    requires p < |s|
    ensures forall j | 0 <= j < |Emitted(s, p)| :: WellLexed(Emitted(s, p)[j])
  {
    assert s[p..StepEnd(s, p)][0] == s[p];
  }

  /** Every token has the shape the lexer promises: parens alone, numbers and operators by their first character. */
  lemma {:induction false} TokensWellLexed(s: string, p: nat)
    requires p <= |s|
    ensures forall j | 0 <= j < |TokensFrom(s, p)| :: WellLexed(TokensFrom(s, p)[j])
    decreases |s| - p
  {
    if p < |s| {
      var e, r := Emitted(s, p), TokensFrom(s, StepEnd(s, p));
      EmittedWellLexed(s, p);
      TokensWellLexed(s, StepEnd(s, p));
      forall j | 0 <= j < |e + r| ensures WellLexed((e + r)[j]) {
        if j >= |e| {
          assert (e + r)[j] == r[j - |e|];
        }
      }
    }
  }

  // ---------------------------------------------------------------------
  // Lexing a text in pieces.

  predicate StartsDelimited(s: string)
  {
    s == [] || IsDelimiter(s[0])
  }

  lemma RunEndAppend(s: string, t: string, i: nat, cs: CharSet)
    requires i <= |s| && StartsDelimited(t)
    ensures RunEnd(s + t, i, cs) == RunEnd(s, i, cs)
  {
    var j := RunEnd(s, i, cs);
    RunEndFacts(s, i, cs);
    assert forall k | i <= k < j :: (s + t)[k] == s[k];
    RunEndExact(s + t, i, cs, j);
  }

  lemma NumberEndAppend(s: string, t: string, p: nat)
    requires p < |s| && StartsDelimited(t)
    ensures NumberEnd(s + t, p) == NumberEnd(s, p)
  {
    var u := s + t;
    var a := SignEnd(s, p);
    assert SignEnd(u, p) == a by {
      if p + 1 < |s| {
        assert u[p + 1] == s[p + 1];
      }
    }
    RunEndAppend(s, t, a, Digits);
    var b := RunEnd(s, a, Digits);
    if b < |s| {
      assert u[b] == s[b];
      RunEndAppend(s, t, b + 1, Digits);
    }
  }

  /** The first step never reaches past a delimiter that follows the text. */
  lemma StepAppend(s: string, t: string, p: nat)
    requires p < |s| && StartsDelimited(t)
    ensures StepEnd(s + t, p) == StepEnd(s, p) && Emitted(s + t, p) == Emitted(s, p)
  {
    var u := s + t;
    assert u[p] == s[p];
    if IsDelimiter(s[p]) {
    } else if IsStartNumber(s[p]) {
      NumberEndAppend(s, t, p);
    } else {
      RunEndAppend(s, t, p + 1, OpChars);
    }
    assert u[p..StepEnd(s, p)] == s[p..StepEnd(s, p)];
  }

  lemma RunEndShift(a: string, t: string, i: nat, cs: CharSet)
    requires i <= |t|
    ensures RunEnd(a + t, |a| + i, cs) == |a| + RunEnd(t, i, cs)
  {
    var j := RunEnd(t, i, cs);
    RunEndFacts(t, i, cs);
    assert forall k | |a| + i <= k < |a| + j :: (a + t)[k] == t[k - |a|];
    RunEndExact(a + t, |a| + i, cs, |a| + j);
  }

  lemma NumberEndShift(a: string, t: string, p: nat)
    requires p < |t|
    ensures NumberEnd(a + t, |a| + p) == |a| + NumberEnd(t, p)
  {
    var u, n := a + t, |a|;
    assert SignEnd(u, n + p) == n + SignEnd(t, p) by {
      if p + 1 < |t| {
        assert u[n + p + 1] == t[p + 1];
      }
    }
    RunEndShift(a, t, SignEnd(t, p), Digits);
    var b := RunEnd(t, SignEnd(t, p), Digits);
    if b < |t| {
      assert u[n + b] == t[b];
      RunEndShift(a, t, b + 1, Digits);
    }
  }

  /** The machine sees the same step in `t` whatever text precedes it. */
  lemma StepShift(a: string, t: string, p: nat)
    requires p < |t|
    ensures StepEnd(a + t, |a| + p) == |a| + StepEnd(t, p) && Emitted(a + t, |a| + p) == Emitted(t, p)
  {
    var u, n := a + t, |a|;
    assert u[n + p] == t[p];
    if IsDelimiter(t[p]) {
    } else if IsStartNumber(t[p]) {
      NumberEndShift(a, t, p);
    } else {
      RunEndShift(a, t, p + 1, OpChars);
    }
    assert u[n + p..n + StepEnd(t, p)] == t[p..StepEnd(t, p)];
  }

  /** `t` is what follows position `n` of `u`. */
  predicate SuffixAt(u: string, t: string, n: nat)
  {
    n + |t| == |u| && u[n..] == t
  }

  /** StepShift, for a text `u` that has `t` at position `n`. */
  lemma StepSuffix(u: string, t: string, n: nat, p: nat)
    requires SuffixAt(u, t, n) && p < |t|
    ensures StepEnd(u, n + p) == n + StepEnd(t, p) && Emitted(u, n + p) == Emitted(t, p)
  {
    var a := u[..n];
    assert u == a + t;
    StepShift(a, t, p);
  }

  /** The lexer reads the same tokens from `t` as from where `t` sits in `u`. */
  lemma {:induction false} TokensSuffix(u: string, t: string, n: nat, p: nat)
    requires SuffixAt(u, t, n) && p <= |t|
    ensures TokensFrom(u, n + p) == TokensFrom(t, p)
    decreases |t| - p
  {
    if p < |t| {
      var q := StepEnd(t, p);
      StepSuffix(u, t, n, p);
      TokensSuffix(u, t, n, q);
      ShiftStep(u, t, n, p, q);
    }
  }

  /** What precedes a text does not change how the lexer proceeds from inside it. */
  lemma TokensShift(a: string, t: string, p: nat)
    requires p <= |t|
    ensures TokensFrom(a + t, |a| + p) == TokensFrom(t, p)
  {
    assert (a + t)[|a|..] == t;
    TokensSuffix(a + t, t, |a|, p);
  }

  /** The step of TokensSuffix: when one step from `n + p` in `u` matches one step from `p` in `t`, so do the tokens. */
  lemma ShiftStep(u: string, t: string, n: nat, p: nat, q: nat)
    requires n + |t| == |u| && p < |t| && q == StepEnd(t, p)
    requires StepEnd(u, n + p) == n + q && Emitted(u, n + p) == Emitted(t, p)
    requires TokensFrom(u, n + q) == TokensFrom(t, q)
    ensures TokensFrom(u, n + p) == TokensFrom(t, p)
  {
  }


  /** A text followed by a delimiter lexes on its own: no token spans the boundary. */
  lemma {:induction false} TokensAppendFrom(s: string, t: string, p: nat)
    requires p <= |s| && StartsDelimited(t)
    ensures TokensFrom(s + t, p) == TokensFrom(s, p) + Tokens(t)
    decreases |s| - p
  {
    if p == |s| {
      TokensShift(s, t, 0);
    } else {
      StepAppend(s, t, p);
      TokensAppendFrom(s, t, StepEnd(s, p));
    }
  }

  lemma TokensAppend(s: string, t: string)
    requires StartsDelimited(t)
    ensures Tokens(s + t) == Tokens(s) + Tokens(t)
  {
    TokensAppendFrom(s, t, 0);
  }

  // ---------------------------------------------------------------------
  // The machine's transitions, stated on the tokens sent so far.

  /** The tokens of the delimiters from `p0` up to `p`, read from left to right. */
  function ParenTokens(s: string, p0: nat, p: nat): seq<Token>
    requires p0 <= p <= |s|
    decreases p - p0
  {
    if p == p0 then [] else ParenTokens(s, p0, p - 1) + DelimToken(s[p - 1])
  }

  /** A run of delimiters lexes to its paren tokens, and the rest of the text on its own. */
  lemma {:induction false} DelimsThen(s: string, p0: nat, p: nat)
    requires p0 <= p <= |s| && forall j | p0 <= j < p :: IsDelimiter(s[j])
    ensures TokensFrom(s, p0) == ParenTokens(s, p0, p) + TokensFrom(s, p)
    decreases p - p0
  {
    if p0 < p {
      DelimsThen(s, p0, p - 1);
      var a, b, c := ParenTokens(s, p0, p - 1), DelimToken(s[p - 1]), TokensFrom(s, p);
      assert TokensFrom(s, p - 1) == b + c;
      assert a + (b + c) == (a + b) + c;
    }
  }

  lemma DetermineStep(s: string, p0: nat, p: nat, done: seq<Token>)
    requires p0 <= p <= |s| && forall j | p0 <= j < p :: IsDelimiter(s[j])
    ensures done + TokensFrom(s, p0) == (done + ParenTokens(s, p0, p)) + TokensFrom(s, p)
  {
    DelimsThen(s, p0, p);
  }

  lemma NumberStep(s: string, p: nat, done: seq<Token>)
    requires p < |s| && IsStartNumber(s[p])
    ensures var q := NumberEnd(s, p);
      done + TokensFrom(s, p) == (done + [NumberToken(s[p..q])]) + TokensFrom(s, q)
  {
    var q := NumberEnd(s, p);
    assert !IsDelimiter(s[p]) && StepEnd(s, p) == q;
    var tok, rest := NumberToken(s[p..q]), TokensFrom(s, q);
    assert Emitted(s, p) == [tok];
    assert TokensFrom(s, p) == [tok] + rest;
    assert done + ([tok] + rest) == (done + [tok]) + rest;
  }

  lemma OpStep(s: string, p: nat, done: seq<Token>)
    requires p < |s| && IsStartOp(s[p])
    ensures var q := OpEnd(s, p);
      done + TokensFrom(s, p) == (done + [Token(Op, s[p..q])]) + TokensFrom(s, q)
  {
    var q := OpEnd(s, p);
    assert !IsDelimiter(s[p]) && !IsStartNumber(s[p]) && StepEnd(s, p) == q;
    var tok, rest := Token(Op, s[p..q]), TokensFrom(s, q);
    assert Emitted(s, p) == [tok];
    assert TokensFrom(s, p) == [tok] + rest;
    assert done + ([tok] + rest) == (done + [tok]) + rest;
  }

  // ---------------------------------------------------------------------
  // The lexer struct.

  class Lexer {
    const input: string
    var start: nat
    var pos: nat
    var width: nat
    /** Every token sent on the channel so far. */
    var tokens: seq<Token>

    ghost predicate Valid()
      reads this
    {
      start <= pos <= |input| && width <= 1
    }

    /**
     * Where the machine stands in state `s`: `all` is what the whole run
     * will have emitted, i.e. the tokens so far followed by the tokens of the
     * unread input (from `start`, whose first character a pending lexOp or
     * lexNumber has already read).
     */
    ghost predicate Stage(s: State, all: seq<Token>)
      reads this
      requires Valid()
    {
      match s
      case Determine => start == pos && all == tokens + TokensFrom(input, pos)
      case Number => start + 1 == pos && IsStartNumber(input[start]) && all == tokens + TokensFrom(input, start)
      case Operator => start + 1 == pos && IsStartOp(input[start]) && all == tokens + TokensFrom(input, start)
      case Done => all == tokens
    }

    /** `&lexer{input: s, ...}` in BeginLexing. */
    constructor(s: string)
      ensures Valid() && input == s && start == 0 && pos == 0 && width == 0 && tokens == []
    {
      input := s;
      start, pos, width := 0, 0, 0;
      tokens := [];
    }

    /** The next character, or eof at the end of the input (width 0, so a backup stays put). */
    method Next() returns (r: Rune)
      requires Valid()
      modifies this
      ensures Valid() && start == old(start) && tokens == old(tokens)
      ensures old(pos) >= |input| ==> r == Eof && width == 0 && pos == old(pos)
      ensures old(pos) < |input| ==> r == Char(input[old(pos)]) && width == 1 && pos == old(pos) + 1
    {
      if pos >= |input| {
        width := 0;
        return Eof;
      }
      r := Char(input[pos]);
      width := 1;
      pos := pos + width;
    }

    /** Step back over the character the last `next` read. */
    method Backup()
      requires Valid() && start + width <= pos
      modifies this
      ensures Valid() && pos == old(pos) - old(width)
      ensures start == old(start) && width == old(width) && tokens == old(tokens)
    {
      pos := pos - width;
    }

    /** Drop the characters read since the last token. */
    method Ignore()
      requires Valid()
      modifies this
      ensures Valid() && start == pos == old(pos) && width == old(width) && tokens == old(tokens)
    {
      start := pos;
    }

    /** Send the characters read since the last token as a token of type `t`. */
    method Emit(t: TokenType)
      requires Valid()
      modifies this
      ensures Valid() && start == pos == old(pos) && width == old(width)
      ensures tokens == old(tokens) + [Token(t, input[old(start)..old(pos)])]
    {
      tokens := tokens + [Token(t, input[start..pos])];
      start := pos;
    }

    /** Consume the next character if it is in `valid`. */
    method Accept(valid: CharSet) returns (ok: bool)
      requires Valid()
      modifies this
      ensures Valid() && start == old(start) && tokens == old(tokens)
      ensures ok <==> old(pos) < |input| && InSet(input[old(pos)], valid)
      ensures pos == old(pos) + (if ok then 1 else 0)
    {
      var r := Next();
      if RuneIn(r, valid) {
        return true;
      }
      Backup();
      return false;
    }

    /** Consume the longest run of characters in `valid`. */
    method AcceptRun(valid: CharSet)
      requires Valid()
      modifies this
      ensures Valid() && start == old(start) && tokens == old(tokens)
      ensures pos == RunEnd(input, old(pos), valid)
    {
      var r := Next();
      while RuneIn(r, valid)
        invariant Valid() && start == old(start) && tokens == old(tokens)
        invariant old(pos) + width <= pos
        invariant r == Eof ==> width == 0 && pos == |input|
        invariant r.Char? ==> width == 1 && input[pos - 1] == r.c
        invariant forall k | old(pos) <= k < pos - width :: InSet(input[k], valid)
        decreases |input| - pos + (if r.Char? then 1 else 0)
      {
        r := Next();
      }
      Backup();
      RunEndExact(input, old(pos), valid, pos);
    }

    /** determineToken: skip whitespace, emit parens, and hand anything else to the next state. */
    method DetermineToken() returns (next: State)
      requires Valid() && start == pos
      modifies this
      ensures Valid() && old(pos) <= start && next != Determine
      ensures forall j | old(pos) <= j < start :: IsDelimiter(input[j])
      ensures tokens == old(tokens) + ParenTokens(input, old(pos), start)
      ensures next == Done <==> start == |input|
      ensures next == Done ==> pos == start
      ensures next == Number ==> start + 1 == pos && IsStartNumber(input[start])
      ensures next == Operator ==> start + 1 == pos && IsStartOp(input[start])
    {
      while true
        invariant Valid() && start == pos && old(pos) <= pos
        invariant forall j | old(pos) <= j < pos :: IsDelimiter(input[j])
        invariant tokens == old(tokens) + ParenTokens(input, old(pos), pos)
        decreases |input| - pos
      {
        var r := Next();
        if r.Char? && IsWhiteSpace(r.c) {
          Ignore();
        } else if r == Char('(') {
          assert input[start..pos] == "(";
          Emit(OpenParen);
        } else if r == Char(')') {
          assert input[start..pos] == ")";
          Emit(CloseParen);
        } else if r.Char? && IsStartNumber(r.c) {
          return Number;
        } else if r == Eof {
          return Done;
        } else {
          return Operator;
        }
      }
    }

    /** lexOp: the operator lexeme is the first character and the longest run of OpChars. */
    method LexOp() returns (next: State)
      requires Valid() && start + 1 == pos && start < |input| && IsStartOp(input[start])
      modifies this
      ensures Valid() && next == Determine && start == pos == OpEnd(input, old(start))
      ensures tokens == old(tokens) + [Token(Op, input[old(start)..pos])]
    {
      AcceptRun(OpChars);
      Emit(Op);
      next := Determine;
    }

    /** lexNumber: sign or point, digits, optional fraction; a lone `-` goes out as an operator. */
    method LexNumber() returns (next: State)
      requires Valid() && start + 1 == pos && start < |input| && IsStartNumber(input[start])
      modifies this
      ensures Valid() && next == Determine && start == pos == NumberEnd(input, old(start))
      ensures tokens == old(tokens) + [NumberToken(input[old(start)..pos])]
    {
      var _ := Accept(Signs);
      AcceptRun(Digits);
      var dot := Accept(Dot);
      if dot {
        AcceptRun(Digits);
      }
      var typ := if input[start..pos] == "-" then Op else Const;
      Emit(typ);
      next := Determine;
    }

    /** run: step the state functions until one returns nil. */
    method Run()
      requires Valid() && start == pos
      modifies this
      ensures Valid() && tokens == old(tokens) + TokensFrom(input, old(pos))
    {
      ghost var all := tokens + TokensFrom(input, pos);
      var state := Determine;
      while state != Done
        invariant Valid() && Stage(state, all)
        decreases |input| - start, if state == Determine then 1 else 0
      {
        match state
        case Determine =>
          ghost var t0, p0 := tokens, pos;
          state := DetermineToken();
          DetermineStep(input, p0, start, t0);
        case Number =>
          NumberStep(input, start, tokens);
          state := LexNumber();
        case Operator =>
          OpStep(input, start, tokens);
          state := LexOp();
      }
    }
  }
}

/**
 * The closed set of expression-node kinds of ast/ast.go, their fixed arities
 * (the slice lengths their constructors allocate), the two random choice
 * tables GetRandomBaseNode and GetRandomLeaf, and the keyword table shared by
 * the String methods and the parser's stringToNode.
 */
module Kinds {
  import opened Wrappers

  /** The IEEE-754 bit pattern of a float32 constant; the model only copies and compares it. */
  type Float32 = bv32

  datatype Kind =
    | Picture
    | Negate | Ceil | Sin | Cos | Floor | Log | Wrap | Abs | Atan | Gamma
    | Plus | Minus | Mult | Div | Clip | Square | Noise | Hypot
    | Lerp | FBM | Turbulence
    | X | Y | Constant(value: Float32)

  /** The number of child slots the kind's constructor allocates. */
  function Arity(k: Kind): nat
  {
    match k
    case Picture => 3
    case Negate => 1
    case Ceil => 1
    case Sin => 1
    case Cos => 1
    case Floor => 1
    case Log => 1
    case Wrap => 1
    case Abs => 1
    case Atan => 1
    case Gamma => 1
    case Plus => 2
    case Minus => 2
    case Mult => 2
    case Div => 2
    case Clip => 2
    case Square => 2
    case Noise => 2
    case Hypot => 2
    case Lerp => 3
    case FBM => 3
    case Turbulence => 3
    case X => 0
    case Y => 0
    case Constant(_) => 0
  }

  /** The kinds GetRandomBaseNode can produce: every kind of arity 1 to 3 except Picture. */
  predicate IsOperator(k: Kind)
  {
    k != Picture && 1 <= Arity(k)
  }

  /** The kinds GetRandomLeaf can produce. */
  predicate IsLeafKind(k: Kind)
  {
    k == X || k == Y || k.Constant?
  }

  /** The switch of GetRandomBaseNode, indexed by the value of rand.Intn(21). */
  function BaseKind(r: nat): (k: Kind)
    requires r < 21
    ensures IsOperator(k) && Arity(k) <= 3
  {
    match r
    case 0 => Clip
    case 1 => Negate
    case 2 => Mult
    case 3 => Plus
    case 4 => Ceil
    case 5 => Minus
    case 6 => Div
    case 7 => Square
    case 8 => Lerp
    case 9 => Sin
    case 10 => Cos
    case 11 => Floor
    case 12 => Log
    case 13 => Wrap
    case 14 => Abs
    case 15 => Atan
    case 16 => Noise
    case 17 => FBM
    case 18 => Turbulence
    case 19 => Gamma
    case 20 => Hypot
  }

  /**
   * The switch of GetRandomLeaf, indexed by the value of rand.Intn(3); `v` is
   * the value rand.Float32()*2 - 1 that NewOpConstant stores.
   */
  function LeafKind(r: nat, v: Float32): (k: Kind)
    requires r < 3
    ensures IsLeafKind(k) && Arity(k) == 0
    ensures k.Constant? ==> k.value == v
  {
    match r
    case 0 => Constant(v)
    case 1 => X
    case 2 => Y
  }

  /** The 21 draws of GetRandomBaseNode give 21 different kinds. */
  lemma BaseKindInjective(r1: nat, r2: nat)
    requires r1 < 21 && r2 < 21 && r1 != r2
    ensures BaseKind(r1) != BaseKind(r2)
  {
  }

  /** Every operator kind is reachable by GetRandomBaseNode, so the choice is uniform over all 21. */
  lemma BaseKindSurjective(k: Kind)
    requires IsOperator(k)
    ensures exists r :: r < 21 && BaseKind(r) == k
  {
    var r: int :=
      match k
      case Clip => 0
      case Negate => 1
      case Mult => 2
      case Plus => 3
      case Ceil => 4
      case Minus => 5
      case Div => 6
      case Square => 7
      case Lerp => 8
      case Sin => 9
      case Cos => 10
      case Floor => 11
      case Log => 12
      case Wrap => 13
      case Abs => 14
      case Atan => 15
      case Noise => 16
      case FBM => 17
      case Turbulence => 18
      case Gamma => 19
      case Hypot => 20
      case _ => 0;
    assert BaseKind(r) == k;
  }

  /** Picture and the three ternary operators are the kinds with three slots. */
  lemma ArityThree(k: Kind)
    ensures Arity(k) == 3 <==> k in {Picture, Lerp, FBM, Turbulence}
  {
  }

  /** The word that the kind's String method prints (Constant has none: it prints its value). */
  function Keyword(k: Kind): string
    requires !k.Constant?
  {
    match k
    case Picture => "Picture"
    case Negate => "Negate"
    case Ceil => "Ceil"
    case Sin => "Sin"
    case Cos => "Cos"
    case Floor => "Floor"
    case Log => "Log"
    case Wrap => "Wrap"
    case Abs => "Abs"
    case Atan => "Atan"
    case Gamma => "Gamma"
    case Plus => "+"
    case Minus => "-"
    case Mult => "*"
    case Div => "/"
    case Clip => "Clip"
    case Square => "Square"
    case Noise => "Noise"
    case Hypot => "Hypot"
    case Lerp => "Lerp"
    case FBM => "FBM"
    case Turbulence => "Turbulence"
    case X => "X"
    case Y => "Y"
  }

  /** stringToNode: the kind an operator token names, or None where the Go code panics. */
  function KindOfKeyword(s: string): Option<Kind>
  {
    match s
    case "Clip" => Some(Clip)
    case "Negate" => Some(Negate)
    case "*" => Some(Mult)
    case "+" => Some(Plus)
    case "Ceil" => Some(Ceil)
    case "-" => Some(Minus)
    case "/" => Some(Div)
    case "Square" => Some(Square)
    case "Lerp" => Some(Lerp)
    case "Sin" => Some(Sin)
    case "Cos" => Some(Cos)
    case "Floor" => Some(Floor)
    case "Log" => Some(Log)
    case "Wrap" => Some(Wrap)
    case "Abs" => Some(Abs)
    case "Atan" => Some(Atan)
    case "Noise" => Some(Noise)
    case "FBM" => Some(FBM)
    case "Turbulence" => Some(Turbulence)
    case "Gamma" => Some(Gamma)
    case "X" => Some(X)
    case "Y" => Some(Y)
    case "Picture" => Some(Picture)
    case "Hypot" => Some(Hypot)
    case _ => None
  }

  /** Every keyword the printer emits is read back by stringToNode as the same kind. */
  lemma KeywordRoundTrip(k: Kind)
    requires !k.Constant?
    ensures KindOfKeyword(Keyword(k)) == Some(k)
  {
  }

  /** Conversely, stringToNode accepts exactly the printed keywords and never yields a Constant. */
  lemma KindOfKeywordInverse(s: string)
    requires KindOfKeyword(s).Some?
    ensures !KindOfKeyword(s).value.Constant?
    ensures Keyword(KindOfKeyword(s).value) == s
  {
  }
}

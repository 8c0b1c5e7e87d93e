/** The expression grammar of Parsers/ExpressionParser.c: tokens, derivations, and what a derivation means. */
module ExpressionGrammar {

  datatype AddOp = Plus | Minus
  datatype MulOp = Mul | Div
  datatype UnaryFn = Sin | Sqr | Sqrt
  datatype BinaryFn = Max | Min | Pow
  datatype Comparison = Less | Greater | Equal | NotEqual

  /** A scanned token. An operand is a number, or a name that has (or has not) been given a value. */
  datatype Token =
    | Open | Close | Comma
    | Add(add: AddOp) | Times(mul: MulOp) | Fn1(fn1: UnaryFn) | Fn2(fn2: BinaryFn)
    | Operand(resolved: bool, value: real)
    | Compare(comparison: Comparison)
    | Blank | Space | Eol
    | Other(code: int)

  /** The tokens mexpr_is_white_space skips: code 0, WHITE_SPACE and EOL. */
  predicate IsBlank(t: Token)
  {
    t.Blank? || t.Space? || t.Eol?
  }

  /** The tokens that matter. */
  function Strip(s: seq<Token>): (r: seq<Token>)
    ensures forall t :: t in r ==> !IsBlank(t) && t in s
  {
    if s == [] then [] else if IsBlank(s[0]) then Strip(s[1..]) else [s[0]] + Strip(s[1..])
  }

  lemma {:induction false} StripConcat(a: seq<Token>, b: seq<Token>)
    ensures Strip(a + b) == Strip(a) + Strip(b)
  {
    if a == [] {
      assert a + b == b;
    } else {
      StripConcat(a[1..], b);
      assert (a + b)[1..] == a[1..] + b && (a + b)[0] == a[0];
      if !IsBlank(a[0]) {
        assert [a[0]] + (Strip(a[1..]) + Strip(b)) == [a[0]] + Strip(a[1..]) + Strip(b);
      }
    }
  }

  // ---- derivations: E -> T E', E' -> (+|-) T E' | $, T -> F T', T' -> (*|/) F T' | $ ----

  datatype Sum = Sum(first: Term, more: SumTail)
  datatype SumTail = SumEnd | SumMore(op: AddOp, term: Term, more: SumTail)
  datatype Term = Term(first: Factor, more: TermTail)
  datatype TermTail = TermEnd | TermMore(op: MulOp, factor: Factor, more: TermTail)
  datatype Factor =
    | Bracket(inner: Sum)
    | Leaf(resolved: bool, value: real)
    | Call(fn: UnaryFn, arg: Sum)
    | Call2(fn2: BinaryFn, arg1: Sum, arg2: Sum)

  /** Q -> E Ineq E | ( Q ). */
  datatype Condition = Comparing(left: Sum, ineq: Comparison, right: Sum) | Nested(inner: Condition)

  function SumYield(e: Sum): (r: seq<Token>)
    ensures r != []
  {
    TermYield(e.first) + SumTailYield(e.more)
  }

  function SumTailYield(m: SumTail): seq<Token>
  {
    match m
    case SumEnd => []
    case SumMore(op, t, more) => [Add(op)] + TermYield(t) + SumTailYield(more)
  }

  function TermYield(t: Term): (r: seq<Token>)
    ensures r != []
  {
    FactorYield(t.first) + TermTailYield(t.more)
  }

  function TermTailYield(m: TermTail): seq<Token>
  {
    match m
    case TermEnd => []
    case TermMore(op, f, more) => [Times(op)] + FactorYield(f) + TermTailYield(more)
  }

  function FactorYield(f: Factor): (r: seq<Token>)
    ensures r != []
  {
    match f
    case Bracket(e) => [Open] + SumYield(e) + [Close]
    case Leaf(resolved, value) => [Operand(resolved, value)]
    case Call(fn, e) => [Fn1(fn), Open] + SumYield(e) + [Close]
    case Call2(fn, a, b) => [Fn2(fn), Open] + SumYield(a) + [Comma] + SumYield(b) + [Close]
  }

  function ConditionYield(c: Condition): seq<Token>
  {
    match c
    case Comparing(l, ineq, r) => SumYield(l) + [Compare(ineq)] + SumYield(r)
    case Nested(inner) => [Open] + ConditionYield(inner) + [Close]
  }

  // ---- the tree of a derivation: operators group to the left, and * / bind tighter than + - ----

  datatype Tree = Null | Node(tok: Token, left: Tree, right: Tree)

  function SumTree(e: Sum): Tree
  {
    SumTailTree(TermTree(e.first), e.more)
  }

  function SumTailTree(sofar: Tree, m: SumTail): Tree
    decreases m
  {
    match m
    case SumEnd => sofar
    case SumMore(op, t, more) => SumTailTree(Node(Add(op), sofar, TermTree(t)), more)
  }

  function TermTree(t: Term): Tree
  {
    TermTailTree(FactorTree(t.first), t.more)
  }

  function TermTailTree(sofar: Tree, m: TermTail): Tree
    decreases m
  {
    match m
    case TermEnd => sofar
    case TermMore(op, f, more) => TermTailTree(Node(Times(op), sofar, FactorTree(f)), more)
  }

  function FactorTree(f: Factor): Tree
  {
    match f
    case Bracket(e) => SumTree(e)
    case Leaf(resolved, value) => Node(Operand(resolved, value), Null, Null)
    case Call(fn, e) => Node(Fn1(fn), SumTree(e), Null)
    case Call2(fn, a, b) => Node(Fn2(fn), SumTree(a), SumTree(b))
  }

  // ---- the value of a derivation ----

  /** sin, sqrt and pow of the C library. */
  datatype MathLibrary = MathLibrary(sin: real -> real, sqrt: real -> real, pow: (real, real) -> real)

  datatype Result = Failure | Success(value: real)

  function AddUp(op: AddOp, a: Result, b: Result): Result
  {
    if a.Failure? || b.Failure? then Failure
    else match op
      case Plus => Success(a.value + b.value)
      case Minus => Success(a.value - b.value)
  }

  function MultiplyOut(op: MulOp, a: Result, b: Result): Result
  {
    if a.Failure? || b.Failure? then Failure
    else match op
      case Mul => Success(a.value * b.value)
      case Div => if b.value == 0.0 then Failure else Success(a.value / b.value)
  }

  function Apply(lib: MathLibrary, fn: UnaryFn, a: Result): Result
  {
    if a.Failure? then Failure
    else match fn
      case Sin => Success(lib.sin(a.value))
      case Sqr => Success(a.value * a.value)
      case Sqrt => Success(lib.sqrt(a.value))
  }

  function Apply2(lib: MathLibrary, fn: BinaryFn, a: Result, b: Result): Result
  {
    if a.Failure? || b.Failure? then Failure
    else match fn
      case Max => Success(if a.value >= b.value then a.value else b.value)
      case Min => Success(if a.value <= b.value then a.value else b.value)
      case Pow => Success(lib.pow(a.value, b.value))
  }

  function SumValue(lib: MathLibrary, e: Sum): Result
    decreases e
  {
    SumTailValue(lib, TermValue(lib, e.first), e.more)
  }

  function SumTailValue(lib: MathLibrary, sofar: Result, m: SumTail): Result
    decreases m
  {
    match m
    case SumEnd => sofar
    case SumMore(op, t, more) => SumTailValue(lib, AddUp(op, sofar, TermValue(lib, t)), more)
  }

  function TermValue(lib: MathLibrary, t: Term): Result
    decreases t
  {
    TermTailValue(lib, FactorValue(lib, t.first), t.more)
  }

  function TermTailValue(lib: MathLibrary, sofar: Result, m: TermTail): Result
    decreases m
  {
    match m
    case TermEnd => sofar
    case TermMore(op, f, more) => TermTailValue(lib, MultiplyOut(op, sofar, FactorValue(lib, f)), more)
  }

  function FactorValue(lib: MathLibrary, f: Factor): Result
    decreases f
  {
    match f
    case Bracket(e) => SumValue(lib, e)
    case Leaf(resolved, value) => if resolved then Success(value) else Failure
    case Call(fn, e) => Apply(lib, fn, SumValue(lib, e))
    case Call2(fn, a, b) => Apply2(lib, fn, SumValue(lib, a), SumValue(lib, b))
  }
}

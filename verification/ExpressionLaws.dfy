/** What a sentence means, said without the functions that compute it: how operators group, and the laws of arithmetic
    its value obeys. */
module ExpressionLaws {
  import opened ExpressionGrammar
  import opened ExpressionCompiler
  import opened ExpressionParser
  import opened Stacks

  // ---- grouping ----

  function SumTailThen(m: SumTail, op: AddOp, t: Term): SumTail
  {
    match m
    case SumEnd => SumMore(op, t, SumEnd)
    case SumMore(o, u, more) => SumMore(o, u, SumTailThen(more, op, t))
  }

  function TermTailThen(m: TermTail, op: MulOp, f: Factor): TermTail
  {
    match m
    case TermEnd => TermMore(op, f, TermEnd)
    case TermMore(o, g, more) => TermMore(o, g, TermTailThen(more, op, f))
  }

  lemma {:induction false} SumTailGrows(sofar: Tree, m: SumTail, op: AddOp, t: Term)
    ensures SumTailYield(SumTailThen(m, op, t)) == SumTailYield(m) + [Add(op)] + TermYield(t)
    ensures SumTailTree(sofar, SumTailThen(m, op, t)) == Node(Add(op), SumTailTree(sofar, m), TermTree(t))
    decreases m
  {
    hide TermYield, TermTree;
    match m
    case SumEnd =>
    case SumMore(o, u, more) =>
      SumTailGrows(Node(Add(o), sofar, TermTree(u)), more, op, t);
  }

  lemma {:induction false} TermTailGrows(sofar: Tree, m: TermTail, op: MulOp, f: Factor)
    ensures TermTailYield(TermTailThen(m, op, f)) == TermTailYield(m) + [Times(op)] + FactorYield(f)
    ensures TermTailTree(sofar, TermTailThen(m, op, f)) == Node(Times(op), TermTailTree(sofar, m), FactorTree(f))
    decreases m
  {
    hide FactorYield, FactorTree;
    match m
    case TermEnd =>
    case TermMore(o, g, more) =>
      TermTailGrows(Node(Times(o), sofar, FactorTree(g)), more, op, f);
  }

  /** A sentence, + or -, and a term: the last such operator is the root, with all of the sentence on its left. */
  lemma LastSumOperator(e: Sum, op: AddOp, t: Term) returns (whole: Sum)
    ensures SumYield(whole) == SumYield(e) + [Add(op)] + TermYield(t)
    ensures SumTree(whole) == Node(Add(op), SumTree(e), TermTree(t))
  {
    hide TermYield, TermTree;
    whole := Sum(e.first, SumTailThen(e.more, op, t));
    SumTailGrows(TermTree(e.first), e.more, op, t);
  }

  /** A term, * or /, and a factor: the same, below every + and - around it. */
  lemma LastTermOperator(t: Term, op: MulOp, f: Factor) returns (whole: Term)
    ensures TermYield(whole) == TermYield(t) + [Times(op)] + FactorYield(f)
    ensures TermTree(whole) == Node(Times(op), TermTree(t), FactorTree(f))
    ensures SumYield(Sum(whole, SumEnd)) == TermYield(whole) && SumTree(Sum(whole, SumEnd)) == TermTree(whole)
  {
    hide FactorYield, FactorTree;
    whole := Term(t.first, TermTailThen(t.more, op, f));
    TermTailGrows(FactorTree(t.first), t.more, op, f);
  }

  /** Brackets group and leave no trace; a function's arguments are its children, in order. */
  lemma Arguments(e: Sum, a: Sum, b: Sum, fn: UnaryFn, fn2: BinaryFn) returns (p: Sum, q: Sum, r: Sum)
    ensures SumYield(p) == [Open] + SumYield(e) + [Close] && SumTree(p) == SumTree(e)
    ensures SumYield(q) == [Fn1(fn), Open] + SumYield(e) + [Close] && SumTree(q) == Node(Fn1(fn), SumTree(e), Null)
    ensures SumYield(r) == [Fn2(fn2), Open] + SumYield(a) + [Comma] + SumYield(b) + [Close]
    ensures SumTree(r) == Node(Fn2(fn2), SumTree(a), SumTree(b))
  {
    p, q, r := Just(Bracket(e)), Just(Call(fn, e)), Just(Call2(fn2, a, b));
    JustFactor(Bracket(e));
    JustFactor(Call(fn, e));
    JustFactor(Call2(fn2, a, b));
  }

  /** A factor on its own. */
  function Just(f: Factor): Sum
  {
    Sum(Term(f, TermEnd), SumEnd)
  }

  lemma JustFactor(f: Factor)
    ensures SumYield(Just(f)) == FactorYield(f) && SumTree(Just(f)) == FactorTree(f)
    ensures TermYield(Just(f).first) == FactorYield(f) && TermTree(Just(f).first) == FactorTree(f)
  {
    hide FactorYield, FactorTree;
    assert TermYield(Just(f).first) == FactorYield(f);
    assert SumTree(Just(f)) == TermTree(Just(f).first);
  }

  // ---- values ----

  ghost predicate Valued(lib: MathLibrary, t: Tree, v: real)
  {
    t.Node? && WellShaped(t) && Evaluate(lib, t) == Success(v)
  }

  /** The difference added to the second operand is the first; adding and then subtracting changes nothing. */
  lemma SumLaws(lib: MathLibrary, l: Tree, r: Tree, a: real, b: real)
    requires Valued(lib, l, a) && Valued(lib, r, b)
    ensures exists d :: Valued(lib, Node(Add(Minus), l, r), d) && d + b == a
    ensures Valued(lib, Node(Add(Minus), Node(Add(Plus), l, r), r), a)
    ensures Valued(lib, Node(Add(Plus), Node(Add(Minus), l, r), r), a)
    ensures exists s :: Valued(lib, Node(Add(Plus), l, r), s) && Valued(lib, Node(Add(Plus), r, l), s) && s - a == b
  {
    assert Valued(lib, Node(Add(Minus), l, r), a - b);
    assert Valued(lib, Node(Add(Plus), l, r), a + b);
    assert Valued(lib, Node(Add(Plus), r, l), a + b);
  }

  /** Division fails exactly for divisor 0, and otherwise multiplication undoes it. */
  lemma ProductLaws(lib: MathLibrary, l: Tree, r: Tree, a: real, b: real)
    requires Valued(lib, l, a) && Valued(lib, r, b)
    ensures Valued(lib, Node(Times(Mul), l, r), a * b) && Valued(lib, Node(Times(Mul), r, l), a * b)
    ensures WellShaped(Node(Times(Div), l, r))
    ensures Evaluate(lib, Node(Times(Div), l, r)) == Failure <==> b == 0.0
    ensures b != 0.0 ==> exists q :: Valued(lib, Node(Times(Div), l, r), q) && q * b == a
    ensures b != 0.0 ==> Valued(lib, Node(Times(Mul), Node(Times(Div), l, r), r), a)
    ensures b != 0.0 ==> Valued(lib, Node(Times(Div), Node(Times(Mul), l, r), r), a)
  {
    assert Valued(lib, Node(Times(Mul), l, r), b * a);
    if b != 0.0 {
      assert Valued(lib, Node(Times(Div), l, r), a / b);
      Cancel(a, b);
    }
  }

  lemma Cancel(a: real, b: real)
    requires b != 0.0
    ensures a / b * b == a && b * (a / b) == a && b * a / b == a && a * b / b == a
  {
  }

  /** The larger is at least both and one of them, the smaller at most both, and together they are the operands. */
  lemma ExtremeLaws(lib: MathLibrary, l: Tree, r: Tree, a: real, b: real)
    requires Valued(lib, l, a) && Valued(lib, r, b)
    ensures exists x, n ::
      && Valued(lib, Node(Fn2(Max), l, r), x) && Valued(lib, Node(Fn2(Min), l, r), n)
      && n <= a <= x && n <= b <= x && (x == a || x == b) && n + x == a + b
  {
    var x, n := if a < b then b else a, if a < b then a else b;
    assert Valued(lib, Node(Fn2(Max), l, r), x) && Valued(lib, Node(Fn2(Min), l, r), n);
  }

  /** sqr is multiplication by itself; sin, sqrt and pow are the library's, pow with the base first. */
  lemma FunctionLaws(lib: MathLibrary, l: Tree, r: Tree, a: real, b: real)
    requires Valued(lib, l, a) && Valued(lib, r, b)
    ensures Valued(lib, Node(Fn1(Sqr), l, Null), a * a)
    ensures WellShaped(Node(Fn1(Sqr), l, Null)) && WellShaped(Node(Times(Mul), l, l))
    ensures Evaluate(lib, Node(Fn1(Sqr), l, Null)) == Evaluate(lib, Node(Times(Mul), l, l))
    ensures Valued(lib, Node(Fn1(Sin), l, Null), lib.sin(a)) && Valued(lib, Node(Fn1(Sqrt), l, Null), lib.sqrt(a))
    ensures Valued(lib, Node(Fn2(Pow), l, r), lib.pow(a, b))
  {
  }

  /** An operand is worth what it was resolved to. */
  lemma OperandLaw(lib: MathLibrary, a: real)
    ensures Valued(lib, Node(Operand(true, a), Null, Null), a)
    ensures WellShaped(Node(Operand(false, a), Null, Null))
    ensures Evaluate(lib, Node(Operand(false, a), Null, Null)) == Failure
  {
  }

  // ---- from words to numbers ----

  /** The words w, all of them, are accepted as a sentence, and its tree is worth v. */
  ghost predicate Worth(lib: MathLibrary, w: seq<Token>, v: real)
  {
    var n: nat := |w|;
    exists e :: ParseSum(w, 0) == Some((e, n)) && Valued(lib, SumTree(e), v)
  }

  lemma WorthOf(lib: MathLibrary, w: seq<Token>, e: Sum, v: real)
    requires SumYield(e) == w && Valued(lib, SumTree(e), v)
    ensures Worth(lib, w, v)
  {
    hide SumYield, ParseSum, SumTree, Valued;
    assert w[0..|w|] == w;
    SumComplete(w, 0, e);
  }

  lemma BinaryValued(lib: MathLibrary, t: Token, l: Tree, r: Tree, a: real, b: real)
    requires IsBinary(t) && Valued(lib, l, a) && Valued(lib, r, b) && BinaryValue(lib, t, a, b).Success?
    ensures Valued(lib, Node(t, l, r), BinaryValue(lib, t, a, b).value)
  {
  }

  /** x - y - z is (x - y) - z, whatever factors they are. */
  lemma MinusMinus(lib: MathLibrary, x: Factor, y: Factor, z: Factor, a: real, b: real, c: real)
    requires Valued(lib, FactorTree(x), a) && Valued(lib, FactorTree(y), b) && Valued(lib, FactorTree(z), c)
    ensures Worth(lib, FactorYield(x) + [Add(Minus)] + FactorYield(y) + [Add(Minus)] + FactorYield(z), a - b - c)
  {
    hide FactorYield, FactorTree, SumTree, SumYield, TermTree, TermYield, Valued, Worth;
    JustFactor(x);
    JustFactor(y);
    JustFactor(z);
    var e := LastSumOperator(Just(x), Minus, Just(y).first);
    BinaryValued(lib, Add(Minus), FactorTree(x), FactorTree(y), a, b);
    var whole := LastSumOperator(e, Minus, Just(z).first);
    BinaryValued(lib, Add(Minus), SumTree(e), FactorTree(z), a - b, c);
    WorthOf(lib, SumYield(whole), whole, a - b - c);
  }

  /** x - y * z is x - (y * z). */
  lemma MinusTimes(lib: MathLibrary, x: Factor, y: Factor, z: Factor, a: real, b: real, c: real)
    requires Valued(lib, FactorTree(x), a) && Valued(lib, FactorTree(y), b) && Valued(lib, FactorTree(z), c)
    ensures Worth(lib, FactorYield(x) + [Add(Minus)] + FactorYield(y) + [Times(Mul)] + FactorYield(z), a - b * c)
  {
    hide FactorYield, FactorTree, SumTree, SumYield, TermTree, TermYield, Valued, Worth;
    JustFactor(x);
    JustFactor(y);
    var t := LastTermOperator(Just(y).first, Mul, z);
    BinaryValued(lib, Times(Mul), FactorTree(y), FactorTree(z), b, c);
    var whole := LastSumOperator(Just(x), Minus, t);
    BinaryValued(lib, Add(Minus), FactorTree(x), TermTree(t), a, b * c);
    assert SumYield(whole) == FactorYield(x) + [Add(Minus)] + FactorYield(y) + [Times(Mul)] + FactorYield(z);
    WorthOf(lib, SumYield(whole), whole, a - b * c);
  }

  /** x * y - z is (x * y) - z. */
  lemma TimesMinus(lib: MathLibrary, x: Factor, y: Factor, z: Factor, a: real, b: real, c: real)
    requires Valued(lib, FactorTree(x), a) && Valued(lib, FactorTree(y), b) && Valued(lib, FactorTree(z), c)
    ensures Worth(lib, FactorYield(x) + [Times(Mul)] + FactorYield(y) + [Add(Minus)] + FactorYield(z), a * b - c)
  {
    hide FactorYield, FactorTree, SumTree, SumYield, TermTree, TermYield, Valued, Worth;
    JustFactor(x);
    JustFactor(z);
    var t := LastTermOperator(Just(x).first, Mul, y);
    BinaryValued(lib, Times(Mul), FactorTree(x), FactorTree(y), a, b);
    var whole := LastSumOperator(Sum(t, SumEnd), Minus, Just(z).first);
    BinaryValued(lib, Add(Minus), TermTree(t), FactorTree(z), a * b, c);
    WorthOf(lib, SumYield(whole), whole, a * b - c);
  }

  /** x / y / z is (x / y) / z. */
  lemma DivideDivide(lib: MathLibrary, x: Factor, y: Factor, z: Factor, a: real, b: real, c: real)
    requires Valued(lib, FactorTree(x), a) && Valued(lib, FactorTree(y), b) && Valued(lib, FactorTree(z), c)
    requires b != 0.0 && c != 0.0
    ensures Worth(lib, FactorYield(x) + [Times(Div)] + FactorYield(y) + [Times(Div)] + FactorYield(z), a / b / c)
  {
    hide FactorYield, FactorTree, SumTree, SumYield, TermTree, TermYield, Valued, Worth;
    JustFactor(x);
    var t := LastTermOperator(Just(x).first, Div, y);
    BinaryValued(lib, Times(Div), FactorTree(x), FactorTree(y), a, b);
    var u := LastTermOperator(t, Div, z);
    BinaryValued(lib, Times(Div), TermTree(t), FactorTree(z), a / b, c);
    WorthOf(lib, TermYield(u), Sum(u, SumEnd), a / b / c);
  }
}

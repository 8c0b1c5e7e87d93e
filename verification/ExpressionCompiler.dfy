/** Parsers/MExpr.c: infix tokens to postfix, postfix to a tree, and the tree's value. */
module ExpressionCompiler {
  import opened ExpressionGrammar
  import opened Stacks

  // ---- the postfix form of a derivation ----

  function SumPostfix(e: Sum): seq<Token>
  {
    SumTailPostfix(TermPostfix(e.first), e.more)
  }

  function SumTailPostfix(sofar: seq<Token>, m: SumTail): seq<Token>
    decreases m
  {
    match m
    case SumEnd => sofar
    case SumMore(op, t, more) => SumTailPostfix(sofar + TermPostfix(t) + [Add(op)], more)
  }

  function TermPostfix(t: Term): seq<Token>
  {
    TermTailPostfix(FactorPostfix(t.first), t.more)
  }

  function TermTailPostfix(sofar: seq<Token>, m: TermTail): seq<Token>
    decreases m
  {
    match m
    case TermEnd => sofar
    case TermMore(op, f, more) => TermTailPostfix(sofar + FactorPostfix(f) + [Times(op)], more)
  }

  function FactorPostfix(f: Factor): seq<Token>
  {
    match f
    case Bracket(e) => SumPostfix(e)
    case Leaf(resolved, value) => [Operand(resolved, value)]
    case Call(fn, e) => SumPostfix(e) + [Fn1(fn)]
    case Call2(fn, a, b) => SumPostfix(a) + SumPostfix(b) + [Fn2(fn)]
  }

  // ---- infix to postfix ----

  predicate IsOperator(t: Token)
  {
    t.Open? || t.Add? || t.Times? || t.Fn1? || t.Fn2?
  }

  function Precedence(t: Token): int
    requires IsOperator(t)
  {
    match t
    case Open => 0
    case Fn1(_) => 1
    case Add(_) => 2
    case Times(_) => 3
    case Fn2(_) => 4
  }

  /** A bracket binds least, then one-argument functions, + and -, * and /, and two-argument functions. */
  lemma PrecedenceOrder(op: AddOp, mul: MulOp, fn: UnaryFn, fn2: BinaryFn)
    ensures Precedence(Open) < Precedence(Fn1(fn)) < Precedence(Add(op)) < Precedence(Times(mul)) < Precedence(Fn2(fn2))
  {
  }

  ghost predicate AllOperators(stack: seq<Token>)
  {
    forall t :: t in stack ==> IsOperator(t)
  }

  /** The operator stack (top last), the output, and whether every pop so far found something to pop. */
  datatype State = State(stack: seq<Token>, out: seq<Token>, sound: bool)

  function Top(stack: seq<Token>): Token
    requires stack != []
  {
    stack[|stack| - 1]
  }

  function Below(stack: seq<Token>): seq<Token>
    requires stack != []
  {
    stack[..|stack| - 1]
  }

  ghost function PopToOpen(stack: seq<Token>, out: seq<Token>): (seq<Token>, seq<Token>)
  {
    if stack == [] || Top(stack) == Open then (stack, out) else PopToOpen(Below(stack), out + [Top(stack)])
  }

  ghost function PopUnaries(stack: seq<Token>, out: seq<Token>): (seq<Token>, seq<Token>)
  {
    if stack == [] || !Top(stack).Fn1? then (stack, out) else PopUnaries(Below(stack), out + [Top(stack)])
  }

  ghost function PopAtLeast(p: int, stack: seq<Token>, out: seq<Token>): (seq<Token>, seq<Token>)
    requires AllOperators(stack)
    decreases stack
  {
    if stack == [] || Precedence(Top(stack)) < p then (stack, out) else PopAtLeast(p, Below(stack), out + [Top(stack)])
  }

  /** One round of the conversion loop. */
  ghost function Shunt(st: State, t: Token): (r: State)
    requires AllOperators(st.stack)
    ensures AllOperators(r.stack)
  {
    var State(stack, out, sound) := st;
    if IsBlank(t) then st
    else if t.Close? then
      ToOpenKeeps(stack, out);
      var (s1, o1) := PopToOpen(stack, out);
      if s1 == [] then State([], o1, false) else
      UnariesKeeps(Below(s1), o1);
      var (s2, o2) := PopUnaries(Below(s1), o1);
      State(s2, o2, sound)
    else if t.Comma? then
      ToOpenKeeps(stack, out);
      var (s1, o1) := PopToOpen(stack, out);
      State(s1, o1, sound)
    else if !IsOperator(t) then State(stack, out + [t], sound)
    else if t.Open? || t.Fn1? then State(stack + [t], out, sound)
    else
      AtLeastKeeps(Precedence(t), stack, out);
      var (s1, o1) := PopAtLeast(Precedence(t), stack, out);
      State(s1 + [t], o1, sound)
  }

  lemma ToOpenKeeps(stack: seq<Token>, out: seq<Token>)
    ensures PopToOpen(stack, out).0 <= stack
    ensures var s := PopToOpen(stack, out).0; s != [] ==> Top(s).Open?
  {
  }

  lemma UnariesKeeps(stack: seq<Token>, out: seq<Token>)
    ensures PopUnaries(stack, out).0 <= stack
  {
  }

  lemma AtLeastKeeps(p: int, stack: seq<Token>, out: seq<Token>)
    requires AllOperators(stack)
    ensures PopAtLeast(p, stack, out).0 <= stack
    decreases stack
  {
  }

  ghost function ShuntAll(st: State, s: seq<Token>): (r: State)
    requires AllOperators(st.stack)
    ensures AllOperators(r.stack)
    decreases s
  {
    if s == [] then st else ShuntAll(Shunt(st, s[0]), s[1..])
  }

  /** What is left on the stack, popped. */
  function Unstack(stack: seq<Token>): seq<Token>
  {
    if stack == [] then [] else [Top(stack)] + Unstack(Below(stack))
  }

  lemma {:induction false} ShuntConcat(st: State, a: seq<Token>, b: seq<Token>)
    requires AllOperators(st.stack)
    ensures ShuntAll(st, a + b) == ShuntAll(ShuntAll(st, a), b)
    decreases a
  {
    if a == [] {
      assert a + b == b;
    } else {
      ShuntConcat(Shunt(st, a[0]), a[1..], b);
      assert (a + b)[1..] == a[1..] + b;
    }
  }

  /** White space does not matter. */
  lemma {:induction false} ShuntStrip(st: State, s: seq<Token>)
    requires AllOperators(st.stack)
    ensures ShuntAll(st, s) == ShuntAll(st, Strip(s))
    decreases s
  {
    if s != [] {
      ShuntStrip(Shunt(st, s[0]), s[1..]);
      if !IsBlank(s[0]) {
        assert Strip(s)[1..] == Strip(s[1..]);
      }
    }
  }

  /** A token of white space may stand anywhere. */
  lemma BlankAnywhere(st: State, a: seq<Token>, x: Token, b: seq<Token>)
    requires AllOperators(st.stack) && (x.Blank? || x.Space? || x.Eol?)
    ensures ShuntAll(st, a + [x] + b) == ShuntAll(st, a + b)
  {
    hide Shunt;
    ShuntConcat(st, a + [x], b);
    ShuntConcat(st, a, [x]);
    ShuntConcat(st, a, b);
    BlankShunted(ShuntAll(st, a), x);
  }

  lemma BlankShunted(st: State, x: Token)
    requires AllOperators(st.stack) && (x.Blank? || x.Space? || x.Eol?)
    ensures ShuntAll(st, [x]) == st
  {
    ShuntOne(st, x);
  }

  lemma {:induction false} ToOpenPops(s: seq<Token>, pend: seq<Token>, out: seq<Token>)
    requires Open !in pend
    ensures PopToOpen(s + pend, out) == PopToOpen(s, out + Unstack(pend))
    decreases pend
  {
    if pend == [] {
      assert s + pend == s && out + [] == out;
    } else {
      assert Top(s + pend) == Top(pend) && Below(s + pend) == s + Below(pend) && Top(pend) in pend;
      ToOpenPops(s, Below(pend), out + [Top(pend)]);
      assert out + [Top(pend)] + Unstack(Below(pend)) == out + Unstack(pend);
    }
  }

  lemma {:induction false} AtLeastPops(p: int, s: seq<Token>, pend: seq<Token>, out: seq<Token>)
    requires AllOperators(s) && AllOperators(pend) && AllOperators(s + pend)
    requires forall t :: t in pend ==> p <= Precedence(t)
    ensures PopAtLeast(p, s + pend, out) == PopAtLeast(p, s, out + Unstack(pend))
    decreases pend
  {
    if pend == [] {
      assert s + pend == s && out + [] == out;
    } else {
      assert Top(s + pend) == Top(pend) && Below(s + pend) == s + Below(pend) && Top(pend) in pend;
      AtLeastPops(p, s, Below(pend), out + [Top(pend)]);
      assert out + [Top(pend)] + Unstack(Below(pend)) == out + Unstack(pend);
    }
  }

  /** An operand or operator of precedence p may start here: nothing that must be popped first. */
  ghost predicate Ready(stack: seq<Token>, p: int)
  {
    AllOperators(stack) && (stack == [] || (!Top(stack).Fn1? && Precedence(Top(stack)) < p))
  }

  /** Operators waiting above the stack, all at least of precedence p, and the postfix text they complete. */
  ghost predicate Waiting(pend: seq<Token>, p: int, part: seq<Token>, whole: seq<Token>)
  {
    && AllOperators(pend) && (forall t :: t in pend ==> p <= Precedence(t) && !t.Open?)
    && part + Unstack(pend) == whole
  }

  lemma {:induction false} UnstackUnder(t: Token, pend: seq<Token>)
    ensures Unstack([t] + pend) == Unstack(pend) + [t]
    decreases pend
  {
    if pend != [] {
      assert Top([t] + pend) == Top(pend) && Below([t] + pend) == [t] + Below(pend);
      UnstackUnder(t, Below(pend));
    } else {
      assert [t] + pend == [t] && Below([t]) == [];
    }
  }

  lemma ShuntOne(st: State, t: Token)
    requires AllOperators(st.stack)
    ensures ShuntAll(st, [t]) == Shunt(st, t)
  {
    assert [t][1..] == [];
  }

  /** An operator of precedence p completes everything waiting, and then waits itself. */
  lemma ShuntOperator(t: Token, s: seq<Token>, out: seq<Token>, sound: bool, pend: seq<Token>, part: seq<Token>,
                      whole: seq<Token>)
    requires t.Add? || t.Times?
    requires Ready(s, Precedence(t)) && Waiting(pend, Precedence(t), part, whole)
    ensures AllOperators(s + pend)
    ensures Shunt(State(s + pend, out + part, sound), t) == State(s + [t], out + whole, sound)
  {
    AtLeastPops(Precedence(t), s, pend, out + part);
    assert out + part + Unstack(pend) == out + whole;
  }

  /** What was built below t waits together with t. */
  lemma WaitingUnder(t: Token, p: int, s: seq<Token>, out: seq<Token>, whole: seq<Token>, pend: seq<Token>,
                     part: seq<Token>, inner: seq<Token>)
    requires IsOperator(t) && !t.Open? && p <= Precedence(t)
    requires Waiting(pend, p, part, inner)
    ensures Waiting([t] + pend, p, whole + part, whole + inner + [t])
    ensures s + [t] + pend == s + ([t] + pend) && out + whole + part == out + (whole + part)
  {
    UnstackUnder(t, pend);
    assert whole + part + (Unstack(pend) + [t]) == whole + (part + Unstack(pend)) + [t];
  }

  lemma RunSum(e: Sum, s: seq<Token>, out: seq<Token>, sound: bool) returns (pend: seq<Token>, part: seq<Token>)
    requires Ready(s, 2)
    ensures Waiting(pend, 2, part, SumPostfix(e))
    ensures ShuntAll(State(s, out, sound), SumYield(e)) == State(s + pend, out + part, sound)
    decreases e, 1
  {
    hide Waiting, Unstack;
    pend, part := RunTerm(e.first, s, out, sound);
    Weaken(pend, 3, 2, part, TermPostfix(e.first));
    ShuntConcat(State(s, out, sound), TermYield(e.first), SumTailYield(e.more));
    pend, part := RunSumTail(e.more, s, out, sound, pend, part, TermPostfix(e.first));
  }

  lemma Weaken(pend: seq<Token>, p: int, q: int, part: seq<Token>, whole: seq<Token>)
    requires Waiting(pend, p, part, whole) && q <= p
    ensures Waiting(pend, q, part, whole)
  {
  }

  lemma RunSumTail(m: SumTail, s: seq<Token>, out: seq<Token>, sound: bool, pend: seq<Token>, part: seq<Token>,
                   whole: seq<Token>)
    returns (pend': seq<Token>, part': seq<Token>)
    requires Ready(s, 2) && Waiting(pend, 2, part, whole) && AllOperators(s + pend)
    ensures Waiting(pend', 2, part', SumTailPostfix(whole, m))
    ensures ShuntAll(State(s + pend, out + part, sound), SumTailYield(m)) == State(s + pend', out + part', sound)
    decreases m, 0
  {
    hide Waiting, Unstack;
    match m
    case SumEnd => pend', part' := pend, part;
    case SumMore(op, t, more) =>
      var st := State(s + pend, out + part, sound);
      ShuntConcat(st, [Add(op)] + TermYield(t), SumTailYield(more));
      ShuntConcat(st, [Add(op)], TermYield(t));
      ShuntOne(st, Add(op));
      ShuntOperator(Add(op), s, out, sound, pend, part, whole);
      assert Top(s + [Add(op)]) == Add(op);
      var p, q := RunTerm(t, s + [Add(op)], out + whole, sound);
      Weaken(p, 3, 2, q, TermPostfix(t));
      WaitingUnder(Add(op), 2, s, out, whole, p, q, TermPostfix(t));
      pend', part' := RunSumTail(more, s, out, sound, [Add(op)] + p, whole + q, whole + TermPostfix(t) + [Add(op)]);
  }

  lemma RunTerm(t: Term, s: seq<Token>, out: seq<Token>, sound: bool) returns (pend: seq<Token>, part: seq<Token>)
    requires Ready(s, 3)
    ensures Waiting(pend, 3, part, TermPostfix(t))
    ensures ShuntAll(State(s, out, sound), TermYield(t)) == State(s + pend, out + part, sound)
    decreases t, 1
  {
    hide Waiting, Unstack;
    pend, part := RunFactor(t.first, s, out, sound);
    Weaken(pend, 4, 3, part, FactorPostfix(t.first));
    ShuntConcat(State(s, out, sound), FactorYield(t.first), TermTailYield(t.more));
    pend, part := RunTermTail(t.more, s, out, sound, pend, part, FactorPostfix(t.first));
  }

  lemma RunTermTail(m: TermTail, s: seq<Token>, out: seq<Token>, sound: bool, pend: seq<Token>, part: seq<Token>,
                    whole: seq<Token>)
    returns (pend': seq<Token>, part': seq<Token>)
    requires Ready(s, 3) && Waiting(pend, 3, part, whole) && AllOperators(s + pend)
    ensures Waiting(pend', 3, part', TermTailPostfix(whole, m))
    ensures ShuntAll(State(s + pend, out + part, sound), TermTailYield(m)) == State(s + pend', out + part', sound)
    decreases m, 0
  {
    hide Waiting, Unstack;
    match m
    case TermEnd => pend', part' := pend, part;
    case TermMore(op, f, more) =>
      var st := State(s + pend, out + part, sound);
      ShuntConcat(st, [Times(op)] + FactorYield(f), TermTailYield(more));
      ShuntConcat(st, [Times(op)], FactorYield(f));
      ShuntOne(st, Times(op));
      ShuntOperator(Times(op), s, out, sound, pend, part, whole);
      assert Top(s + [Times(op)]) == Times(op);
      var p, q := RunFactor(f, s + [Times(op)], out + whole, sound);
      Weaken(p, 4, 3, q, FactorPostfix(f));
      WaitingUnder(Times(op), 3, s, out, whole, p, q, FactorPostfix(f));
      pend', part' := RunTermTail(more, s, out, sound, [Times(op)] + p, whole + q,
          whole + FactorPostfix(f) + [Times(op)]);
  }

  /** An expression inside brackets, up to where its closing bracket or comma comes: popping down to the bracket
      completes it. */
  lemma RunInside(e: Sum, s: seq<Token>, out: seq<Token>, sound: bool) returns (pend: seq<Token>, part: seq<Token>)
    requires AllOperators(s + [Open])
    ensures ShuntAll(State(s + [Open], out, sound), SumYield(e)) == State(s + [Open] + pend, out + part, sound)
    ensures PopToOpen(s + [Open] + pend, out + part) == (s + [Open], out + SumPostfix(e))
    decreases e, 2
  {
    assert Top(s + [Open]) == Open;
    pend, part := RunSum(e, s + [Open], out, sound);
    ToOpenPops(s + [Open], pend, out + part);
    assert out + part + Unstack(pend) == out + SumPostfix(e);
  }

  lemma RunFactor(f: Factor, s: seq<Token>, out: seq<Token>, sound: bool) returns (pend: seq<Token>, part: seq<Token>)
    requires Ready(s, 4)
    ensures Waiting(pend, 4, part, FactorPostfix(f))
    ensures ShuntAll(State(s, out, sound), FactorYield(f)) == State(s + pend, out + part, sound)
    decreases f, 1
  {
    hide ShuntAll, PopToOpen, PopAtLeast, Waiting;
    var st := State(s, out, sound);
    pend, part := [], FactorPostfix(f);
    WaitingNone(4, part);
    match f
    case Leaf(resolved, value) =>
      ShuntOne(st, Operand(resolved, value));
    case Bracket(e) =>
      RunBracket(e, s, out, sound);
    case Call(fn, e) =>
      ShuntConcat(st, [Fn1(fn)], [Open] + SumYield(e) + [Close]);
      assert FactorYield(f) == [Fn1(fn)] + ([Open] + SumYield(e) + [Close]);
      ShuntOne(st, Fn1(fn));
      RunBracket(e, s + [Fn1(fn)], out, sound);
      assert Top(s + [Fn1(fn)]) == Fn1(fn) && Below(s + [Fn1(fn)]) == s;
    case Call2(fn, a, b) =>
      RunCall2(f, s, out, sound);
      pend, part := [Fn2(fn)], SumPostfix(a) + SumPostfix(b);
      WaitingOne(Fn2(fn), 4, part);
  }

  lemma WaitingNone(p: int, whole: seq<Token>)
    ensures Waiting([], p, whole, whole)
  {
  }

  lemma WaitingOne(t: Token, p: int, part: seq<Token>)
    requires IsOperator(t) && !t.Open? && p <= Precedence(t)
    ensures Waiting([t], p, part, part + [t])
  {
  }

  lemma ShuntClose(s: seq<Token>, pend: seq<Token>, out: seq<Token>, done: seq<Token>, sound: bool)
    requires AllOperators(s) && AllOperators(s + [Open] + pend)
    requires PopToOpen(s + [Open] + pend, out) == (s + [Open], done)
    ensures Shunt(State(s + [Open] + pend, out, sound), Close)
      == State(PopUnaries(s, done).0, PopUnaries(s, done).1, sound)
  {
    assert Below(s + [Open]) == s;
  }

  lemma ShuntComma(s: seq<Token>, pend: seq<Token>, out: seq<Token>, done: seq<Token>, sound: bool)
    requires AllOperators(s) && AllOperators(s + [Open] + pend)
    requires PopToOpen(s + [Open] + pend, out) == (s + [Open], done)
    ensures Shunt(State(s + [Open] + pend, out, sound), Comma) == State(s + [Open], done, sound)
  {
  }

  lemma ShuntPush(st: State, t: Token)
    requires AllOperators(st.stack)
    requires t == Open || t.Fn1? || (t.Fn2? && Ready(st.stack, Precedence(t)))
    ensures ShuntAll(st, [t]) == State(st.stack + [t], st.out, st.sound)
  {
    ShuntOne(st, t);
  }

  /** A bracketed expression, and the unary operators waiting for it. */
  lemma RunBracket(e: Sum, s: seq<Token>, out: seq<Token>, sound: bool)
    requires AllOperators(s)
    ensures ShuntAll(State(s, out, sound), [Open] + SumYield(e) + [Close])
         == State(PopUnaries(s, out + SumPostfix(e)).0, PopUnaries(s, out + SumPostfix(e)).1, sound)
    decreases e, 3
  {
    hide Shunt, PopToOpen, PopUnaries, SumYield, SumPostfix;
    var st := State(s, out, sound);
    ShuntConcat(st, [Open] + SumYield(e), [Close]);
    ShuntConcat(st, [Open], SumYield(e));
    ShuntPush(st, Open);
    var pend, part := RunInside(e, s, out, sound);
    ShuntOne(State(s + [Open] + pend, out + part, sound), Close);
    ShuntClose(s, pend, out + part, out + SumPostfix(e), sound);
  }

  /** A two-argument call, up to the comma and from there on. */
  lemma RunFirstArgument(fn: BinaryFn, a: Sum, s: seq<Token>, out: seq<Token>, sound: bool)
    requires Ready(s, 4)
    ensures AllOperators(s + [Fn2(fn)] + [Open])
    ensures ShuntAll(State(s, out, sound), [Fn2(fn)] + ([Open] + (SumYield(a) + [Comma])))
         == State(s + [Fn2(fn)] + [Open], out + SumPostfix(a), sound)
    decreases a, 3
  {
    hide Shunt, PopToOpen, PopUnaries, SumYield, SumPostfix;
    var s1 := s + [Fn2(fn)];
    var st := State(s, out, sound);
    ShuntConcat(st, [Fn2(fn)], [Open] + (SumYield(a) + [Comma]));
    ShuntPush(st, Fn2(fn));
    ShuntConcat(State(s1, out, sound), [Open], SumYield(a) + [Comma]);
    ShuntPush(State(s1, out, sound), Open);
    ShuntConcat(State(s1 + [Open], out, sound), SumYield(a), [Comma]);
    var pend, part := RunInside(a, s1, out, sound);
    ShuntOne(State(s1 + [Open] + pend, out + part, sound), Comma);
    ShuntComma(s1, pend, out + part, out + SumPostfix(a), sound);
  }

  lemma RunSecondArgument(b: Sum, s: seq<Token>, out: seq<Token>, sound: bool)
    requires AllOperators(s + [Open]) && s != [] && !Top(s).Fn1?
    ensures ShuntAll(State(s + [Open], out, sound), SumYield(b) + [Close]) == State(s, out + SumPostfix(b), sound)
    decreases b, 3
  {
    hide Shunt, PopToOpen, SumYield, SumPostfix;
    ShuntConcat(State(s + [Open], out, sound), SumYield(b), [Close]);
    var pend, part := RunInside(b, s, out, sound);
    ShuntOne(State(s + [Open] + pend, out + part, sound), Close);
    ShuntClose(s, pend, out + part, out + SumPostfix(b), sound);
  }

  lemma RunCall2(f: Factor, s: seq<Token>, out: seq<Token>, sound: bool)
    requires Ready(s, 4) && f.Call2?
    ensures ShuntAll(State(s, out, sound), FactorYield(f))
      == State(s + [Fn2(f.fn2)], out + (SumPostfix(f.arg1) + SumPostfix(f.arg2)), sound)
    decreases f, 0
  {
    hide Shunt, SumYield, SumPostfix;
    var Call2(fn, a, b) := f;
    var first, second := [Fn2(fn)] + ([Open] + (SumYield(a) + [Comma])), SumYield(b) + [Close];
    assert FactorYield(f) == first + second;
    ShuntConcat(State(s, out, sound), first, second);
    RunFirstArgument(fn, a, s, out, sound);
    assert Top(s + [Fn2(fn)]) == Fn2(fn);
    RunSecondArgument(b, s + [Fn2(fn)], out + SumPostfix(a), sound);
    Associate(out, SumPostfix(a), SumPostfix(b));
  }

  /** For every sentence of the grammar, with white space anywhere, the conversion pops only what is there and yields
      the derivation's postfix form. */
  lemma InfixToPostfixCorrect(infix: seq<Token>, e: Sum)
    requires Strip(infix) == SumYield(e)
    ensures var st := ShuntAll(State([], [], true), infix);
      st.sound && Open !in st.stack && st.out + Unstack(st.stack) == SumPostfix(e)
  {
    ShuntStrip(State([], [], true), infix);
    var pend, part := RunSum(e, [], [], true);
    assert [] + pend == pend && [] + part == part;
  }

  /** The conversion stays within the stack's slots. */
  ghost predicate ShuntFits(st: State, s: seq<Token>)
    requires AllOperators(st.stack)
    decreases s
  {
    s == [] || (|Shunt(st, s[0]).stack| <= MAX_STACK_SIZE && ShuntFits(Shunt(st, s[0]), s[1..]))
  }

  /** White space needs no room. */
  lemma {:induction false} FitsStrip(st: State, s: seq<Token>)
    requires AllOperators(st.stack) && |st.stack| <= MAX_STACK_SIZE && ShuntFits(st, Strip(s))
    ensures ShuntFits(st, s)
    decreases s
  {
    if s != [] {
      if IsBlank(s[0]) {
        FitsStrip(st, s[1..]);
      } else {
        assert Strip(s)[1..] == Strip(s[1..]);
        FitsStrip(Shunt(st, s[0]), s[1..]);
      }
    }
  }

  /** A line with no more operators than the stack has slots fits, but so do many others. */
  lemma {:induction false} FewOperatorsFit(st: State, s: seq<Token>)
    requires AllOperators(st.stack) && |st.stack| + Operators(s) <= MAX_STACK_SIZE
    ensures ShuntFits(st, s)
    decreases s
  {
    if s != [] {
      ShuntGrows(st, s[0]);
      FewOperatorsFit(Shunt(st, s[0]), s[1..]);
    }
  }

  lemma ShuntGrows(st: State, t: Token)
    requires AllOperators(st.stack)
    ensures |Shunt(st, t).stack| <= |st.stack| + if IsOperator(t) then 1 else 0
  {
    ToOpenKeeps(st.stack, st.out);
    UnariesKeeps(st.stack, st.out);
    if t.Close? && PopToOpen(st.stack, st.out).0 != [] {
      UnariesKeeps(Below(PopToOpen(st.stack, st.out).0), PopToOpen(st.stack, st.out).1);
    }
    if IsOperator(t) && !t.Open? && !t.Fn1? {
      AtLeastKeeps(Precedence(t), st.stack, st.out);
    }
  }

  /** How many tokens may be pushed. */
  function Operators(s: seq<Token>): nat
  {
    if s == [] then 0 else (if IsOperator(s[0]) then 1 else 0) + Operators(s[1..])
  }

  /** What the conversion makes of any token string. */
  ghost function Postfix(infix: seq<Token>): seq<Token>
  {
    var st := ShuntAll(State([], [], true), infix);
    st.out + Unstack(st.stack)
  }

  const MAX_MEXPR_LEN := 512

  /** mexpr_convert_infix_to_postfix. */
  method ConvertInfixToPostfix(infix: seq<Token>) returns (out: seq<Token>)
    requires |infix| <= MAX_MEXPR_LEN && ShuntFits(State([], [], true), infix)
    ensures out == Postfix(infix) && |out| <= |infix| <= 512
    ensures forall e :: Strip(infix) == SumYield(e) ==> out == SumPostfix(e)
  {
    hide Shunt;
    var stack := new Stack<Token>();
    out := [];
    ghost var sound := true;
    var i := 0;
    while i < |infix|
      modifies stack, stack.slot
      invariant 0 <= i <= |infix| && stack.Valid() && AllOperators(stack.Contents())
      invariant ShuntAll(State(stack.Contents(), out, sound), infix[i..]) == ShuntAll(State([], [], true), infix)
      invariant ShuntFits(State(stack.Contents(), out, sound), infix[i..])
      invariant |stack.Contents()| + |out| <= i
    {
      assert infix[i..][1..] == infix[i + 1..];
      out, sound := ConvertOne(stack, infix[i], out, sound);
      i := i + 1;
    }
    assert infix[i..] == [];
    ghost var whole := out + Unstack(stack.Contents());
    while !stack.IsEmpty()
      modifies stack, stack.slot
      invariant stack.Valid() && out + Unstack(stack.Contents()) == whole
      invariant |stack.Contents()| + |out| <= |infix|
      decreases stack.top
    {
      ghost var above := stack.Contents();
      var t := stack.Pop();
      Associate(out, [t.value], Unstack(Below(above)));
      out := out + [t.value];
    }
    forall e | Strip(infix) == SumYield(e) ensures out == SumPostfix(e) {
      InfixToPostfixCorrect(infix, e);
    }
  }

  lemma Associate<T>(a: seq<T>, b: seq<T>, c: seq<T>)
    ensures a + (b + c) == a + b + c
  {
  }

  /** The body of the conversion loop. */
  method ConvertOne(stack: Stack<Token>, t: Token, out: seq<Token>, ghost sound: bool)
                    returns (out': seq<Token>, ghost sound': bool)
    requires stack.Valid() && AllOperators(stack.Contents())
    requires |Shunt(State(stack.Contents(), out, sound), t).stack| <= MAX_STACK_SIZE
    modifies stack`top, stack.slot
    ensures stack.Valid()
    ensures State(stack.Contents(), out', sound') == Shunt(State(old(stack.Contents()), out, sound), t)
    ensures |stack.Contents()| <= old(|stack.Contents()|) + if IsOperator(t) then 1 else 0
    ensures |stack.Contents()| + |out'| <= old(|stack.Contents()|) + |out| + 1
  {
    out', sound' := out, sound;
    if IsBlank(t) {
      return;
    }
    if t == Open {
      stack.Push(t);
    } else if t == Close {
      out' := PopDownToOpen(stack, out');
      var open := stack.Pop();
      sound' := sound' && open != None;
      out' := PopUnaryOperators(stack, out');
    } else if t == Comma {
      out' := PopDownToOpen(stack, out');
    } else if !IsOperator(t) {
      out' := out' + [t];
    } else if stack.IsEmpty() {
      stack.Push(t);
    } else {
      if !t.Fn1? {
        out' := PopOperators(stack, Precedence(t), out');
      }
      stack.Push(t);
    }
  }

  method PopDownToOpen(stack: Stack<Token>, out: seq<Token>) returns (out': seq<Token>)
    requires stack.Valid()
    modifies stack`top, stack.slot
    ensures stack.Valid() && (stack.Contents(), out') == PopToOpen(old(stack.Contents()), out)
    ensures |stack.Contents()| + |out'| == old(|stack.Contents()|) + |out|
    ensures stack.Contents() <= old(stack.Contents())
  {
    out' := out;
    while true
      invariant stack.Valid() && PopToOpen(stack.Contents(), out') == PopToOpen(old(stack.Contents()), out)
      invariant |stack.Contents()| + |out'| == old(|stack.Contents()|) + |out|
      invariant stack.Contents() <= old(stack.Contents())
      decreases stack.top
    {
      if stack.IsEmpty() {
        break;
      }
      var top := stack.Peek();
      if top == Open {
        break;
      }
      var t := stack.Pop();
      out' := out' + [t.value];
    }
  }

  method PopUnaryOperators(stack: Stack<Token>, out: seq<Token>) returns (out': seq<Token>)
    requires stack.Valid()
    modifies stack`top, stack.slot
    ensures stack.Valid() && (stack.Contents(), out') == PopUnaries(old(stack.Contents()), out)
    ensures |stack.Contents()| + |out'| == old(|stack.Contents()|) + |out|
    ensures stack.Contents() <= old(stack.Contents())
  {
    out' := out;
    while !stack.IsEmpty()
      invariant stack.Valid() && PopUnaries(stack.Contents(), out') == PopUnaries(old(stack.Contents()), out)
      invariant |stack.Contents()| + |out'| == old(|stack.Contents()|) + |out|
      invariant stack.Contents() <= old(stack.Contents())
      decreases stack.top
    {
      var top := stack.Peek();
      if top.Fn1? {
        var t := stack.Pop();
        out' := out' + [t.value];
        continue;
      }
      break;
    }
  }

  method PopOperators(stack: Stack<Token>, p: int, out: seq<Token>) returns (out': seq<Token>)
    requires stack.Valid() && AllOperators(stack.Contents())
    modifies stack`top, stack.slot
    ensures stack.Valid() && (stack.Contents(), out') == PopAtLeast(p, old(stack.Contents()), out)
    ensures |stack.Contents()| + |out'| == old(|stack.Contents()|) + |out|
    ensures stack.Contents() <= old(stack.Contents())
  {
    out' := out;
    while true
      invariant stack.Valid() && stack.Contents() <= old(stack.Contents())
      invariant PopAtLeast(p, stack.Contents(), out') == PopAtLeast(p, old(stack.Contents()), out)
      invariant |stack.Contents()| + |out'| == old(|stack.Contents()|) + |out|
      decreases stack.top
    {
      if stack.IsEmpty() {
        break;
      }
      var top := stack.Peek();
      if Precedence(top) < p {
        break;
      }
      var t := stack.Pop();
      out' := out' + [t.value];
    }
  }

  // ---- postfix to tree ----

  predicate IsBinary(t: Token)
  {
    t.Add? || t.Times? || t.Fn2?
  }

  /** One token of the postfix form; nothing when an operand is missing or the token has no place there. */
  function Build(stack: seq<Tree>, t: Token): Option<seq<Tree>>
  {
    var n := |stack|;
    if t.Operand? then Some(stack + [Node(t, Null, Null)])
    else if IsBinary(t) && n >= 2 then Some(stack[..n - 2] + [Node(t, stack[n - 2], stack[n - 1])])
    else if t.Fn1? && n >= 1 then Some(stack[..n - 1] + [Node(t, stack[n - 1], Null)])
    else None
  }

  function BuildAll(stack: seq<Tree>, postfix: seq<Token>): Option<seq<Tree>>
    decreases postfix
  {
    if postfix == [] then Some(stack)
    else match Build(stack, postfix[0])
      case None => None
      case Some(next) => BuildAll(next, postfix[1..])
  }

  /** If the text a builds the tree t on any stack, what follows it goes on from there. */
  lemma {:induction false} BuildConcat(stack: seq<Tree>, a: seq<Token>, b: seq<Token>)
    requires BuildAll(stack, a).Some?
    ensures BuildAll(stack, a + b) == BuildAll(BuildAll(stack, a).value, b)
    decreases a
  {
    hide Build;
    if a == [] {
      assert a + b == b;
    } else {
      BuildConcat(Build(stack, a[0]).value, a[1..], b);
      assert (a + b)[1..] == a[1..] + b;
    }
  }

  lemma BuildOne(stack: seq<Tree>, t: Token)
    ensures BuildAll(stack, [t]) == Build(stack, t)
  {
    assert [t][1..] == [];
  }

  lemma BuildBinary(stack: seq<Tree>, a: seq<Token>, l: Tree, b: seq<Token>, r: Tree, t: Token)
    requires IsBinary(t)
    requires BuildAll(stack, a) == Some(stack + [l]) && BuildAll(stack + [l], b) == Some(stack + [l] + [r])
    ensures BuildAll(stack, a + b + [t]) == Some(stack + [Node(t, l, r)])
  {
    BuildConcat(stack, a, b);
    BuildConcat(stack, a + b, [t]);
    BuildOne(stack + [l] + [r], t);
    assert (stack + [l] + [r])[..|stack|] == stack;
  }

  lemma BuildSum(stack: seq<Tree>, e: Sum)
    ensures BuildAll(stack, SumPostfix(e)) == Some(stack + [SumTree(e)])
    decreases e, 1
  {
    BuildTerm(stack, e.first);
    BuildSumTail(stack, TermPostfix(e.first), TermTree(e.first), e.more);
  }

  lemma BuildSumTail(stack: seq<Tree>, sofar: seq<Token>, tree: Tree, m: SumTail)
    requires BuildAll(stack, sofar) == Some(stack + [tree])
    ensures BuildAll(stack, SumTailPostfix(sofar, m)) == Some(stack + [SumTailTree(tree, m)])
    decreases m, 0
  {
    match m
    case SumEnd =>
    case SumMore(op, t, more) =>
      BuildTerm(stack + [tree], t);
      BuildBinary(stack, sofar, tree, TermPostfix(t), TermTree(t), Add(op));
      BuildSumTail(stack, sofar + TermPostfix(t) + [Add(op)], Node(Add(op), tree, TermTree(t)), more);
  }

  lemma BuildTerm(stack: seq<Tree>, t: Term)
    ensures BuildAll(stack, TermPostfix(t)) == Some(stack + [TermTree(t)])
    decreases t, 1
  {
    BuildFactor(stack, t.first);
    BuildTermTail(stack, FactorPostfix(t.first), FactorTree(t.first), t.more);
  }

  lemma BuildTermTail(stack: seq<Tree>, sofar: seq<Token>, tree: Tree, m: TermTail)
    requires BuildAll(stack, sofar) == Some(stack + [tree])
    ensures BuildAll(stack, TermTailPostfix(sofar, m)) == Some(stack + [TermTailTree(tree, m)])
    decreases m, 0
  {
    match m
    case TermEnd =>
    case TermMore(op, f, more) =>
      BuildFactor(stack + [tree], f);
      BuildBinary(stack, sofar, tree, FactorPostfix(f), FactorTree(f), Times(op));
      BuildTermTail(stack, sofar + FactorPostfix(f) + [Times(op)], Node(Times(op), tree, FactorTree(f)), more);
  }

  lemma BuildFactor(stack: seq<Tree>, f: Factor)
    ensures BuildAll(stack, FactorPostfix(f)) == Some(stack + [FactorTree(f)])
    decreases f, 0
  {
    match f
    case Leaf(resolved, value) => BuildOne(stack, Operand(resolved, value));
    case Bracket(e) => BuildSum(stack, e);
    case Call(fn, e) =>
      BuildSum(stack, e);
      BuildConcat(stack, SumPostfix(e), [Fn1(fn)]);
      BuildOne(stack + [SumTree(e)], Fn1(fn));
    case Call2(fn, a, b) =>
      BuildSum(stack, a);
      BuildSum(stack + [SumTree(a)], b);
      BuildBinary(stack, SumPostfix(a), SumTree(a), SumPostfix(b), SumTree(b), Fn2(fn));
  }

  function Operands(s: seq<Token>): nat
  {
    if s == [] then 0 else (if s[0].Operand? then 1 else 0) + Operands(s[1..])
  }

  /** Building the tree stays within the stack's slots. */
  ghost predicate BuildFits(stack: seq<Tree>, s: seq<Token>)
    decreases s
  {
    s == [] || match Build(stack, s[0])
               case None => true
               case Some(next) => |next| <= MAX_STACK_SIZE && BuildFits(next, s[1..])
  }

  lemma {:induction false} FewOperandsFit(stack: seq<Tree>, s: seq<Token>)
    requires |stack| + Operands(s) <= MAX_STACK_SIZE
    ensures BuildFits(stack, s)
    decreases s
  {
    if s != [] && Build(stack, s[0]).Some? {
      FewOperandsFit(Build(stack, s[0]).value, s[1..]);
    }
  }

  /** The body of the building loop. */
  method BuildNode(stack: Stack<Tree>, t: Token)
    requires stack.Valid() && Build(stack.Contents(), t).Some?
    requires |Build(stack.Contents(), t).value| <= MAX_STACK_SIZE
    modifies stack`top, stack.slot
    ensures stack.Valid() && Some(stack.Contents()) == Build(old(stack.Contents()), t)
  {
    ghost var s := stack.Contents();
    ghost var n := |s|;
    if !IsOperator(t) {
      stack.Push(Node(t, Null, Null));
    } else if IsBinary(t) {
      var right := stack.Pop();
      var left := stack.Pop();
      assert s[..n - 1][..n - 2] == s[..n - 2];
      stack.Push(Node(t, left.value, right.value));
    } else if t.Fn1? {
      var left := stack.Pop();
      stack.Push(Node(t, left.value, Null));
    }
  }

  /** mexpr_convert_postfix_to_expression_tree: no pop finds the stack empty, and one tree is left. */
  method ConvertPostfixToTree(postfix: seq<Token>, ghost e: Sum) returns (root: Tree)
    requires postfix == SumPostfix(e) && BuildFits([], postfix)
    ensures root == SumTree(e)
  {
    var stack := new Stack<Tree>();
    BuildSum([], e);
    var i := 0;
    assert postfix[0..] == postfix && [] + [SumTree(e)] == [SumTree(e)];
    while i < |postfix|
      modifies stack, stack.slot
      invariant 0 <= i <= |postfix| && stack.Valid()
      invariant BuildAll(stack.Contents(), postfix[i..]) == Some([SumTree(e)])
      invariant BuildFits(stack.Contents(), postfix[i..])
    {
      assert postfix[i..][1..] == postfix[i + 1..];
      BuildNode(stack, postfix[i]);
      i := i + 1;
    }
    assert postfix[i..] == [];
    var tree := stack.Pop();
    assert stack.IsEmpty();
    root := tree.value;
  }

  // ---- the tree's value ----

  /** The shapes mexpt_evaluate asserts: an operator has as many children as it takes, an operand none. */
  predicate WellShaped(root: Tree)
  {
    root.Node? ==>
    && WellShaped(root.left) && WellShaped(root.right)
    && (root.left.Null? && root.right.Null? ==> root.tok.Operand?)
    && (root.left.Node? && root.right.Null? ==> root.tok.Fn1?)
    && (root.right.Node? ==> root.left.Node? && IsBinary(root.tok))
  }

  /** mexpt_evaluate. */
  function Evaluate(lib: MathLibrary, root: Tree): Result
    requires WellShaped(root)
    decreases root
  {
    if root.Null? then Failure else
    var l := Evaluate(lib, root.left);
    var r := Evaluate(lib, root.right);
    if root.left.Null? && root.right.Null? then
      if !root.tok.resolved then Failure else Success(root.tok.value)
    else if root.right.Null? then
      if l.Failure? then Failure else UnaryValue(lib, root.tok, l.value)
    else
      if l.Failure? || r.Failure? then Failure else BinaryValue(lib, root.tok, l.value, r.value)
  }

  function UnaryValue(lib: MathLibrary, t: Token, v: real): Result
    requires t.Fn1?
  {
    match t.fn1
    case Sin => Success(lib.sin(v))
    case Sqrt => Success(lib.sqrt(v))
    case Sqr => Success(v * v)
  }

  function BinaryValue(lib: MathLibrary, t: Token, l: real, r: real): Result
    requires IsBinary(t)
  {
    match t
    case Fn2(Max) => Success(if l < r then r else l)
    case Fn2(Min) => Success(if l < r then l else r)
    case Add(Plus) => Success(l + r)
    case Add(Minus) => Success(l - r)
    case Times(Mul) => Success(r * l)
    case Times(Div) => if r == 0.0 then Failure else Success(l / r)
    case Fn2(Pow) => Success(lib.pow(l, r))
  }

  lemma UnaryAgrees(lib: MathLibrary, fn: UnaryFn, v: real)
    ensures UnaryValue(lib, Fn1(fn), v) == Apply(lib, fn, Success(v)) && UnaryValue(lib, Fn1(fn), v).Success?
  {
  }

  lemma BinaryAgrees(lib: MathLibrary, t: Token, l: real, r: real)
    requires IsBinary(t)
    ensures t.Add? ==> BinaryValue(lib, t, l, r) == AddUp(t.add, Success(l), Success(r))
    ensures t.Times? ==> BinaryValue(lib, t, l, r) == MultiplyOut(t.mul, Success(l), Success(r))
    ensures t.Fn2? ==> BinaryValue(lib, t, l, r) == Apply2(lib, t.fn2, Success(l), Success(r))
    ensures BinaryValue(lib, t, l, r).Failure? <==> t == Times(Div) && r == 0.0
  {
  }

  /** The value of a node, told by its children's results. */
  lemma EvaluateNode(lib: MathLibrary, t: Token, l: Tree, r: Tree)
    requires l.Node? && WellShaped(l) && WellShaped(r) && (if r.Null? then t.Fn1? else IsBinary(t))
    ensures WellShaped(Node(t, l, r))
    ensures var v := Evaluate(lib, Node(t, l, r));
      && (t.Fn1? ==> v == Apply(lib, t.fn1, Evaluate(lib, l)))
      && (t.Add? ==> v == AddUp(t.add, Evaluate(lib, l), Evaluate(lib, r)))
      && (t.Times? ==> v == MultiplyOut(t.mul, Evaluate(lib, l), Evaluate(lib, r)))
      && (t.Fn2? ==> v == Apply2(lib, t.fn2, Evaluate(lib, l), Evaluate(lib, r)))
  {
    hide UnaryValue, BinaryValue;
    var a, b := Evaluate(lib, l), Evaluate(lib, r);
    if a.Success? && t.Fn1? {
      UnaryAgrees(lib, t.fn1, a.value);
    }
    if a.Success? && b.Success? && !t.Fn1? {
      BinaryAgrees(lib, t, a.value, b.value);
    }
  }

  /** The tree of a derivation has the shape evaluation asserts, and evaluates to the derivation's value. */
  lemma EvaluateSum(lib: MathLibrary, e: Sum)
    ensures var t := SumTree(e); t.Node? && WellShaped(t) && Evaluate(lib, t) == SumValue(lib, e)
    decreases e, 1
  {
    EvaluateTerm(lib, e.first);
    EvaluateSumTail(lib, TermTree(e.first), e.more);
  }

  lemma EvaluateSumTail(lib: MathLibrary, sofar: Tree, m: SumTail)
    requires sofar.Node? && WellShaped(sofar)
    ensures var t := SumTailTree(sofar, m);
      t.Node? && WellShaped(t) && Evaluate(lib, t) == SumTailValue(lib, Evaluate(lib, sofar), m)
    decreases m, 0
  {
    hide Evaluate, WellShaped, AddUp, MultiplyOut;
    match m
    case SumEnd =>
    case SumMore(op, t, more) =>
      EvaluateTerm(lib, t);
      var node := Node(Add(op), sofar, TermTree(t));
      EvaluateNode(lib, Add(op), sofar, TermTree(t));
      EvaluateSumTail(lib, node, more);
  }

  lemma EvaluateTerm(lib: MathLibrary, t: Term)
    ensures var r := TermTree(t); r.Node? && WellShaped(r) && Evaluate(lib, r) == TermValue(lib, t)
    decreases t, 1
  {
    EvaluateFactor(lib, t.first);
    EvaluateTermTail(lib, FactorTree(t.first), t.more);
  }

  lemma EvaluateTermTail(lib: MathLibrary, sofar: Tree, m: TermTail)
    requires sofar.Node? && WellShaped(sofar)
    ensures var t := TermTailTree(sofar, m);
      t.Node? && WellShaped(t) && Evaluate(lib, t) == TermTailValue(lib, Evaluate(lib, sofar), m)
    decreases m, 0
  {
    hide Evaluate, WellShaped, AddUp, MultiplyOut;
    match m
    case TermEnd =>
    case TermMore(op, f, more) =>
      EvaluateFactor(lib, f);
      var node := Node(Times(op), sofar, FactorTree(f));
      EvaluateNode(lib, Times(op), sofar, FactorTree(f));
      EvaluateTermTail(lib, node, more);
  }

  lemma EvaluateFactor(lib: MathLibrary, f: Factor)
    ensures var t := FactorTree(f); t.Node? && WellShaped(t) && Evaluate(lib, t) == FactorValue(lib, f)
    decreases f, 0
  {
    hide Apply, Apply2, UnaryValue, BinaryValue;
    match f
    case Leaf(_, _) =>
    case Bracket(e) => EvaluateSum(lib, e);
    case Call(fn, e) =>
      EvaluateSum(lib, e);
      EvaluateNode(lib, Fn1(fn), SumTree(e), Null);
    case Call2(fn, a, b) =>
      EvaluateSum(lib, a);
      EvaluateSum(lib, b);
      EvaluateNode(lib, Fn2(fn), SumTree(a), SumTree(b));
  }

  /** Some operand has no value, or some divisor comes out as zero. */
  predicate Spoilt(lib: MathLibrary, root: Tree)
    requires WellShaped(root)
    decreases root
  {
    root.Node? && (
      || (root.tok.Operand? && !root.tok.resolved)
      || Spoilt(lib, root.left) || Spoilt(lib, root.right)
      || (root.tok == Times(Div) && Evaluate(lib, root.right) == Success(0.0)))
  }

  /** Evaluation fails exactly then. */
  lemma FailureExactly(lib: MathLibrary, root: Tree)
    requires WellShaped(root) && root.Node?
    ensures Evaluate(lib, root) == Failure <==> Spoilt(lib, root)
    decreases root
  {
    hide UnaryValue, BinaryValue;
    if root.left.Node? {
      FailureExactly(lib, root.left);
      var l := Evaluate(lib, root.left);
      if root.right.Node? {
        FailureExactly(lib, root.right);
        var r := Evaluate(lib, root.right);
        if l.Success? && r.Success? {
          BinaryAgrees(lib, root.tok, l.value, r.value);
        }
      } else if l.Success? {
        UnaryAgrees(lib, root.tok.fn1, l.value);
      }
    }
  }
}

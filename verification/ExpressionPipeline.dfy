/** The whole way from a scanned line to a value: Parser_Mexpr_build_math_expression_tree, and what its tree evaluates
    to. */
module ExpressionPipeline {
  import opened ExpressionGrammar
  import opened Stacks
  import opened ExpressionCompiler
  import opened ExpressionParser

  function Tokens(s: seq<Lexeme>): (r: seq<Token>)
    ensures |r| == |s| && forall i :: 0 <= i < |s| ==> r[i] == s[i].tok
  {
    if s == [] then [] else Tokens(s[..|s| - 1]) + [s[|s| - 1].tok]
  }

  lemma OperatorsConcat(a: seq<Token>, b: seq<Token>)
    ensures Operators(a + b) == Operators(a) + Operators(b)
  {
    if a == [] {
      assert a + b == b;
    } else {
      assert (a + b)[1..] == a[1..] + b;
    }
  }

  lemma OperandsConcat(a: seq<Token>, b: seq<Token>)
    ensures Operands(a + b) == Operands(a) + Operands(b)
  {
    if a == [] {
      assert a + b == b;
    } else {
      assert (a + b)[1..] == a[1..] + b;
    }
  }

  lemma {:induction false} StripOfWords(s: seq<Lexeme>)
    ensures Strip(Tokens(s)) == Strip(Words(s))
  {
    if s != [] {
      var front, t := s[..|s| - 1], s[|s| - 1].tok;
      StripOfWords(front);
      StripConcat(Tokens(front), [t]);
      StripConcat(Words(front), if t.Blank? then [] else [t]);
      assert [t][1..] == [];
    }
  }

  ghost predicate Plain(s: seq<Token>)
  {
    forall t :: t in s ==> !IsBlank(t)
  }

  lemma StripPlain(s: seq<Token>)
    requires Plain(s)
    ensures Strip(s) == s
  {
    if s != [] {
      assert s[0] in s && s == [s[0]] + s[1..];
    }
  }

  lemma YieldPlain(e: Sum)
    ensures Plain(SumYield(e))
    decreases e, 1
  {
    TermYieldPlain(e.first);
    TailYieldPlain(e.more);
  }

  lemma TailYieldPlain(m: SumTail)
    ensures Plain(SumTailYield(m))
    decreases m, 0
  {
    if m.SumMore? {
      TermYieldPlain(m.term);
      TailYieldPlain(m.more);
    }
  }

  lemma TermYieldPlain(t: Term)
    ensures Plain(TermYield(t))
    decreases t, 1
  {
    FactorYieldPlain(t.first);
    TermTailYieldPlain(t.more);
  }

  lemma TermTailYieldPlain(m: TermTail)
    ensures Plain(TermTailYield(m))
    decreases m, 0
  {
    if m.TermMore? {
      FactorYieldPlain(m.factor);
      TermTailYieldPlain(m.more);
    }
  }

  lemma FactorYieldPlain(f: Factor)
    ensures Plain(FactorYield(f))
    decreases f, 0
  {
    match f
    case Bracket(e) => YieldPlain(e);
    case Leaf(_, _) =>
    case Call(_, e) => YieldPlain(e);
    case Call2(_, a, b) =>
      YieldPlain(a);
      YieldPlain(b);
  }

  /** The postfix form has the operands of the infix form, no more and no fewer. */
  lemma SumOperands(e: Sum)
    ensures Operands(SumPostfix(e)) == Operands(SumYield(e))
    decreases e, 1
  {
    TermOperands(e.first);
    SumTailOperands(TermPostfix(e.first), e.more);
    OperandsConcat(TermYield(e.first), SumTailYield(e.more));
  }

  lemma SumTailOperands(sofar: seq<Token>, m: SumTail)
    ensures Operands(SumTailPostfix(sofar, m)) == Operands(sofar) + Operands(SumTailYield(m))
    decreases m, 0
  {
    match m
    case SumEnd =>
    case SumMore(op, t, more) =>
      TermOperands(t);
      OperandsConcat(sofar, TermPostfix(t));
      OperandsConcat(sofar + TermPostfix(t), [Add(op)]);
      SumTailOperands(sofar + TermPostfix(t) + [Add(op)], more);
      OperandsConcat([Add(op)], TermYield(t));
      OperandsConcat([Add(op)] + TermYield(t), SumTailYield(more));
  }

  lemma TermOperands(t: Term)
    ensures Operands(TermPostfix(t)) == Operands(TermYield(t))
    decreases t, 1
  {
    FactorOperands(t.first);
    TermTailOperands(FactorPostfix(t.first), t.more);
    OperandsConcat(FactorYield(t.first), TermTailYield(t.more));
  }

  lemma TermTailOperands(sofar: seq<Token>, m: TermTail)
    ensures Operands(TermTailPostfix(sofar, m)) == Operands(sofar) + Operands(TermTailYield(m))
    decreases m, 0
  {
    match m
    case TermEnd =>
    case TermMore(op, f, more) =>
      FactorOperands(f);
      OperandsConcat(sofar, FactorPostfix(f));
      OperandsConcat(sofar + FactorPostfix(f), [Times(op)]);
      TermTailOperands(sofar + FactorPostfix(f) + [Times(op)], more);
      OperandsConcat([Times(op)], FactorYield(f));
      OperandsConcat([Times(op)] + FactorYield(f), TermTailYield(more));
  }

  lemma FactorOperands(f: Factor)
    ensures Operands(FactorPostfix(f)) == Operands(FactorYield(f))
    decreases f, 0
  {
    match f
    case Leaf(_, _) =>
    case Bracket(e) =>
      SumOperands(e);
      OperandsConcat([Open], SumYield(e));
      OperandsConcat([Open] + SumYield(e), [Close]);
    case Call(fn, e) =>
      SumOperands(e);
      OperandsConcat(SumPostfix(e), [Fn1(fn)]);
      OperandsConcat([Fn1(fn), Open], SumYield(e));
      OperandsConcat([Fn1(fn), Open] + SumYield(e), [Close]);
    case Call2(fn, a, b) =>
      SumOperands(a);
      SumOperands(b);
      OperandsConcat(SumPostfix(a), SumPostfix(b));
      OperandsConcat(SumPostfix(a) + SumPostfix(b), [Fn2(fn)]);
      OperandsConcat([Fn2(fn), Open], SumYield(a));
      OperandsConcat([Fn2(fn), Open] + SumYield(a), [Comma]);
      OperandsConcat([Fn2(fn), Open] + SumYield(a) + [Comma], SumYield(b));
      OperandsConcat([Fn2(fn), Open] + SumYield(a) + [Comma] + SumYield(b), [Close]);
  }

  lemma WordsBetween(text: seq<Lexeme>, before: seq<Lexeme>, after: seq<Lexeme>)
    requires before <= after <= text
    ensures |Words(before)| <= |Words(after)| <= |Words(text)|
    ensures Words(after[|before|..]) == Words(text)[|Words(before)|..|Words(after)|]
  {
    hide Words;
    assert after == before + after[|before|..] && text == after + text[|after|..];
    WordsConcat(before, after[|before|..]);
    WordsConcat(after, text[|after|..]);
  }

  /** The part of the undo stack a successful parse added is the sentence it accepted, white space apart. */
  lemma Consumed(text: seq<Lexeme>, before: seq<Lexeme>, after: seq<Lexeme>, e: Sum)
    requires before <= after <= text
    requires |Words(before)| <= |Words(text)|
    requires ParseSum(Words(text), |Words(before)|) == Some((e, |Words(after)|))
    ensures Strip(Tokens(after[|before|..])) == SumYield(e)
  {
    hide ParseSum, SumYield, Words, Strip, Tokens;
    var w, part := Words(text), after[|before|..];
    WordsBetween(text, before, after);
    SumSound(w, |Words(before)|);
    StripOfWords(part);
    YieldPlain(e);
    StripPlain(SumYield(e));
  }

  lemma Within(w: seq<Token>, i: nat, j: nat)
    requires i <= j <= |w|
    ensures Operators(w[i..j]) <= Operators(w) && Operands(w[i..j]) <= Operands(w)
  {
    assert w == w[..i] + w[i..j] + w[j..];
    OperatorsConcat(w[..i] + w[i..j], w[j..]);
    OperatorsConcat(w[..i], w[i..j]);
    OperandsConcat(w[..i] + w[i..j], w[j..]);
    OperandsConcat(w[..i], w[i..j]);
  }

  /** The sentence that stands in w from i on, if there is one, fits the 256 slots of the stack in both conversions. */
  ghost predicate RoomFor(w: seq<Token>, i: nat)
    requires i <= |w|
  {
    match ParseSum(w, i)
    case None => true
    case Some((e, _)) => ShuntFits(State([], [], true), SumYield(e)) && BuildFits([], SumPostfix(e))
  }

  /** A line of few enough operators and operands has room, whatever stands in it. */
  lemma FewTokensFit(w: seq<Token>, i: nat)
    requires i <= |w| && Operators(w) <= MAX_STACK_SIZE && Operands(w) <= MAX_STACK_SIZE
    ensures RoomFor(w, i)
  {
    hide ParseSum, SumYield, SumPostfix, Operators, Operands, ShuntFits, BuildFits;
    if ParseSum(w, i).Some? {
      var (e, j) := ParseSum(w, i).value;
      SumSound(w, i);
      Within(w, i, j);
      FewOperatorsFit(State([], [], true), SumYield(e));
      SumOperands(e);
      FewOperandsFit([], SumPostfix(e));
    }
  }

  lemma {:induction false} CountsWithin(w: seq<Token>)
    ensures Operators(w) + Operands(w) <= |w|
  {
    if w != [] {
      CountsWithin(w[1..]);
    }
  }

  /** So has any line of at most 256 tokens. */
  lemma ShortLineFits(w: seq<Token>, i: nat)
    requires i <= |w| <= 256
    ensures RoomFor(w, i)
  {
    hide RoomFor;
    CountsWithin(w);
    FewTokensFit(w, i);
  }

  /** Parser_Mexpr_build_math_expression_tree: no tree and nothing consumed, or the tree of the one derivation of what
      was consumed. */
  method BuildMathExpressionTree(p: Parser) returns (rc: ParseRc, tree: Option<Tree>)
    requires p.Valid() && p.undoStack < p.text
    requires RoomFor(Words(p.text), p.At())
    modifies p
    ensures p.Valid() && old(p.undoStack) <= p.undoStack
    ensures rc == NoResult <==> LostSum(Words(p.text), old(p.At()))
    ensures match ParseSum(Words(p.text), old(p.At()))
            case None => rc != ParseSuccess && tree == None
            case Some((e, j)) => rc == ParseSuccess && p.At() == j && tree == Some(SumTree(e))
    ensures rc == ParseErr ==> p.undoStack == old(p.undoStack) && p.currPtr == old(p.currPtr)
  {
    hide ParseSum, Words, SumYield, SumPostfix, SumTree, ShuntFits, BuildFits;
    var chkp := |p.undoStack|;
    ghost var before, i := p.undoStack, p.At();
    rc := p.E();
    if rc != ParseSuccess {
      if rc == NoResult {
        LostSumRefused(Words(p.text), i);
      }
      return rc, None;
    }
    ghost var e := ParseSum(Words(p.text), i).value.0;
    var part := p.undoStack[chkp..];
    Consumed(p.text, before, p.undoStack, e);
    FitsStrip(State([], [], true), Tokens(part));
    var postfix := ConvertInfixToPostfix(Tokens(part));
    var root := ConvertPostfixToTree(postfix, e);
    return rc, Some(root);
  }

  /** From text to value: any sentence of the grammar, followed by something that cannot continue it, is accepted whole,
      and its tree evaluates to the sentence's value. */
  lemma SentenceToValue(lib: MathLibrary, w: seq<Token>, i: nat, e: Sum)
    requires StandsAt(w, i, SumYield(e))
    requires var j := i + |SumYield(e)|; j < |w| ==> !w[j].Add? && !w[j].Times?
    ensures ParseSum(w, i) == Some((e, i + |SumYield(e)|))
    ensures WellShaped(SumTree(e)) && Evaluate(lib, SumTree(e)) == SumValue(lib, e)
  {
    SumComplete(w, i, e);
    EvaluateSum(lib, e);
  }

  /** A sentence has one derivation only. */
  lemma OneDerivation(e: Sum, e': Sum)
    requires SumYield(e) == SumYield(e')
    ensures e == e'
  {
    var w := SumYield(e);
    assert w[0..|w|] == w;
    SumComplete(w, 0, e);
    SumComplete(w, 0, e');
  }
}

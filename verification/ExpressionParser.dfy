/** Parsers/ExpressionParser.c over the undo stack of Parsers/SQLSelectParser.l. */
module ExpressionParser {
  import opened ExpressionGrammar
  import opened Stacks
  import opened ExpressionCompiler

  // ---- the longest sentence from word i on: what it derives from and where it ends ----

  function ParseSum(w: seq<Token>, i: nat): (r: Option<(Sum, nat)>)
    requires i <= |w|
    ensures r.Some? ==> i < r.value.1 <= |w|
    decreases |w| - i, 3
  {
    match ParseTerm(w, i)
    case None => None
    case Some((t, j)) =>
      match ParseSumTail(w, j)
      case None => None
      case Some((more, k)) => Some((Sum(t, more), k))
  }

  function ParseSumTail(w: seq<Token>, i: nat): (r: Option<(SumTail, nat)>)
    requires i <= |w|
    ensures r.Some? ==> i <= r.value.1 <= |w|
    decreases |w| - i, 0
  {
    if i < |w| && w[i].Add? then
      match ParseTerm(w, i + 1)
      case None => None
      case Some((t, j)) =>
        match ParseSumTail(w, j)
        case None => None
        case Some((more, k)) => Some((SumMore(w[i].add, t, more), k))
    else Some((SumEnd, i))
  }

  function ParseTerm(w: seq<Token>, i: nat): (r: Option<(Term, nat)>)
    requires i <= |w|
    ensures r.Some? ==> i < r.value.1 <= |w|
    decreases |w| - i, 2
  {
    match ParseFactor(w, i)
    case None => None
    case Some((f, j)) =>
      match ParseTermTail(w, j)
      case None => None
      case Some((more, k)) => Some((Term(f, more), k))
  }

  function ParseTermTail(w: seq<Token>, i: nat): (r: Option<(TermTail, nat)>)
    requires i <= |w|
    ensures r.Some? ==> i <= r.value.1 <= |w|
    decreases |w| - i, 0
  {
    if i < |w| && w[i].Times? then
      match ParseFactor(w, i + 1)
      case None => None
      case Some((f, j)) =>
        match ParseTermTail(w, j)
        case None => None
        case Some((more, k)) => Some((TermMore(w[i].mul, f, more), k))
    else Some((TermEnd, i))
  }

  /** A sum followed by the token t. */
  function ParseUpTo(w: seq<Token>, i: nat, t: Token): (r: Option<(Sum, nat)>)
    requires i <= |w|
    ensures r.Some? ==> i < r.value.1 <= |w|
    decreases |w| - i, 4
  {
    match ParseSum(w, i)
    case None => None
    case Some((e, j)) => if j < |w| && w[j] == t then Some((e, j + 1)) else None
  }

  function ParseFactor(w: seq<Token>, i: nat): (r: Option<(Factor, nat)>)
    requires i <= |w|
    ensures r.Some? ==> i < r.value.1 <= |w|
    decreases |w| - i, 1
  {
    if i == |w| then None
    else match w[i]
      case Open =>
        (match ParseUpTo(w, i + 1, Close)
         case None => None
         case Some((e, j)) => Some((Bracket(e), j)))
      case Operand(resolved, value) => Some((Leaf(resolved, value), i + 1))
      case Fn1(fn) =>
        if i + 1 == |w| || w[i + 1] != Open then None else
        (match ParseUpTo(w, i + 2, Close)
         case None => None
         case Some((e, j)) => Some((Call(fn, e), j)))
      case Fn2(fn) =>
        if i + 1 == |w| || w[i + 1] != Open then None else
        (match ParseUpTo(w, i + 2, Comma)
         case None => None
         case Some((a, j)) =>
           match ParseUpTo(w, j, Close)
           case None => None
           case Some((b, k)) => Some((Call2(fn, a, b), k)))
      case _ => None
  }

  /** A condition in brackets if that works out, a comparison otherwise. */
  function ParseCondition(w: seq<Token>, i: nat): (r: Option<(Condition, nat)>)
    requires i <= |w|
    ensures r.Some? ==> i < r.value.1 <= |w|
    decreases |w| - i, 5
  {
    if i < |w| && w[i] == Open && ParseCondition(w, i + 1).Some?
       && ParseCondition(w, i + 1).value.1 < |w| && w[ParseCondition(w, i + 1).value.1] == Close
    then Some((Nested(ParseCondition(w, i + 1).value.0), ParseCondition(w, i + 1).value.1 + 1))
    else ParseComparison(w, i)
  }

  function ParseComparison(w: seq<Token>, i: nat): (r: Option<(Condition, nat)>)
    requires i <= |w|
    ensures r.Some? ==> i < r.value.1 <= |w|
    decreases |w| - i, 4
  {
    match ParseSum(w, i)
    case None => None
    case Some((l, j)) =>
      if j == |w| || !w[j].Compare? then None
      else match ParseSum(w, j + 1)
        case None => None
        case Some((r, k)) => Some((Comparing(l, w[j].comparison, r), k))
  }

  /** Where a successful parse ends. */
  function EndOf<T>(r: Option<(T, nat)>): Option<nat>
  {
    match r
    case None => None
    case Some((_, j)) => Some(j)
  }

  // ---- where F reaches its end without a result ----

  /** A unary function name without an opening bracket after it. */
  predicate Bare(w: seq<Token>, i: nat)
    requires i < |w|
  {
    w[i].Fn1? && (i + 1 == |w| || w[i + 1] != Open)
  }

  /** The parse of a sum from i on comes upon a bare name where it needs a factor. */
  predicate LostSum(w: seq<Token>, i: nat)
    requires i <= |w|
    decreases |w| - i, 3
  {
    LostTerm(w, i) || (ParseTerm(w, i).Some? && LostSumTail(w, ParseTerm(w, i).value.1))
  }

  predicate LostSumTail(w: seq<Token>, i: nat)
    requires i <= |w|
    decreases |w| - i, 0
  {
    i < |w| && w[i].Add? &&
    (LostTerm(w, i + 1) || (ParseTerm(w, i + 1).Some? && LostSumTail(w, ParseTerm(w, i + 1).value.1)))
  }

  predicate LostTerm(w: seq<Token>, i: nat)
    requires i <= |w|
    decreases |w| - i, 2
  {
    LostFactor(w, i) || (ParseFactor(w, i).Some? && LostTermTail(w, ParseFactor(w, i).value.1))
  }

  predicate LostTermTail(w: seq<Token>, i: nat)
    requires i <= |w|
    decreases |w| - i, 0
  {
    i < |w| && w[i].Times? &&
    (LostFactor(w, i + 1) || (ParseFactor(w, i + 1).Some? && LostTermTail(w, ParseFactor(w, i + 1).value.1)))
  }

  predicate LostFactor(w: seq<Token>, i: nat)
    requires i <= |w|
    decreases |w| - i, 1
  {
    i < |w| &&
    match w[i]
    case Open => LostSum(w, i + 1)
    case Fn1(_) => Bare(w, i) || LostSum(w, i + 2)
    case Fn2(_) =>
      && i + 1 < |w| && w[i + 1] == Open
      && (LostSum(w, i + 2) || (ParseUpTo(w, i + 2, Comma).Some? && LostSum(w, ParseUpTo(w, i + 2, Comma).value.1)))
    case _ => false
  }

  predicate LostCondition(w: seq<Token>, i: nat)
    requires i <= |w|
    decreases |w| - i, 5
  {
    (i < |w| && w[i] == Open && LostCondition(w, i + 1)) || (!Bracketed(w, i) && LostComparison(w, i))
  }

  /** Word i opens a condition in brackets. */
  predicate Bracketed(w: seq<Token>, i: nat)
    requires i <= |w|
  {
    i < |w| && w[i] == Open && ParseCondition(w, i + 1).Some?
    && ParseCondition(w, i + 1).value.1 < |w| && w[ParseCondition(w, i + 1).value.1] == Close
  }

  predicate LostComparison(w: seq<Token>, i: nat)
    requires i <= |w|
  {
    LostSum(w, i) || (ComparedAt(w, i) && LostSum(w, ParseSum(w, i).value.1 + 1))
  }

  /** A sum from i on, and a comparison operator after it. */
  predicate ComparedAt(w: seq<Token>, i: nat)
    requires i <= |w|
  {
    ParseSum(w, i).Some? && ParseSum(w, i).value.1 < |w| && w[ParseSum(w, i).value.1].Compare?
  }

  /** At a unary function name, F has a result exactly when a bracket follows and the sum inside has one. */
  lemma LostAtName(w: seq<Token>, i: nat)
    requires i < |w| && w[i].Fn1?
    ensures !LostFactor(w, i) <==> i + 1 < |w| && w[i + 1] == Open && !LostSum(w, i + 2)
  {
  }

  /** What is lost is not accepted: no result where a sentence stands. */
  lemma {:induction false} LostSumRefused(w: seq<Token>, i: nat)
    requires i <= |w| && LostSum(w, i)
    ensures ParseSum(w, i) == None
    decreases |w| - i, 3
  {
    if LostTerm(w, i) {
      LostTermRefused(w, i);
    } else {
      LostSumTailRefused(w, ParseTerm(w, i).value.1);
    }
  }

  lemma {:induction false} LostSumTailRefused(w: seq<Token>, i: nat)
    requires i <= |w| && LostSumTail(w, i)
    ensures ParseSumTail(w, i) == None
    decreases |w| - i, 0
  {
    if LostTerm(w, i + 1) {
      LostTermRefused(w, i + 1);
    } else {
      LostSumTailRefused(w, ParseTerm(w, i + 1).value.1);
    }
  }

  lemma {:induction false} LostTermRefused(w: seq<Token>, i: nat)
    requires i <= |w| && LostTerm(w, i)
    ensures ParseTerm(w, i) == None
    decreases |w| - i, 2
  {
    if LostFactor(w, i) {
      LostFactorRefused(w, i);
    } else {
      LostTermTailRefused(w, ParseFactor(w, i).value.1);
    }
  }

  lemma {:induction false} LostTermTailRefused(w: seq<Token>, i: nat)
    requires i <= |w| && LostTermTail(w, i)
    ensures ParseTermTail(w, i) == None
    decreases |w| - i, 0
  {
    if LostFactor(w, i + 1) {
      LostFactorRefused(w, i + 1);
    } else {
      LostTermTailRefused(w, ParseFactor(w, i + 1).value.1);
    }
  }

  lemma {:induction false} LostFactorRefused(w: seq<Token>, i: nat)
    requires i <= |w| && LostFactor(w, i)
    ensures ParseFactor(w, i) == None
    decreases |w| - i, 1
  {
    match w[i]
    case Open =>
      LostSumRefused(w, i + 1);
    case Fn1(_) =>
      if !Bare(w, i) {
        LostSumRefused(w, i + 2);
      }
    case Fn2(_) =>
      if LostSum(w, i + 2) {
        LostSumRefused(w, i + 2);
      } else {
        LostSumRefused(w, ParseUpTo(w, i + 2, Comma).value.1);
      }
  }

  /** A sum at the start of a lost condition is refused itself, or goes on with a comparison. */
  lemma {:induction false} LostConditionStart(w: seq<Token>, i: nat)
    requires i <= |w| && LostCondition(w, i)
    ensures ParseSum(w, i).Some? ==> ComparedAt(w, i)
    decreases |w| - i
  {
    if i < |w| && w[i] == Open && LostCondition(w, i + 1) {
      LostConditionStart(w, i + 1);
      OpenRefused(w, i);
    } else if LostSum(w, i) {
      LostSumRefused(w, i);
    }
  }

  lemma OpenRefused(w: seq<Token>, i: nat)
    requires i < |w| && w[i] == Open && ParseUpTo(w, i + 1, Close) == None
    ensures ParseSum(w, i) == None
  {
    assert ParseFactor(w, i) == None;
    assert ParseTerm(w, i) == None;
  }

  lemma {:induction false} LostConditionRefused(w: seq<Token>, i: nat)
    requires i <= |w| && LostCondition(w, i)
    ensures ParseCondition(w, i) == None
    decreases |w| - i
  {
    if i < |w| && w[i] == Open && LostCondition(w, i + 1) {
      LostConditionRefused(w, i + 1);
      LostConditionStart(w, i + 1);
      OpenRefused(w, i);
    } else if LostSum(w, i) {
      LostSumRefused(w, i);
    } else {
      LostSumRefused(w, ParseSum(w, i).value.1 + 1);
    }
  }

  /** sin a: F has no result, on this line or any other that starts so. */
  lemma BareNameLost(w: seq<Token>)
    requires |w| > 1 && w[0] == Fn1(Sin) && w[1].Operand?
    ensures LostFactor(w, 0) && LostSum(w, 0) && LostCondition(w, 0)
  {
  }

  lemma FactorEnd(w: seq<Token>, i: nat)
    requires i < |w|
    ensures w[i].Open? ==> EndOf(ParseFactor(w, i)) == EndOf(ParseUpTo(w, i + 1, Close))
    ensures w[i].Operand? ==> EndOf(ParseFactor(w, i)) == Some(i + 1)
    ensures w[i].Fn1? && i + 1 < |w| && w[i + 1] == Open ==>
      EndOf(ParseFactor(w, i)) == EndOf(ParseUpTo(w, i + 2, Close))
    ensures w[i].Fn2? && i + 1 < |w| ==>
      EndOf(ParseFactor(w, i)) ==
        if w[i + 1] != Open || ParseUpTo(w, i + 2, Comma).None? then None
          else EndOf(ParseUpTo(w, ParseUpTo(w, i + 2, Comma).value.1, Close))
    ensures !w[i].Open? && !w[i].Operand? && !w[i].Fn1? && !w[i].Fn2? ==> EndOf(ParseFactor(w, i)) == None
  {
    hide ParseUpTo;
  }

  lemma ConditionEnd(w: seq<Token>, i: nat)
    requires i < |w|
    ensures var inner := EndOf(ParseCondition(w, i + 1));
      EndOf(ParseCondition(w, i)) ==
        if w[i] == Open && inner.Some? && inner.value < |w| && w[inner.value] == Close then Some(inner.value + 1)
        else EndOf(ParseComparison(w, i))
  {
    hide ParseComparison;
  }

  lemma ComparisonEnd(w: seq<Token>, i: nat)
    requires i < |w|
    ensures EndOf(ParseComparison(w, i)) ==
      match EndOf(ParseSum(w, i))
      case None => None
      case Some(j) => if j < |w| && w[j].Compare? then EndOf(ParseSum(w, j + 1)) else None
  {
    hide ParseSum;
  }

  // ---- what is accepted derives from the grammar ----

  lemma Joined(w: seq<Token>, i: nat, j: nat, k: nat)
    requires i <= j <= k <= |w|
    ensures w[i..j] + w[j..k] == w[i..k]
  {
  }

  lemma {:induction false} SumSound(w: seq<Token>, i: nat)
    requires i <= |w| && ParseSum(w, i).Some?
    ensures var (e, j) := ParseSum(w, i).value; w[i..j] == SumYield(e)
    decreases |w| - i, 3
  {
    TermSound(w, i);
    var j := ParseTerm(w, i).value.1;
    SumTailSound(w, j);
    Joined(w, i, j, ParseSum(w, i).value.1);
  }

  lemma {:induction false} SumTailSound(w: seq<Token>, i: nat)
    requires i <= |w| && ParseSumTail(w, i).Some?
    ensures var (m, j) := ParseSumTail(w, i).value; w[i..j] == SumTailYield(m)
    decreases |w| - i, 0
  {
    hide ParseTerm, TermYield;
    if i < |w| && w[i].Add? {
      TermSound(w, i + 1);
      var j := ParseTerm(w, i + 1).value.1;
      SumTailSound(w, j);
      Joined(w, i, i + 1, j);
      Joined(w, i, j, ParseSumTail(w, i).value.1);
    }
  }

  lemma {:induction false} TermSound(w: seq<Token>, i: nat)
    requires i <= |w| && ParseTerm(w, i).Some?
    ensures var (t, j) := ParseTerm(w, i).value; w[i..j] == TermYield(t)
    decreases |w| - i, 2
  {
    FactorSound(w, i);
    var j := ParseFactor(w, i).value.1;
    TermTailSound(w, j);
    Joined(w, i, j, ParseTerm(w, i).value.1);
  }

  lemma {:induction false} TermTailSound(w: seq<Token>, i: nat)
    requires i <= |w| && ParseTermTail(w, i).Some?
    ensures var (m, j) := ParseTermTail(w, i).value; w[i..j] == TermTailYield(m)
    decreases |w| - i, 0
  {
    hide ParseFactor, FactorYield;
    if i < |w| && w[i].Times? {
      FactorSound(w, i + 1);
      var j := ParseFactor(w, i + 1).value.1;
      TermTailSound(w, j);
      Joined(w, i, i + 1, j);
      Joined(w, i, j, ParseTermTail(w, i).value.1);
    }
  }

  lemma {:induction false} UpToSound(w: seq<Token>, i: nat, t: Token)
    requires i <= |w| && ParseUpTo(w, i, t).Some?
    ensures var (e, j) := ParseUpTo(w, i, t).value; w[i..j] == SumYield(e) + [t]
    decreases |w| - i, 4
  {
    SumSound(w, i);
    var j := ParseSum(w, i).value.1;
    Joined(w, i, j, j + 1);
  }

  lemma {:induction false} FactorSound(w: seq<Token>, i: nat)
    requires i <= |w| && ParseFactor(w, i).Some?
    ensures var (f, j) := ParseFactor(w, i).value; w[i..j] == FactorYield(f)
    decreases |w| - i, 1
  {
    hide ParseUpTo, SumYield;
    var (f, j) := ParseFactor(w, i).value;
    match f
    case Bracket(e) =>
      UpToSound(w, i + 1, Close);
      Joined(w, i, i + 1, j);
    case Leaf(_, _) =>
    case Call(fn, e) =>
      UpToSound(w, i + 2, Close);
      Joined(w, i, i + 2, j);
    case Call2(fn, a, b) =>
      UpToSound(w, i + 2, Comma);
      var k := ParseUpTo(w, i + 2, Comma).value.1;
      UpToSound(w, k, Close);
      Joined(w, i, i + 2, k);
      Joined(w, i, k, j);
  }

  lemma {:induction false} ConditionSound(w: seq<Token>, i: nat)
    requires i <= |w| && ParseCondition(w, i).Some?
    ensures var (c, j) := ParseCondition(w, i).value; w[i..j] == ConditionYield(c)
    decreases |w| - i
  {
    hide ParseComparison;
    var (c, j) := ParseCondition(w, i).value;
    if Bracketed(w, i) {
      ConditionSound(w, i + 1);
      Joined(w, i, i + 1, j - 1);
      Joined(w, i, j - 1, j);
    } else {
      ComparisonSound(w, i);
    }
  }

  lemma ComparisonSound(w: seq<Token>, i: nat)
    requires i <= |w| && ParseComparison(w, i).Some?
    ensures var (c, j) := ParseComparison(w, i).value; c.Comparing? && w[i..j] == ConditionYield(c)
  {
    hide ParseSum, SumYield;
    var (c, j) := ParseComparison(w, i).value;
    SumSound(w, i);
    var k := ParseSum(w, i).value.1;
    SumSound(w, k + 1);
    Joined(w, i, k, k + 1);
    Joined(w, i, k + 1, j);
  }

  // ---- every sentence of the grammar is accepted, as the derivation it comes from ----

  /** s stands in w from i on. */
  predicate StandsAt(w: seq<Token>, i: nat, s: seq<Token>)
  {
    i + |s| <= |w| && w[i..i + |s|] == s
  }

  lemma StandsSplit(w: seq<Token>, i: nat, a: seq<Token>, b: seq<Token>)
    requires StandsAt(w, i, a + b)
    ensures StandsAt(w, i, a) && StandsAt(w, i + |a|, b)
  {
    var m := i + |a|;
    assert w[i..m] == w[i..m + |b|][..|a|] && w[m..m + |b|] == w[i..m + |b|][|a|..];
    assert (a + b)[..|a|] == a && (a + b)[|a|..] == b;
  }

  lemma StandsFirst(w: seq<Token>, i: nat, s: seq<Token>)
    requires StandsAt(w, i, s)
    ensures i + |s| <= |w|
    ensures s != [] ==> w[i] == s[0]
    ensures |s| > 1 ==> w[i + 1] == s[1]
  {
    var v := w[i..i + |s|];
    assert s != [] ==> v[0] == w[i];
    assert |s| > 1 ==> v[1] == w[i + 1];
  }

  lemma {:induction false} SumComplete(w: seq<Token>, i: nat, e: Sum)
    requires StandsAt(w, i, SumYield(e))
    requires var j := i + |SumYield(e)|; j < |w| ==> !w[j].Add? && !w[j].Times?
    ensures ParseSum(w, i) == Some((e, i + |SumYield(e)|))
    decreases e, 1
  {
    hide StandsAt, TermYield, ParseTerm, ParseSumTail;
    StandsSplit(w, i, TermYield(e.first), SumTailYield(e.more));
    StandsFirst(w, i + |TermYield(e.first)|, SumTailYield(e.more));
    TermComplete(w, i, e.first);
    SumTailComplete(w, i + |TermYield(e.first)|, e.more);
  }

  lemma {:induction false} SumTailComplete(w: seq<Token>, i: nat, m: SumTail)
    requires StandsAt(w, i, SumTailYield(m))
    requires var j := i + |SumTailYield(m)|; j < |w| ==> !w[j].Add? && (m == SumEnd || !w[j].Times?)
    ensures ParseSumTail(w, i) == Some((m, i + |SumTailYield(m)|))
    decreases m, 0
  {
    hide StandsAt, TermYield, ParseTerm;
    match m
    case SumEnd =>
    case SumMore(op, t, more) =>
      StandsSplit(w, i, [Add(op)] + TermYield(t), SumTailYield(more));
      StandsSplit(w, i, [Add(op)], TermYield(t));
      StandsFirst(w, i, [Add(op)]);
      TermComplete(w, i + 1, t);
      SumTailComplete(w, i + 1 + |TermYield(t)|, more);
  }

  lemma {:induction false} TermComplete(w: seq<Token>, i: nat, t: Term)
    requires StandsAt(w, i, TermYield(t))
    requires var j := i + |TermYield(t)|; j < |w| ==> !w[j].Times?
    ensures ParseTerm(w, i) == Some((t, i + |TermYield(t)|))
    decreases t, 1
  {
    hide StandsAt, FactorYield, TermTailYield, ParseFactor, ParseTermTail;
    StandsSplit(w, i, FactorYield(t.first), TermTailYield(t.more));
    FactorComplete(w, i, t.first);
    TermTailComplete(w, i + |FactorYield(t.first)|, t.more);
  }

  lemma {:induction false} TermTailComplete(w: seq<Token>, i: nat, m: TermTail)
    requires StandsAt(w, i, TermTailYield(m))
    requires var j := i + |TermTailYield(m)|; j < |w| ==> !w[j].Times?
    ensures ParseTermTail(w, i) == Some((m, i + |TermTailYield(m)|))
    decreases m, 0
  {
    hide StandsAt, FactorYield, ParseFactor;
    match m
    case TermEnd =>
    case TermMore(op, f, more) =>
      StandsSplit(w, i, [Times(op)] + FactorYield(f), TermTailYield(more));
      StandsSplit(w, i, [Times(op)], FactorYield(f));
      StandsFirst(w, i, [Times(op)]);
      FactorComplete(w, i + 1, f);
      TermTailComplete(w, i + 1 + |FactorYield(f)|, more);
  }

  lemma {:induction false} UpToComplete(w: seq<Token>, i: nat, e: Sum, t: Token)
    requires StandsAt(w, i, SumYield(e) + [t]) && !t.Add? && !t.Times?
    ensures ParseUpTo(w, i, t) == Some((e, i + |SumYield(e)| + 1))
    decreases e, 2
  {
    hide StandsAt, SumYield, ParseSum;
    StandsSplit(w, i, SumYield(e), [t]);
    var j := i + |SumYield(e)|;
    StandsFirst(w, j, [t]);
    SumComplete(w, i, e);
  }

  lemma {:induction false} FactorComplete(w: seq<Token>, i: nat, f: Factor)
    requires StandsAt(w, i, FactorYield(f))
    ensures ParseFactor(w, i) == Some((f, i + |FactorYield(f)|))
    decreases f, 0
  {
    hide StandsAt, SumYield, ParseUpTo;
    var y := FactorYield(f);
    StandsFirst(w, i, y);
    match f
    case Leaf(_, _) =>
    case Bracket(e) =>
      assert y == [Open] + (SumYield(e) + [Close]);
      StandsSplit(w, i, [Open], SumYield(e) + [Close]);
      UpToComplete(w, i + 1, e, Close);
    case Call(fn, e) =>
      assert y == [Fn1(fn), Open] + (SumYield(e) + [Close]);
      StandsSplit(w, i, [Fn1(fn), Open], SumYield(e) + [Close]);
      UpToComplete(w, i + 2, e, Close);
    case Call2(fn, a, b) =>
      assert y == [Fn2(fn), Open] + ((SumYield(a) + [Comma]) + (SumYield(b) + [Close]));
      StandsSplit(w, i, [Fn2(fn), Open], (SumYield(a) + [Comma]) + (SumYield(b) + [Close]));
      StandsSplit(w, i + 2, SumYield(a) + [Comma], SumYield(b) + [Close]);
      UpToComplete(w, i + 2, a, Comma);
      UpToComplete(w, i + 2 + |SumYield(a)| + 1, b, Close);
  }

  /** A closing bracket comes where a comparison is needed: the bracket before an arithmetic expression does not open a
      condition. */
  lemma {:induction false} NoCondition(w: seq<Token>, i: nat, e: Sum)
    requires StandsAt(w, i, SumYield(e) + [Close])
    ensures ParseCondition(w, i) == None
    decreases e
  {
    UpToComplete(w, i, e, Close);
    StandsSplit(w, i, SumYield(e), [Close]);
    StandsFirst(w, i, SumYield(e));
    if w[i] == Open {
      NoBracketedCondition(w, i, e);
    }
  }

  /** Nor does the bracket that starts an arithmetic expression. */
  lemma {:induction false} NoBracketedCondition(w: seq<Token>, i: nat, e: Sum)
    requires StandsAt(w, i, SumYield(e)) && w[i] == Open
    ensures ParseCondition(w, i + 1) == None
    decreases e, 0
  {
    hide StandsAt, ParseCondition;
    StandsSplit(w, i, TermYield(e.first), SumTailYield(e.more));
    var f := e.first.first;
    StandsSplit(w, i, FactorYield(f), TermTailYield(e.first.more));
    StandsFirst(w, i, FactorYield(f));
    assert FactorYield(f) == [Open] + (SumYield(f.inner) + [Close]);
    StandsSplit(w, i, [Open], SumYield(f.inner) + [Close]);
    NoCondition(w, i + 1, f.inner);
  }

  lemma {:induction false} ConditionComplete(w: seq<Token>, i: nat, c: Condition)
    requires StandsAt(w, i, ConditionYield(c))
    requires var j := i + |ConditionYield(c)|; c.Comparing? && j < |w| ==> !w[j].Add? && !w[j].Times?
    ensures ParseCondition(w, i) == Some((c, i + |ConditionYield(c)|))
    decreases c
  {
    hide StandsAt, SumYield, ParseSum;
    var y := ConditionYield(c);
    match c
    case Nested(inner) =>
      StandsFirst(w, i, y);
      assert y == [Open] + (ConditionYield(inner) + [Close]);
      StandsSplit(w, i, [Open], ConditionYield(inner) + [Close]);
      StandsSplit(w, i + 1, ConditionYield(inner), [Close]);
      var j := i + 1 + |ConditionYield(inner)|;
      StandsFirst(w, j, [Close]);
      ConditionComplete(w, i + 1, inner);
    case Comparing(l, ineq, r) =>
      StandsSplit(w, i, SumYield(l) + [Compare(ineq)], SumYield(r));
      StandsSplit(w, i, SumYield(l), [Compare(ineq)]);
      var j := i + |SumYield(l)|;
      StandsFirst(w, j, [Compare(ineq)]);
      SumComplete(w, i, l);
      SumComplete(w, j + 1, r);
      if w[i] == Open {
        NoBracketedCondition(w, i, l);
      }
  }

  // ---- a parse stops only where no operator goes on ----

  lemma {:induction false} SumTailStops(w: seq<Token>, i: nat)
    requires i <= |w| && ParseSumTail(w, i).Some?
    ensures var (m, j) := ParseSumTail(w, i).value; j < |w| ==> !w[j].Add? && (m == SumEnd || !w[j].Times?)
    decreases |w| - i
  {
    hide ParseTerm;
    if i < |w| && w[i].Add? {
      TermStops(w, i + 1);
      SumTailStops(w, ParseTerm(w, i + 1).value.1);
    }
  }

  lemma TermStops(w: seq<Token>, i: nat)
    requires i <= |w| && ParseTerm(w, i).Some?
    ensures var (_, j) := ParseTerm(w, i).value; j < |w| ==> !w[j].Times?
  {
    hide ParseFactor;
    TermTailStops(w, ParseFactor(w, i).value.1);
  }

  lemma {:induction false} TermTailStops(w: seq<Token>, i: nat)
    requires i <= |w| && ParseTermTail(w, i).Some?
    ensures var (_, j) := ParseTermTail(w, i).value; j < |w| ==> !w[j].Times?
    decreases |w| - i
  {
    hide ParseFactor;
    if i < |w| && w[i].Times? {
      TermTailStops(w, ParseFactor(w, i + 1).value.1);
    }
  }

  lemma SumStops(w: seq<Token>, i: nat)
    requires i <= |w| && ParseSum(w, i).Some?
    ensures var (_, j) := ParseSum(w, i).value; j < |w| ==> !w[j].Add? && !w[j].Times?
  {
    hide ParseTerm;
    TermStops(w, i);
    SumTailStops(w, ParseTerm(w, i).value.1);
  }

  // ---- so acceptance is exactly this: the derivation stands there and no operator goes on ----

  lemma SumExactly(w: seq<Token>, i: nat, e: Sum, j: nat)
    requires i <= |w|
    ensures ParseSum(w, i) == Some((e, j)) <==>
              StandsAt(w, i, SumYield(e)) && j == i + |SumYield(e)| && (j < |w| ==> !w[j].Add? && !w[j].Times?)
  {
    hide ParseSum, SumYield;
    if ParseSum(w, i) == Some((e, j)) {
      SumSound(w, i);
      SumStops(w, i);
    } else if StandsAt(w, i, SumYield(e)) && j == i + |SumYield(e)| && (j < |w| ==> !w[j].Add? && !w[j].Times?) {
      SumComplete(w, i, e);
    }
  }

  lemma SumTailExactly(w: seq<Token>, i: nat, m: SumTail, j: nat)
    requires i <= |w|
    ensures ParseSumTail(w, i) == Some((m, j)) <==>
              && StandsAt(w, i, SumTailYield(m)) && j == i + |SumTailYield(m)|
              && (j < |w| ==> !w[j].Add? && (m == SumEnd || !w[j].Times?))
  {
    hide ParseSumTail, SumTailYield;
    if ParseSumTail(w, i) == Some((m, j)) {
      SumTailSound(w, i);
      SumTailStops(w, i);
    } else if && StandsAt(w, i, SumTailYield(m)) && j == i + |SumTailYield(m)|
              && (j < |w| ==> !w[j].Add? && (m == SumEnd || !w[j].Times?)) {
      SumTailComplete(w, i, m);
    }
  }

  lemma TermExactly(w: seq<Token>, i: nat, t: Term, j: nat)
    requires i <= |w|
    ensures ParseTerm(w, i) == Some((t, j)) <==>
              StandsAt(w, i, TermYield(t)) && j == i + |TermYield(t)| && (j < |w| ==> !w[j].Times?)
  {
    hide ParseTerm, TermYield;
    if ParseTerm(w, i) == Some((t, j)) {
      TermSound(w, i);
      TermStops(w, i);
    } else if StandsAt(w, i, TermYield(t)) && j == i + |TermYield(t)| && (j < |w| ==> !w[j].Times?) {
      TermComplete(w, i, t);
    }
  }

  lemma TermTailExactly(w: seq<Token>, i: nat, m: TermTail, j: nat)
    requires i <= |w|
    ensures ParseTermTail(w, i) == Some((m, j)) <==>
              StandsAt(w, i, TermTailYield(m)) && j == i + |TermTailYield(m)| && (j < |w| ==> !w[j].Times?)
  {
    hide ParseTermTail, TermTailYield;
    if ParseTermTail(w, i) == Some((m, j)) {
      TermTailSound(w, i);
      TermTailStops(w, i);
    } else if StandsAt(w, i, TermTailYield(m)) && j == i + |TermTailYield(m)| && (j < |w| ==> !w[j].Times?) {
      TermTailComplete(w, i, m);
    }
  }

  lemma FactorExactly(w: seq<Token>, i: nat, f: Factor, j: nat)
    requires i <= |w|
    ensures ParseFactor(w, i) == Some((f, j)) <==> StandsAt(w, i, FactorYield(f)) && j == i + |FactorYield(f)|
  {
    hide ParseFactor, FactorYield;
    if ParseFactor(w, i) == Some((f, j)) {
      FactorSound(w, i);
    } else if StandsAt(w, i, FactorYield(f)) && j == i + |FactorYield(f)| {
      FactorComplete(w, i, f);
    }
  }

  /** Q: brackets may be followed by anything, a comparison by no operator. */
  lemma ConditionExactly(w: seq<Token>, i: nat, c: Condition, j: nat)
    requires i <= |w|
    ensures ParseCondition(w, i) == Some((c, j)) <==>
              && StandsAt(w, i, ConditionYield(c)) && j == i + |ConditionYield(c)|
              && (c.Comparing? && j < |w| ==> !w[j].Add? && !w[j].Times?)
  {
    hide ParseSum, ConditionYield;
    if ParseCondition(w, i) == Some((c, j)) {
      ConditionSound(w, i);
      if c.Comparing? {
        SumStops(w, ParseSum(w, i).value.1 + 1);
      }
    } else if && StandsAt(w, i, ConditionYield(c)) && j == i + |ConditionYield(c)|
              && (c.Comparing? && j < |w| ==> !w[j].Add? && !w[j].Times?) {
      ConditionComplete(w, i, c);
    }
  }

  // ---- and no result comes exactly from a bare name where a sentence could have an operand ----

  const AN_OPERAND: Token := Operand(true, 0.0)

  /** A bare name stands at k, the words from i up to it start y, and y goes on with an operand. */
  ghost predicate BareIn(w: seq<Token>, i: nat, k: nat, y: seq<Token>)
  {
    i <= k < |w| && Bare(w, k) && w[i..k] + [AN_OPERAND] <= y
  }

  lemma BareHere(w: seq<Token>, i: nat)
    requires i < |w| && Bare(w, i)
    ensures BareIn(w, i, i, [AN_OPERAND])
  {
    assert w[i..i] == [];
  }

  lemma BareAfter(w: seq<Token>, i: nat, j: nat, k: nat, b: seq<Token>, y: seq<Token>)
    requires i <= j <= |w| && BareIn(w, j, k, b) && w[i..j] + b <= y
    ensures BareIn(w, i, k, y)
  {
    Joined(w, i, j, k);
    assert w[i..k] + [AN_OPERAND] == w[i..j] + (w[j..k] + [AN_OPERAND]);
  }

  lemma PrefixCut(w: seq<Token>, i: nat, j: nat, k: nat)
    requires i <= j <= k <= |w|
    ensures var u := w[i..k] + [AN_OPERAND]; u[..j - i] == w[i..j] && u[j - i..] == w[j..k] + [AN_OPERAND]
  {
    var v := w[i..k];
    assert v[..j - i] == w[i..j] && v[j - i..] == w[j..k];
  }

  lemma BareSplit(w: seq<Token>, i: nat, k: nat, a: seq<Token>, b: seq<Token>)
    requires BareIn(w, i, k, a + b)
    ensures if k < i + |a| then BareIn(w, i, k, a) else StandsAt(w, i, a) && BareIn(w, i + |a|, k, b)
  {
    var u := w[i..k] + [AN_OPERAND];
    assert u == (a + b)[..|u|];
    if k < i + |a| {
      assert u == a[..|u|];
    } else {
      PrefixCut(w, i, i + |a|, k);
      assert a == u[..|a|];
      assert b[..|u| - |a|] == u[|a|..];
    }
  }

  lemma BareFirst(w: seq<Token>, i: nat, k: nat, y: seq<Token>)
    requires BareIn(w, i, k, y)
    ensures i <= k < |w| && Bare(w, k) && y != [] && y[0] == if k == i then AN_OPERAND else w[i]
    ensures k > i ==> |y| > 1 && y[1] == if k == i + 1 then AN_OPERAND else w[i + 1]
  {
    var u := w[i..k] + [AN_OPERAND];
    assert u[0] == y[0] && (k > i ==> u[1] == y[1]);
  }

  lemma {:induction false} LostSumAt(w: seq<Token>, i: nat) returns (k: nat, e: Sum)
    requires i <= |w| && LostSum(w, i)
    ensures BareIn(w, i, k, SumYield(e))
    decreases |w| - i, 3
  {
    hide BareIn, TermYield, ParseTerm;
    if LostTerm(w, i) {
      var t;
      k, t := LostTermAt(w, i);
      e := Sum(t, SumEnd);
      BareAfter(w, i, i, k, TermYield(t), SumYield(e));
    } else {
      TermSound(w, i);
      var (t, j) := ParseTerm(w, i).value;
      var m;
      k, m := LostSumTailAt(w, j);
      e := Sum(t, m);
      BareAfter(w, i, j, k, SumTailYield(m), SumYield(e));
    }
  }

  lemma {:induction false} LostSumTailAt(w: seq<Token>, i: nat) returns (k: nat, m: SumTail)
    requires i <= |w| && LostSumTail(w, i)
    ensures BareIn(w, i, k, SumTailYield(m))
    decreases |w| - i, 0
  {
    hide BareIn, TermYield, ParseTerm;
    var op := w[i].add;
    if LostTerm(w, i + 1) {
      var t;
      k, t := LostTermAt(w, i + 1);
      m := SumMore(op, t, SumEnd);
      BareAfter(w, i, i + 1, k, TermYield(t), SumTailYield(m));
    } else {
      TermSound(w, i + 1);
      var (t, j) := ParseTerm(w, i + 1).value;
      var more;
      k, more := LostSumTailAt(w, j);
      m := SumMore(op, t, more);
      Joined(w, i, i + 1, j);
      BareAfter(w, i, j, k, SumTailYield(more), SumTailYield(m));
    }
  }

  lemma {:induction false} LostTermAt(w: seq<Token>, i: nat) returns (k: nat, t: Term)
    requires i <= |w| && LostTerm(w, i)
    ensures BareIn(w, i, k, TermYield(t))
    decreases |w| - i, 2
  {
    hide BareIn, FactorYield, ParseFactor;
    if LostFactor(w, i) {
      var f;
      k, f := LostFactorAt(w, i);
      t := Term(f, TermEnd);
      BareAfter(w, i, i, k, FactorYield(f), TermYield(t));
    } else {
      FactorSound(w, i);
      var (f, j) := ParseFactor(w, i).value;
      var m;
      k, m := LostTermTailAt(w, j);
      t := Term(f, m);
      BareAfter(w, i, j, k, TermTailYield(m), TermYield(t));
    }
  }

  lemma {:induction false} LostTermTailAt(w: seq<Token>, i: nat) returns (k: nat, m: TermTail)
    requires i <= |w| && LostTermTail(w, i)
    ensures BareIn(w, i, k, TermTailYield(m))
    decreases |w| - i, 0
  {
    hide BareIn, FactorYield, ParseFactor;
    var op := w[i].mul;
    if LostFactor(w, i + 1) {
      var f;
      k, f := LostFactorAt(w, i + 1);
      m := TermMore(op, f, TermEnd);
      BareAfter(w, i, i + 1, k, FactorYield(f), TermTailYield(m));
    } else {
      FactorSound(w, i + 1);
      var (f, j) := ParseFactor(w, i + 1).value;
      var more;
      k, more := LostTermTailAt(w, j);
      m := TermMore(op, f, more);
      Joined(w, i, i + 1, j);
      BareAfter(w, i, j, k, TermTailYield(more), TermTailYield(m));
    }
  }

  lemma {:induction false} LostFactorAt(w: seq<Token>, i: nat) returns (k: nat, f: Factor)
    requires i <= |w| && LostFactor(w, i)
    ensures BareIn(w, i, k, FactorYield(f))
    decreases |w| - i, 1
  {
    hide BareIn, SumYield, ParseUpTo;
    var e;
    match w[i] {
      case Open =>
        k, e := LostSumAt(w, i + 1);
        f := Bracket(e);
        BareAfter(w, i, i + 1, k, SumYield(e), FactorYield(f));
      case Fn1(fn) =>
        if Bare(w, i) {
          k, f := i, Leaf(true, 0.0);
          BareHere(w, i);
        } else {
          k, e := LostSumAt(w, i + 2);
          f := Call(fn, e);
          BareAfter(w, i, i + 2, k, SumYield(e), FactorYield(f));
        }
      case Fn2(fn) =>
        if LostSum(w, i + 2) {
          k, e := LostSumAt(w, i + 2);
          f := Call2(fn, e, e);
          BareAfter(w, i, i + 2, k, SumYield(e), FactorYield(f));
        } else {
          UpToSound(w, i + 2, Comma);
          var (a, j) := ParseUpTo(w, i + 2, Comma).value;
          k, e := LostSumAt(w, j);
          f := Call2(fn, a, e);
          Joined(w, i, i + 2, j);
          BareAfter(w, i, j, k, SumYield(e), FactorYield(f));
        }
    }
  }

  lemma {:induction false} SumLost(w: seq<Token>, i: nat, k: nat, e: Sum)
    requires BareIn(w, i, k, SumYield(e))
    ensures i <= |w| && LostSum(w, i)
    decreases e, 1
  {
    hide BareIn, StandsAt, TermYield, ParseTerm, LostTerm, LostSumTail;
    var y := TermYield(e.first);
    BareSplit(w, i, k, y, SumTailYield(e.more));
    if k < i + |y| {
      TermLost(w, i, k, e.first);
    } else {
      BareFirst(w, i + |y|, k, SumTailYield(e.more));
      SumTailLost(w, i + |y|, k, e.more);
      TermComplete(w, i, e.first);
    }
  }

  lemma {:induction false} SumTailLost(w: seq<Token>, i: nat, k: nat, m: SumTail)
    requires BareIn(w, i, k, SumTailYield(m))
    ensures i < |w| && w[i].Add? && LostSumTail(w, i)
    decreases m, 0
  {
    hide BareIn, StandsAt, TermYield, ParseTerm, LostTerm;
    BareFirst(w, i, k, SumTailYield(m));
    var y, more := TermYield(m.term), m.more;
    BareSplit(w, i, k, [Add(m.op)] + y, SumTailYield(more));
    if k < i + 1 + |y| {
      BareSplit(w, i, k, [Add(m.op)], y);
      TermLost(w, i + 1, k, m.term);
    } else {
      StandsSplit(w, i, [Add(m.op)], y);
      SumTailLost(w, i + 1 + |y|, k, more);
      TermComplete(w, i + 1, m.term);
    }
  }

  lemma {:induction false} TermLost(w: seq<Token>, i: nat, k: nat, t: Term)
    requires BareIn(w, i, k, TermYield(t))
    ensures i <= |w| && LostTerm(w, i)
    decreases t, 1
  {
    hide BareIn, StandsAt, FactorYield, ParseFactor, LostFactor, LostTermTail;
    var y := FactorYield(t.first);
    BareSplit(w, i, k, y, TermTailYield(t.more));
    if k < i + |y| {
      FactorLost(w, i, k, t.first);
    } else {
      TermTailLost(w, i + |y|, k, t.more);
      FactorComplete(w, i, t.first);
    }
  }

  lemma {:induction false} TermTailLost(w: seq<Token>, i: nat, k: nat, m: TermTail)
    requires BareIn(w, i, k, TermTailYield(m))
    ensures i < |w| && w[i].Times? && LostTermTail(w, i)
    decreases m, 0
  {
    hide BareIn, StandsAt, FactorYield, ParseFactor, LostFactor;
    BareFirst(w, i, k, TermTailYield(m));
    var y, more := FactorYield(m.factor), m.more;
    BareSplit(w, i, k, [Times(m.op)] + y, TermTailYield(more));
    if k < i + 1 + |y| {
      BareSplit(w, i, k, [Times(m.op)], y);
      FactorLost(w, i + 1, k, m.factor);
    } else {
      StandsSplit(w, i, [Times(m.op)], y);
      TermTailLost(w, i + 1 + |y|, k, more);
      FactorComplete(w, i + 1, m.factor);
    }
  }

  /** The name is not the token after the sum. */
  lemma {:induction false} UpToLost(w: seq<Token>, i: nat, k: nat, e: Sum, t: Token)
    requires BareIn(w, i, k, SumYield(e) + [t]) && t != AN_OPERAND
    ensures i <= |w| && LostSum(w, i)
    decreases e, 2
  {
    hide BareIn, StandsAt, SumYield, LostSum;
    BareSplit(w, i, k, SumYield(e), [t]);
    if k < i + |SumYield(e)| {
      SumLost(w, i, k, e);
    } else {
      BareFirst(w, i + |SumYield(e)|, k, [t]);
    }
  }

  lemma {:induction false} FactorLost(w: seq<Token>, i: nat, k: nat, f: Factor)
    requires BareIn(w, i, k, FactorYield(f))
    ensures i < |w| && LostFactor(w, i)
    decreases f, 0
  {
    hide BareIn, StandsAt, SumYield, ParseUpTo, LostSum;
    var y := FactorYield(f);
    BareFirst(w, i, k, y);
    match f
    case Leaf(_, _) =>
    case Bracket(e) =>
      assert y == [Open] + (SumYield(e) + [Close]);
      BareSplit(w, i, k, [Open], SumYield(e) + [Close]);
      UpToLost(w, i + 1, k, e, Close);
    case Call(fn, e) =>
      assert y == [Fn1(fn), Open] + (SumYield(e) + [Close]);
      BareSplit(w, i, k, [Fn1(fn), Open], SumYield(e) + [Close]);
      UpToLost(w, i + 2, k, e, Close);
    case Call2(fn, a, b) =>
      var u, v := SumYield(a) + [Comma], SumYield(b) + [Close];
      assert y == [Fn2(fn), Open] + (u + v);
      BareSplit(w, i, k, [Fn2(fn), Open], u + v);
      BareSplit(w, i + 2, k, u, v);
      if k < i + 2 + |u| {
        UpToLost(w, i + 2, k, a, Comma);
      } else {
        UpToComplete(w, i + 2, a, Comma);
        UpToLost(w, i + 2 + |u|, k, b, Close);
      }
  }

  /** E has no result exactly when the words up to some bare name start a sentence that has an operand there. */
  lemma LostSumExactly(w: seq<Token>, i: nat)
    requires i <= |w|
    ensures LostSum(w, i) <==> exists k, e :: BareIn(w, i, k, SumYield(e))
  {
    hide BareIn, LostSum;
    if LostSum(w, i) {
      var k, e := LostSumAt(w, i);
    }
    forall k, e | BareIn(w, i, k, SumYield(e)) ensures LostSum(w, i) {
      SumLost(w, i, k, e);
    }
  }

  /** The same for F. */
  lemma LostFactorExactly(w: seq<Token>, i: nat)
    requires i <= |w|
    ensures LostFactor(w, i) <==> exists k, f :: BareIn(w, i, k, FactorYield(f))
  {
    hide BareIn, LostFactor;
    if LostFactor(w, i) {
      var k, f := LostFactorAt(w, i);
    }
    forall k, f | BareIn(w, i, k, FactorYield(f)) ensures LostFactor(w, i) {
      FactorLost(w, i, k, f);
    }
  }

  lemma {:induction false} LostConditionAt(w: seq<Token>, i: nat) returns (k: nat, c: Condition)
    requires i <= |w| && LostCondition(w, i)
    ensures BareIn(w, i, k, ConditionYield(c))
    decreases |w| - i
  {
    hide BareIn, SumYield, ParseSum, LostSum;
    if i < |w| && w[i] == Open && LostCondition(w, i + 1) {
      var inner;
      k, inner := LostConditionAt(w, i + 1);
      c := Nested(inner);
      BareAfter(w, i, i + 1, k, ConditionYield(inner), ConditionYield(c));
    } else {
      var e;
      if LostSum(w, i) {
        k, e := LostSumAt(w, i);
        c := Comparing(e, Less, e);
        BareAfter(w, i, i, k, SumYield(e), ConditionYield(c));
      } else {
        SumSound(w, i);
        var (l, j) := ParseSum(w, i).value;
        k, e := LostSumAt(w, j + 1);
        c := Comparing(l, w[j].comparison, e);
        Joined(w, i, j, j + 1);
        BareAfter(w, i, j + 1, k, SumYield(e), ConditionYield(c));
      }
    }
  }

  /** A name lost in the left side of a comparison is lost to Q, however deep Q first takes brackets for its own. */
  lemma {:induction false} LeftLost(w: seq<Token>, i: nat, k: nat, l: Sum)
    requires BareIn(w, i, k, SumYield(l))
    ensures i <= |w| && LostCondition(w, i)
    decreases l
  {
    hide StandsAt, ParseCondition, LostSum;
    SumLost(w, i, k, l);
    BareFirst(w, i, k, SumYield(l));
    if w[i] == Open {
      var f := l.first.first;
      assert SumYield(l) == FactorYield(f) + (TermTailYield(l.first.more) + SumTailYield(l.more));
      BareSplit(w, i, k, FactorYield(f), TermTailYield(l.first.more) + SumTailYield(l.more));
      var y := SumYield(f.inner) + [Close];
      assert FactorYield(f) == [Open] + y;
      if k < i + |FactorYield(f)| {
        BareSplit(w, i, k, [Open], y);
        BareSplit(w, i + 1, k, SumYield(f.inner), [Close]);
        if k == i + |y| {
          BareFirst(w, k, k, [Close]);
        }
        LeftLost(w, i + 1, k, f.inner);
      } else {
        StandsSplit(w, i, [Open], y);
        NoCondition(w, i + 1, f.inner);
      }
    }
  }

  lemma {:induction false} ConditionLost(w: seq<Token>, i: nat, k: nat, c: Condition)
    requires BareIn(w, i, k, ConditionYield(c))
    ensures i <= |w| && LostCondition(w, i)
    decreases c
  {
    hide BareIn, StandsAt, SumYield, ParseSum, ParseCondition, LostSum;
    match c
    case Nested(inner) =>
      BareFirst(w, i, k, ConditionYield(c));
      var y := ConditionYield(inner);
      assert ConditionYield(c) == [Open] + (y + [Close]);
      BareSplit(w, i, k, [Open], y + [Close]);
      BareSplit(w, i + 1, k, y, [Close]);
      if k >= i + 1 + |y| {
        BareFirst(w, i + 1 + |y|, k, [Close]);
      }
      ConditionLost(w, i + 1, k, inner);
    case Comparing(l, ineq, r) =>
      var y := SumYield(l) + [Compare(ineq)];
      BareSplit(w, i, k, y, SumYield(r));
      if k < i + |y| {
        BareSplit(w, i, k, SumYield(l), [Compare(ineq)]);
        if k == i + |SumYield(l)| {
          BareFirst(w, k, k, [Compare(ineq)]);
        }
        LeftLost(w, i, k, l);
      } else {
        RightLost(w, i, k, l, ineq, r);
      }
  }

  lemma RightLost(w: seq<Token>, i: nat, k: nat, l: Sum, ineq: Comparison, r: Sum)
    requires StandsAt(w, i, SumYield(l) + [Compare(ineq)])
    requires BareIn(w, i + |SumYield(l)| + 1, k, SumYield(r))
    ensures LostCondition(w, i)
  {
    hide BareIn, SumYield, ParseSum, ParseCondition, LostSum;
    StandsSplit(w, i, SumYield(l), [Compare(ineq)]);
    var j := i + |SumYield(l)|;
    StandsFirst(w, j, [Compare(ineq)]);
    SumComplete(w, i, l);
    SumLost(w, j + 1, k, r);
    if w[i] == Open {
      NoBracketedCondition(w, i, l);
    }
  }

  /** The same for Q, although it backs up from brackets. */
  lemma LostConditionExactly(w: seq<Token>, i: nat)
    requires i <= |w|
    ensures LostCondition(w, i) <==> exists k, c :: BareIn(w, i, k, ConditionYield(c))
  {
    hide BareIn, LostCondition;
    if LostCondition(w, i) {
      var k, c := LostConditionAt(w, i);
    }
    forall k, c | BareIn(w, i, k, ConditionYield(c)) ensures LostCondition(w, i) {
      ConditionLost(w, i, k, c);
    }
  }

  /** Every unary function name from i on is followed by an opening bracket. */
  ghost predicate CallsOpen(w: seq<Token>, i: nat)
  {
    forall k :: i <= k < |w| ==> !Bare(w, k)
  }

  /** Then F always has a result. */
  lemma NeverLost(w: seq<Token>, i: nat)
    requires i <= |w| && CallsOpen(w, i)
    ensures !LostSum(w, i) && !LostFactor(w, i) && !LostCondition(w, i)
  {
    LostSumExactly(w, i);
    LostFactorExactly(w, i);
    LostConditionExactly(w, i);
  }

  /** What a parsing function returns; NoResult where the original reaches its end without returning. */
  datatype ParseRc = ParseSuccess | ParseErr | NoResult

  // ---- the scanner and the undo stack ----

  /** What the scanner delivers: a token and how many characters it took. */
  datatype Lexeme = Lexeme(tok: Token, len: nat)

  /** The tokens the parser sees: everything but the blanks the scanner records by itself. */
  function Words(s: seq<Lexeme>): (r: seq<Token>)
    ensures |r| <= |s|
  {
    if s == [] then []
    else Words(s[..|s| - 1]) + if s[|s| - 1].tok.Blank? then [] else [s[|s| - 1].tok]
  }

  function Width(s: seq<Lexeme>): nat
  {
    if s == [] then 0 else Width(s[..|s| - 1]) + s[|s| - 1].len
  }

  /** The lexeme that starts at character pos. */
  function LexemeAt(text: seq<Lexeme>, pos: int): Option<Lexeme>
  {
    if text == [] || pos < 0 then None
    else if pos == 0 then Some(text[0])
    else LexemeAt(text[1..], pos - text[0].len)
  }

  lemma {:induction false} WidthConcat(a: seq<Lexeme>, b: seq<Lexeme>)
    ensures Width(a + b) == Width(a) + Width(b)
  {
    if b == [] {
      assert a + b == a;
    } else {
      WidthConcat(a, b[..|b| - 1]);
      assert (a + b)[..|a + b| - 1] == a + b[..|b| - 1];
    }
  }

  lemma {:induction false} WordsConcat(a: seq<Lexeme>, b: seq<Lexeme>)
    ensures Words(a + b) == Words(a) + Words(b)
  {
    if b == [] {
      assert a + b == a;
    } else {
      WordsConcat(a, b[..|b| - 1]);
      assert (a + b)[..|a + b| - 1] == a + b[..|b| - 1];
    }
  }

  /** With no empty lexemes, the character position after n lexemes determines lexeme n. */
  lemma {:induction false} LexemeAfter(text: seq<Lexeme>, n: nat)
    requires n < |text| && forall x :: x in text ==> x.len > 0
    ensures LexemeAt(text, Width(text[..n])) == Some(text[n])
  {
    if n > 0 {
      assert text[..n] == [text[0]] + text[1..][..n - 1];
      WidthConcat([text[0]], text[1..][..n - 1]);
      assert [text[0]][..0] == [];
      LexemeAfter(text[1..], n - 1);
      WidthPositive(text[..n]);
      assert text[0] in text;
    }
  }

  lemma WidthPositive(s: seq<Lexeme>)
    requires s != [] && forall x :: x in s ==> x.len > 0
    ensures Width(s) > 0
  {
    assert s[|s| - 1] in s;
  }

  /** A non-blank lexeme is the next word after the words before it. */
  lemma WordAt(text: seq<Lexeme>, n: nat)
    requires n < |text|
    ensures text[..n + 1] == text[..n] + [text[n]]
    ensures text[n].tok.Blank? ==> Words(text[..n + 1]) == Words(text[..n])
    ensures !text[n].tok.Blank? ==> Words(text[..n + 1]) == Words(text[..n]) + [text[n].tok]
    ensures !text[n].tok.Blank? ==> |Words(text[..n])| < |Words(text)| && Words(text)[|Words(text[..n])|] == text[n].tok
  {
    assert text[..n + 1][..n] == text[..n];
    assert text == text[..n + 1] + text[n + 1..];
    WordsConcat(text[..n + 1], text[n + 1..]);
  }

  class Parser {
    const text: seq<Lexeme>        // what the scanner finds in lex_buffer
    var undoStack: seq<Lexeme>
    var currPtr: nat               // characters from the start of lex_buffer

    /** The undo stack holds what was scanned so far, and the cursor is the sum of its lengths. */
    ghost predicate Valid()
      reads this
    {
      && undoStack <= text && 0 < |text| <= MAX_MEXPR_LEN && currPtr == Width(undoStack)
      && text[|text| - 1].tok.Eol? && (forall x :: x in text ==> x.len > 0)
    }

    /** How many words have been consumed. */
    ghost function At(): (i: nat)
      reads this
      requires undoStack <= text
      ensures i <= |Words(text)|
    {
      WordsConcat(undoStack, text[|undoStack|..]);
      assert text == undoStack + text[|undoStack|..];
      |Words(undoStack)|
    }

    constructor (line: seq<Lexeme>)
      requires line != [] && |line| <= MAX_MEXPR_LEN && line[|line| - 1].tok.Eol?
      requires forall x :: x in line ==> x.len > 0
      ensures Valid() && text == line && undoStack == [] && At() == 0
    {
      text, undoStack, currPtr := line, [], 0;
    }

    /** cyylex: reads on at the cursor, recording blanks on the way, and records the token it returns. */
    method Cyylex() returns (t: Token)
      requires Valid() && undoStack < text
      modifies this
      ensures Valid() && old(undoStack) < undoStack
      ensures old(At()) < |Words(text)| && t == Words(text)[old(At())] && At() == old(At()) + 1
      ensures |Words(undoStack[..|undoStack| - 1])| == old(At())
      ensures undoStack[|undoStack| - 1].tok == t != Blank
      ensures forall i :: |old(undoStack)| <= i < |undoStack| - 1 ==> undoStack[i].tok == Blank
      ensures t.Eol? || undoStack < text
    {
      ghost var n := |undoStack|;
      while true
        invariant Valid() && old(undoStack) <= undoStack < text && n == |undoStack|
        invariant Words(undoStack) == old(Words(undoStack))
        invariant forall i :: |old(undoStack)| <= i < |undoStack| ==> undoStack[i].tok == Blank
        decreases |text| - n
      {
        assert undoStack == text[..n];
        LexemeAfter(text, n);
        WordAt(text, n);
        var lexeme := LexemeAt(text, currPtr).value;
        assert undoStack + [lexeme] == text[..n + 1];
        undoStack, currPtr, n := undoStack + [lexeme], currPtr + lexeme.len, n + 1;
        if !lexeme.tok.Blank? {
          t := lexeme.tok;
          return;
        }
      }
    }

    /** yyrewind: takes the last n lexemes back. */
    method Rewind(n: int)
      requires Valid() && n <= |undoStack|
      modifies this
      ensures Valid() && undoStack == if n <= 0 then old(undoStack) else old(undoStack)[..|old(undoStack)| - n]
    {
      if n <= 0 || currPtr == 0 {
        if n > 0 {
          WidthPositive(undoStack);
        }
        return;
      }
      var left, dataLen := n, 0;
      while left > 0
        invariant 0 <= left <= n && left <= |undoStack|
        invariant undoStack == old(undoStack)[..|old(undoStack)| - (n - left)]
        invariant currPtr == Width(undoStack) + dataLen
      {
        var top := undoStack[|undoStack| - 1];
        undoStack := undoStack[..|undoStack| - 1];
        dataLen := dataLen + top.len;
        left := left - 1;
      }
      currPtr := currPtr - dataLen;
    }

    method Ineq() returns (ok: bool)
      requires Valid() && undoStack < text
      modifies this
      ensures Valid() && old(undoStack) <= undoStack < text
      ensures old(At()) < |Words(text)| && ok == Words(text)[old(At())].Compare?
      ensures if ok then At() == old(At()) + 1 else undoStack == old(undoStack)
    {
      var chkp := |undoStack|;
      var t := Cyylex();
      if !t.Compare? {
        Rewind(|undoStack| - chkp);
        return false;
      }
      return true;
    }

    method G() returns (ok: bool)
      requires Valid() && undoStack < text
      modifies this
      ensures Valid() && old(undoStack) <= undoStack < text
      ensures old(At()) < |Words(text)| && ok == Words(text)[old(At())].Fn2?
      ensures if ok then At() == old(At()) + 1 else undoStack == old(undoStack)
    {
      var chkp := |undoStack|;
      var t := Cyylex();
      if !t.Fn2? {
        Rewind(|undoStack| - chkp);
        return false;
      }
      return true;
    }

    method P() returns (ok: bool)
      requires Valid() && undoStack < text
      modifies this
      ensures Valid() && old(undoStack) <= undoStack < text
      ensures old(At()) < |Words(text)| && ok == Words(text)[old(At())].Fn1?
      ensures if ok then At() == old(At()) + 1 else undoStack == old(undoStack)
    {
      var chkp := |undoStack|;
      var t := Cyylex();
      if !t.Fn1? {
        Rewind(|undoStack| - chkp);
        return false;
      }
      return true;
    }

    /** What a parsing function promises: exactly what the specification says from here, or nothing consumed; or no
        result at all, because F had none. */
    ghost predicate Outcome<T>(r: Option<(T, nat)>, lost: bool, rc: ParseRc, before: seq<Lexeme>)
      reads this
    {
      && Valid() && before <= undoStack
      && (rc == NoResult <==> lost)
      && (rc != NoResult ==> undoStack < text && EndOf(r) == (if rc == ParseSuccess then Some(At()) else None))
      && (rc == ParseErr ==> undoStack == before)
    }

    /** The same before the rewinding that an error still asks for. */
    ghost predicate Unwound<T>(r: Option<(T, nat)>, lost: bool, rc: ParseRc, before: seq<Lexeme>)
      reads this
    {
      && Valid() && before <= undoStack
      && (rc == NoResult <==> lost)
      && (rc != NoResult ==> EndOf(r) == (if rc == ParseSuccess then Some(At()) else None))
      && (rc == ParseSuccess ==> undoStack < text)
    }

    /** E() and then the token t: the step F repeats. On failure F rewinds. */
    method EUpTo(t: Token) returns (rc: ParseRc)
      requires Valid() && undoStack < text && !t.Eol?
      modifies this
      ensures Unwound(ParseUpTo(Words(text), old(At()), t), LostSum(Words(text), old(At())), rc, old(undoStack))
      decreases |Words(text)| - At(), 6
    {
      hide ParseSum, Words, Width, LostSum;
      rc := E();
      if rc == ParseSuccess {
        var next := Cyylex();
        if next != t {
          rc := ParseErr;
        }
      }
    }

    /** F; each of its error exits takes back everything since entry. */
    method F() returns (rc: ParseRc)
      requires Valid() && undoStack < text
      modifies this
      ensures Outcome(ParseFactor(Words(text), old(At())), LostFactor(Words(text), old(At())), rc, old(undoStack))
      decreases |Words(text)| - At(), 3
    {
      hide ParseFactor, Words, Width, LostFactor;
      var chkp := |undoStack|;
      rc := FAlternatives();
      if rc == ParseErr {
        Rewind(|undoStack| - chkp);
      }
    }

    method FAlternatives() returns (rc: ParseRc)
      requires Valid() && undoStack < text
      modifies this
      ensures Unwound(ParseFactor(Words(text), old(At())), LostFactor(Words(text), old(At())), rc, old(undoStack))
      decreases |Words(text)| - At(), 2
    {
      hide ParseUpTo, ParseFactor, Words, Width, LostSum;
      var t := Cyylex();
      FactorEnd(Words(text), old(At()));
      if t == Open {
        rc := EUpTo(Close);
        return;
      }
      if t.Operand? {
        return ParseSuccess;
      }
      Rewind(1);
      var ok := P();
      if !ok {
        rc := BinaryCall();
        return;
      }
      t := Cyylex();
      if t == Open {
        rc := EUpTo(Close);
        return;
      }
      return NoResult;
    }

    /** The alternative G ( E , E ). */
    method BinaryCall() returns (rc: ParseRc)
      requires Valid() && undoStack < text
      requires At() < |Words(text)| && var t := Words(text)[At()]; !t.Open? && !t.Operand? && !t.Fn1?
      modifies this
      ensures Unwound(ParseFactor(Words(text), old(At())), LostFactor(Words(text), old(At())), rc, old(undoStack))
      decreases |Words(text)| - At(), 1
    {
      hide ParseUpTo, ParseFactor, Words, Width, LostSum;
      FactorEnd(Words(text), At());
      var ok := G();
      if !ok {
        return ParseErr;
      }
      var t := Cyylex();
      if t != Open {
        return ParseErr;
      }
      rc := EUpTo(Comma);
      if rc != ParseSuccess {
        return;
      }
      rc := EUpTo(Close);
    }

    method TDash() returns (rc: ParseRc)
      requires Valid() && undoStack < text
      modifies this
      ensures Outcome(ParseTermTail(Words(text), old(At())), LostTermTail(Words(text), old(At())), rc, old(undoStack))
      decreases |Words(text)| - At(), 0
    {
      hide ParseFactor, Words, Width, LostFactor;
      var chkp := |undoStack|;
      var t := Cyylex();
      if t.Times? {
        rc := F();
        if rc == ParseSuccess {
          rc := TDash();
        }
        if rc == ParseErr {
          Rewind(|undoStack| - chkp);
        }
        return;
      }
      Rewind(1);
      return ParseSuccess;
    }

    method T() returns (rc: ParseRc)
      requires Valid() && undoStack < text
      modifies this
      ensures Outcome(ParseTerm(Words(text), old(At())), LostTerm(Words(text), old(At())), rc, old(undoStack))
      decreases |Words(text)| - At(), 4
    {
      hide ParseFactor, ParseTermTail, Words, Width, LostFactor, LostTermTail;
      var chkp := |undoStack|;
      rc := F();
      if rc == ParseSuccess {
        rc := TDash();
      }
      if rc == ParseErr {
        Rewind(|undoStack| - chkp);
      }
    }

    method EDash() returns (rc: ParseRc)
      requires Valid() && undoStack < text
      modifies this
      ensures Outcome(ParseSumTail(Words(text), old(At())), LostSumTail(Words(text), old(At())), rc, old(undoStack))
      decreases |Words(text)| - At(), 0
    {
      hide ParseTerm, Words, Width, LostTerm;
      var chkp := |undoStack|;
      var t := Cyylex();
      if t.Add? {
        rc := T();
        if rc == ParseSuccess {
          rc := EDash();
        }
        if rc == ParseErr {
          Rewind(|undoStack| - chkp);
        }
        return;
      }
      Rewind(1);
      return ParseSuccess;
    }

    method E() returns (rc: ParseRc)
      requires Valid() && undoStack < text
      modifies this
      ensures Outcome(ParseSum(Words(text), old(At())), LostSum(Words(text), old(At())), rc, old(undoStack))
      decreases |Words(text)| - At(), 5
    {
      hide ParseTerm, ParseSumTail, Words, Width, LostTerm, LostSumTail;
      var chkp := |undoStack|;
      rc := T();
      if rc == ParseSuccess {
        rc := EDash();
      }
      if rc == ParseErr {
        Rewind(|undoStack| - chkp);
      }
    }

    /** Q: a condition in brackets if that works out, and otherwise, from the start again, E Ineq E. */
    method Q() returns (rc: ParseRc)
      requires Valid() && undoStack < text
      modifies this
      ensures Outcome(ParseCondition(Words(text), old(At())), LostCondition(Words(text), old(At())), rc, old(undoStack))
      decreases |Words(text)| - At(), 7
    {
      hide ParseCondition, ParseComparison, Words, Width, LostComparison;
      var chkp := |undoStack|;
      var t := Cyylex();
      ConditionEnd(Words(text), old(At()));
      if t == Open {
        rc := Q();
        if rc == NoResult {
          return;
        }
        if rc == ParseSuccess {
          t := Cyylex();
          if t == Close {
            return;
          }
        }
      }
      Rewind(|undoStack| - chkp);
      assert undoStack == old(undoStack);
      rc := Comparison();
      if rc == ParseErr {
        Rewind(|undoStack| - chkp);
      }
    }

    /** The alternative E Ineq E. */
    method Comparison() returns (rc: ParseRc)
      requires Valid() && undoStack < text && At() < |Words(text)|
      modifies this
      ensures Unwound(ParseComparison(Words(text), old(At())), LostComparison(Words(text), old(At())), rc,
          old(undoStack))
      decreases |Words(text)| - At(), 6
    {
      hide ParseComparison, ParseSum, Words, Width, LostSum;
      ComparisonEnd(Words(text), At());
      rc := E();
      if rc != ParseSuccess {
        return;
      }
      var ok := Ineq();
      if !ok {
        return ParseErr;
      }
      rc := E();
    }
  }
}

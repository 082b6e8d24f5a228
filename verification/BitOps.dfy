/**
 Bit selectors in instruction code: `x<a:b>` is rewritten to `bits(x, a, b)`, by one pass for
 selectors on names and then by a loop that searches backward for the parenthesis a selector
 applies to.  Code is a sequence of tokens.
 */
module BitOps {
  import opened Options

  datatype Tok = Name(id: string) | LP | RP | Sel(hi: string, lo: string) | Sel1(bit: string) | Other(text: string)

  // ----- The rewriting -----

  // <n:> becomes <n:n>.
  function OneArgPass(code: seq<Tok>): seq<Tok> {
    if code == [] then []
    else [if code[0].Sel1? then Sel(code[0].bit, code[0].bit) else code[0]] + OneArgPass(code[1..])
  }

  function Args(hi: string, lo: string): seq<Tok> {
    [Other(","), Other(hi), Other(","), Other(lo)]
  }

  function Bits(arg: seq<Tok>, hi: string, lo: string): seq<Tok> {
    [Name("bits")] + ([LP] + (arg + Args(hi, lo)) + [RP])
  }

  // name<a:b> becomes bits(name, a, b).
  function WordPass(code: seq<Tok>): seq<Tok>
    decreases |code|
  {
    if code == [] then []
    else if |code| >= 2 && code[0].Name? && code[1].Sel? then Bits([code[0]], code[1].hi, code[1].lo) + WordPass(code[2..])
    else [code[0]] + WordPass(code[1..])
  }

  predicate Selected(code: seq<Tok>, i: nat) {
    i + 1 < |code| && code[i].RP? && code[i + 1].Sel?
  }

  // Position of the first `)` from i on that a selector follows; |code| if there is none.
  function FindFrom(code: seq<Tok>, i: nat): (k: nat)
    requires i <= |code|
    ensures i <= k <= |code| && (k < |code| ==> Selected(code, k)) && forall j :: i <= j < k ==> !Selected(code, j)
    decreases |code| - i
  {
    if i == |code| || Selected(code, i) then i else FindFrom(code, i + 1)
  }

  function FindExpr(code: seq<Tok>): nat {
    FindFrom(code, 0)
  }

  // Nesting level after one more token to the left.
  function Next(nest: int, t: Tok): int {
    if t.LP? then nest - 1 else if t.RP? then nest + 1 else nest
  }

  // The backward search from position `here`.  It gives up as soon as it would have to move
  // left of the start, even if it has just found its parenthesis there.
  function ScanBack(code: seq<Tok>, here: int, nest: int): Option<nat>
    requires here < |code|
    decreases here
  {
    if here < 0 then None
    else
      var nest' := Next(nest, code[here]);
      if here == 0 then None
      else if nest' <= 0 then Some(here)
      else ScanBack(code, here - 1, nest')
  }

  function Selectors(code: seq<Tok>): nat {
    if code == [] then 0 else (if code[0].Sel? then 1 else 0) + Selectors(code[1..])
  }

  // One turn of the loop at the selector found at i; None when the search gives up.
  function Turn(code: seq<Tok>, i: nat): Option<seq<Tok>>
    requires i + 1 < |code| && code[i + 1].Sel?
  {
    match ScanBack(code, i - 1, 1)
    case None => None
    case Some(start) =>
      if start <= i then Some(code[..start] + Bits(code[start..i + 1], code[i + 1].hi, code[i + 1].lo) + code[i + 2..])
      else None
  }

  function ExprLoop(code: seq<Tok>): Option<seq<Tok>>
    decreases Selectors(code)
  {
    var i := FindExpr(code);
    if i == |code| then Some(code)
    else match Turn(code, i)
      case None => None
      case Some(code') =>
        TurnUsesSelector(code, i);
        ExprLoop(code')
  }

  lemma {:induction false} SelectorsConcat(a: seq<Tok>, b: seq<Tok>)
    ensures Selectors(a + b) == Selectors(a) + Selectors(b)
  {
    if a == [] {
      assert a + b == b;
    } else {
      assert (a + b)[1..] == a[1..] + b;
      SelectorsConcat(a[1..], b);
    }
  }

  // Every turn removes one selector, so the loop ends.
  lemma {:induction false} TurnUsesSelector(code: seq<Tok>, i: nat)
    requires i + 1 < |code| && code[i + 1].Sel? && Turn(code, i).Some?
    ensures Selectors(Turn(code, i).value) == Selectors(code) - 1
  {
    var start := ScanBack(code, i - 1, 1).value;
    var a, e, b := code[..start], code[start..i + 1], code[i + 2..];
    var s := code[i + 1];
    assert code == a + e + [s] + b;
    SelectorsConcat(a + e + [s], b);
    SelectorsConcat(a + e, [s]);
    SelectorsConcat(a, e);
    SelectorsConcat(a + Bits(e, s.hi, s.lo), b);
    SelectorsConcat(a, Bits(e, s.hi, s.lo));
    SelectorsConcat([Name("bits")], [LP] + (e + Args(s.hi, s.lo)) + [RP]);
    SelectorsConcat([LP] + (e + Args(s.hi, s.lo)), [RP]);
    SelectorsConcat([LP], e + Args(s.hi, s.lo));
    SelectorsConcat(e, Args(s.hi, s.lo));
    FreeHasNone(Args(s.hi, s.lo));
    FreeHasNone([Name("bits")]);
    FreeHasNone([LP]);
    FreeHasNone([RP]);
    assert Selectors([s]) == 1 by { assert [s][1..] == []; }
  }

  ghost predicate Free(code: seq<Tok>) {
    forall t :: t in code ==> !t.Sel?
  }

  lemma {:induction false} FreeHasNone(code: seq<Tok>)
    requires Free(code)
    ensures Selectors(code) == 0
  {
    if code != [] {
      FreeHasNone(code[1..]);
    }
  }

  function SubstSpec(code: seq<Tok>): Option<seq<Tok>> {
    ExprLoop(WordPass(OneArgPass(code)))
  }

  // The function as written: two substitution passes, then a search loop in a rewriting loop.
  method SubstBitOps(code0: seq<Tok>) returns (r: Option<seq<Tok>>)
    ensures r == SubstSpec(code0)
  {
    var code := WordPass(OneArgPass(code0));
    var i := FindExpr(code);
    while i < |code|
      invariant i == FindExpr(code)
      invariant ExprLoop(code) == SubstSpec(code0)
      decreases Selectors(code)
    {
      var start := FindOpen(code, i);
      if start.None? {
        return None;
      }
      TurnUsesSelector(code, i);
      code := code[..start.value] + Bits(code[start.value..i + 1], code[i + 1].hi, code[i + 1].lo) + code[i + 2..];
      i := FindExpr(code);
    }
    r := Some(code);
  }

  method FindOpen(code: seq<Tok>, exprEnd: nat) returns (start: Option<nat>)
    requires exprEnd + 1 < |code|
    ensures start == ScanBack(code, exprEnd - 1, 1) && (start.Some? ==> start.value <= exprEnd)
  {
    var here: int := exprEnd - 1;
    var nestLevel := 1;
    if here < 0 {
      return None;
    }
    while nestLevel > 0
      invariant 0 <= here < exprEnd
      invariant nestLevel > 0 ==> ScanBack(code, exprEnd - 1, 1) == ScanBack(code, here, nestLevel)
      invariant nestLevel <= 0 ==> ScanBack(code, exprEnd - 1, 1) == Some(here + 1)
      decreases if nestLevel > 0 then here + 1 else 0
    {
      nestLevel := Next(nestLevel, code[here]);
      if here == 0 {
        return None;
      }
      here := here - 1;
    }
    start := Some(here + 1);
  }

  // ----- Expressions with selectors -----

  datatype Expr =
    | Atom(name: string)
    | Paren(inner: Expr)
    | Call(f: string, arg: Expr)
    | CallNone(f: string)
    | Bin(left: Expr, op: string, right: Expr)
    | Select(base: Expr, hi: string, lo: string, short: bool)

  // Selectors bind tighter than operators; the short form <n:> stands for <n:n>.
  predicate Valid(e: Expr) {
    match e
    case Atom(_) => true
    case Paren(x) => Valid(x)
    case Call(_, x) => Valid(x)
    case CallNone(_) => true
    case Bin(l, _, r) => Valid(l) && Valid(r)
    case Select(x, hi, lo, short) => !x.Bin? && Valid(x) && (short ==> hi == lo)
  }

  // The text of an expression, with short selectors written short or in full.
  function Print(e: Expr, full: bool): seq<Tok> {
    match e
    case Atom(n) => [Name(n)]
    case Paren(x) => [LP] + Print(x, full) + [RP]
    case Call(f, x) => [Name(f)] + ([LP] + Print(x, full) + [RP])
    case CallNone(f) => [Name(f)] + ([LP] + [] + [RP])
    case Bin(l, op, r) => Print(l, full) + ([Other(op)] + Print(r, full))
    case Select(x, hi, lo, short) => Print(x, full) + [if short && !full then Sel1(hi) else Sel(hi, lo)]
  }

  // The meaning of selectors: calls of bits.
  function Desugared(e: Expr): (p: seq<Tok>)
  {
    match e
    case Atom(n) => [Name(n)]
    case Paren(x) => [LP] + Desugared(x) + [RP]
    case Call(f, x) => [Name(f)] + ([LP] + Desugared(x) + [RP])
    case CallNone(f) => [Name(f)] + ([LP] + [] + [RP])
    case Bin(l, op, r) => Desugared(l) + ([Other(op)] + Desugared(r))
    case Select(x, hi, lo, _) =>
      [Name("bits"), LP] + Desugared(x) + [Other(","), Other(hi), Other(","), Other(lo), RP]
  }

  lemma SelectIsBits(e: Expr)
    requires e.Select?
    ensures Desugared(e) == Bits(Desugared(e.base), e.hi, e.lo)
  {
  }

  // Selectors only on names and on parenthesised groups.
  predicate Plain(e: Expr) {
    match e
    case Atom(_) => true
    case Paren(x) => Plain(x)
    case Call(_, x) => Plain(x)
    case CallNone(_) => true
    case Bin(l, _, r) => Plain(l) && Plain(r)
    case Select(x, _, _, _) => (x.Atom? || x.Paren?) && Plain(x)
  }

  // The code starts with a parenthesised group that has a selector.
  predicate StartsSelected(e: Expr) {
    match e
    case Select(x, _, _, _) => x.Paren? || StartsSelected(x)
    case Bin(l, _, _) => StartsSelected(l)
    case _ => false
  }

  // What the rewriting makes of an expression.
  function Actual(e: Expr): (p: seq<Tok>)
    requires Valid(e)
    decreases e, 1
  {
    match e
    case Atom(n) => [Name(n)]
    case Bin(l, op, r) => Actual(l) + ([Other(op)] + Actual(r))
    case _ => var (head, body) := Group(e); head + ([LP] + body + [RP])
  }

  // An expression that ends in `)`: what comes before the matching `(`, and what is inside.
  function Group(e: Expr): (g: (seq<Tok>, seq<Tok>))
    requires Valid(e) && !e.Atom? && !e.Bin?
    decreases e, 0
  {
    match e
    case Paren(x) => ([], Actual(x))
    case Call(f, x) => ([Name(f)], Actual(x))
    case CallNone(f) => ([Name(f)], [])
    case Select(x, hi, lo, _) =>
      if x.Atom? then ([Name("bits")], [Name(x.name)] + Args(hi, lo))
      else
        var (head, body) := Group(x);
        (head + [Name("bits")], [LP] + body + [RP] + Args(hi, lo))
  }

  // After the pass for names.
  function Worded(e: Expr): seq<Tok>
    requires Valid(e)
  {
    match e
    case Atom(n) => [Name(n)]
    case Paren(x) => [LP] + Worded(x) + [RP]
    case Call(f, x) => [Name(f)] + ([LP] + Worded(x) + [RP])
    case CallNone(f) => [Name(f)] + ([LP] + [] + [RP])
    case Bin(l, op, r) => Worded(l) + ([Other(op)] + Worded(r))
    case Select(x, hi, lo, _) => if x.Atom? then Bits([Name(x.name)], hi, lo) else Worded(x) + [Sel(hi, lo)]
  }

  // ----- The two passes on expressions -----

  lemma {:induction false} OneArgConcat(a: seq<Tok>, b: seq<Tok>)
    ensures OneArgPass(a + b) == OneArgPass(a) + OneArgPass(b)
  {
    if a == [] {
      assert a + b == b;
    } else {
      assert (a + b)[1..] == a[1..] + b;
      OneArgConcat(a[1..], b);
    }
  }

  lemma OneArgOne(t: Tok)
    ensures OneArgPass([t]) == [if t.Sel1? then Sel(t.bit, t.bit) else t]
  {
    assert [t][1..] == [];
  }

  lemma {:induction false} OneArgExpr(e: Expr)
    requires Valid(e)
    ensures OneArgPass(Print(e, false)) == Print(e, true)
  {
    match e
    case Atom(n) =>
      OneArgOne(Name(n));
    case Paren(x) =>
      OneArgExpr(x);
      OneArgConcat([LP] + Print(x, false), [RP]);
      OneArgConcat([LP], Print(x, false));
      OneArgOne(LP);
      OneArgOne(RP);
    case Call(f, x) =>
      OneArgExpr(x);
      OneArgConcat([Name(f)], [LP] + Print(x, false) + [RP]);
      OneArgConcat([LP] + Print(x, false), [RP]);
      OneArgConcat([LP], Print(x, false));
      OneArgOne(Name(f));
      OneArgOne(LP);
      OneArgOne(RP);
    case CallNone(f) =>
      OneArgConcat([Name(f)], [LP] + [] + [RP]);
      OneArgConcat([LP] + [], [RP]);
      OneArgOne(Name(f));
      OneArgOne(LP);
      OneArgOne(RP);
    case Bin(l, op, r) =>
      OneArgExpr(l);
      OneArgExpr(r);
      OneArgConcat(Print(l, false), [Other(op)] + Print(r, false));
      OneArgConcat([Other(op)], Print(r, false));
      OneArgOne(Other(op));
    case Select(x, hi, lo, short) =>
      OneArgExpr(x);
      OneArgConcat(Print(x, false), [if short then Sel1(hi) else Sel(hi, lo)]);
      OneArgOne(if short then Sel1(hi) else Sel(hi, lo));
  }

  lemma {:induction false} WordSkip(t: Tok, rest: seq<Tok>)
    requires !t.Name? || rest == [] || !rest[0].Sel?
    ensures WordPass([t] + rest) == [t] + WordPass(rest)
  {
    assert ([t] + rest)[1..] == rest;
  }

  lemma {:induction false} WordGroup(x: seq<Tok>, w: seq<Tok>, rest: seq<Tok>)
    requires WordPass(x + ([RP] + rest)) == w + WordPass([RP] + rest)
    ensures WordPass([LP] + x + [RP] + rest) == [LP] + w + [RP] + WordPass(rest)
  {
    hide WordPass;
    WordSkip(RP, rest);
    WordSkip(LP, x + ([RP] + rest));
    assert [LP] + x + [RP] + rest == [LP] + (x + ([RP] + rest));
    assert [LP] + w + [RP] + WordPass(rest) == [LP] + (w + ([RP] + WordPass(rest)));
  }

  lemma {:induction false} WordSelected(n: string, hi: string, lo: string, rest: seq<Tok>)
    ensures WordPass([Name(n)] + [Sel(hi, lo)] + rest) == Bits([Name(n)], hi, lo) + WordPass(rest)
  {
    assert ([Name(n)] + [Sel(hi, lo)] + rest)[2..] == rest;
  }

  // Names that are not selected are left alone, selected names are rewritten.
  lemma {:induction false} WordExpr(e: Expr, rest: seq<Tok>)
    requires Valid(e) && (e.Atom? || e.Bin? ==> rest == [] || !rest[0].Sel?)
    ensures WordPass(Print(e, true) + rest) == Worded(e) + WordPass(rest)
  {
    hide WordPass;
    match e
    case Atom(n) =>
      WordSkip(Name(n), rest);
    case Paren(x) =>
      WordExpr(x, [RP] + rest);
      WordGroup(Print(x, true), Worded(x), rest);
    case Call(f, x) =>
      var g, w := [LP] + Print(x, true) + [RP], [LP] + Worded(x) + [RP];
      WordExpr(x, [RP] + rest);
      WordGroup(Print(x, true), Worded(x), rest);
      WordSkip(Name(f), g + rest);
      Assoc([Name(f)], g, rest);
      Assoc([Name(f)], w, WordPass(rest));
    case CallNone(f) =>
      var g := [LP] + [] + [RP];
      assert [] + ([RP] + rest) == [RP] + rest && [] + WordPass([RP] + rest) == WordPass([RP] + rest);
      WordGroup([], [], rest);
      WordSkip(Name(f), g + rest);
      Assoc([Name(f)], g, rest);
      Assoc([Name(f)], g, WordPass(rest));
    case Bin(l, op, r) =>
      WordExpr(r, rest);
      WordSkip(Other(op), Print(r, true) + rest);
      WordExpr(l, [Other(op)] + (Print(r, true) + rest));
      Assoc([Other(op)], Print(r, true), rest);
      Assoc([Other(op)], Worded(r), WordPass(rest));
      Assoc(Print(l, true), [Other(op)] + Print(r, true), rest);
      Assoc(Worded(l), [Other(op)] + Worded(r), WordPass(rest));
    case Select(x, hi, lo, _) =>
      if x.Atom? {
        WordSelected(x.name, hi, lo, rest);
      } else {
        WordExpr(x, [Sel(hi, lo)] + rest);
        WordSkip(Sel(hi, lo), rest);
        Assoc(Print(x, true), [Sel(hi, lo)], rest);
        Assoc(Worded(x), [Sel(hi, lo)], WordPass(rest));
      }
  }

  lemma Assoc<T>(a: seq<T>, b: seq<T>, c: seq<T>)
    ensures a + b + c == a + (b + c)
  {
  }

  // ----- The loop on expressions -----

  // The level after scanning s leftward from level n, which must stay positive.
  function Level(s: seq<Tok>, n: int): Option<int> {
    if s == [] then Some(n)
    else
      var n' := Next(n, s[|s| - 1]);
      if n' <= 0 then None else Level(s[..|s| - 1], n')
  }

  ghost predicate Balanced(s: seq<Tok>) {
    forall n :: n >= 1 ==> Level(s, n) == Some(n)
  }

  lemma {:induction false} LevelConcat(a: seq<Tok>, b: seq<Tok>, n: int)
    ensures Level(a + b, n) == if Level(b, n).None? then None else Level(a, Level(b, n).value)
  {
    if b == [] {
      assert a + b == a;
    } else {
      assert (a + b)[..|a + b| - 1] == a + b[..|b| - 1];
      var n' := Next(n, b[|b| - 1]);
      if n' > 0 {
        LevelConcat(a, b[..|b| - 1], n');
      }
    }
  }

  lemma BalancedConcat(a: seq<Tok>, b: seq<Tok>)
    requires Balanced(a) && Balanced(b)
    ensures Balanced(a + b)
  {
    forall n | n >= 1
      ensures Level(a + b, n) == Some(n)
    {
      LevelConcat(a, b, n);
    }
  }

  lemma BalancedGroup(s: seq<Tok>)
    requires Balanced(s)
    ensures Balanced([LP] + s + [RP])
  {
    forall n | n >= 1
      ensures Level([LP] + s + [RP], n) == Some(n)
    {
      LevelConcat([LP] + s, [RP], n);
      LevelConcat([LP], s, n + 1);
      assert [RP][..0] == [] && [LP][..0] == [];
    }
  }

  lemma BalancedOne(t: Tok)
    requires !t.LP? && !t.RP?
    ensures Balanced([t])
  {
    assert [t][..0] == [];
  }

  // Scanning back over a balanced body from its closing parenthesis finds the opening one.
  lemma {:induction false} ScanFinds(code: seq<Tok>, p: seq<Tok>, s: seq<Tok>, n: int)
    requires n >= 1 && Level(s, n) == Some(1) && p + [LP] + s <= code
    ensures ScanBack(code, |p| + |s|, n) == if p == [] then None else Some(|p|)
  {
    assert (p + [LP] + s)[|p|] == LP;
    if s == [] {
      assert code[|p|] == LP;
    } else {
      assert code[|p| + |s|] == s[|s| - 1];
      assert p + [LP] + s[..|s| - 1] <= code;
      ScanFinds(code, p, s[..|s| - 1], Next(n, s[|s| - 1]));
    }
  }

  lemma {:induction false} ActualShape(e: Expr)
    requires Valid(e)
    ensures Free(Actual(e)) && Balanced(Actual(e))
    decreases e, 1
  {
    match e {
      case Atom(n) =>
        BalancedOne(Name(n));
      case Bin(l, op, r) =>
        ActualShape(l);
        ActualShape(r);
        BalancedOne(Other(op));
        BalancedConcat([Other(op)], Actual(r));
        BalancedConcat(Actual(l), [Other(op)] + Actual(r));
      case _ =>
        var (head, body) := Group(e);
        GroupShape(e);
        BalancedGroup(body);
        BalancedConcat(head, [LP] + body + [RP]);
    }
  }

  lemma {:induction false} GroupShape(e: Expr)
    requires Valid(e) && !e.Atom? && !e.Bin?
    ensures var (head, body) := Group(e); Free(head) && Free(body) && Balanced(head) && Balanced(body)
    decreases e, 0
  {
    match e
    case Paren(x) =>
      ActualShape(x);
    case Call(f, x) =>
      ActualShape(x);
      BalancedOne(Name(f));
    case CallNone(f) =>
      BalancedOne(Name(f));
    case Select(x, hi, lo, _) =>
      BalancedOne(Name("bits"));
      BalancedArgs(hi, lo);
      if x.Atom? {
        BalancedOne(Name(x.name));
        BalancedConcat([Name(x.name)], Args(hi, lo));
      } else {
        var (head, body) := Group(x);
        GroupShape(x);
        BalancedConcat(head, [Name("bits")]);
        BalancedGroup(body);
        BalancedConcat([LP] + body + [RP], Args(hi, lo));
      }
  }

  lemma BalancedArgs(hi: string, lo: string)
    ensures Balanced(Args(hi, lo))
  {
    BalancedOne(Other(","));
    BalancedOne(Other(hi));
    BalancedOne(Other(lo));
    BalancedConcat([Other(",")], [Other(hi)]);
    BalancedConcat([Other(",")], [Other(lo)]);
    BalancedConcat([Other(",")] + [Other(hi)], [Other(",")] + [Other(lo)]);
    assert Args(hi, lo) == [Other(",")] + [Other(hi)] + ([Other(",")] + [Other(lo)]);
  }

  lemma {:induction false} FindsFirst(a: seq<Tok>, s: seq<Tok>)
    requires Free(a) && a != [] && a[|a| - 1].RP? && s != [] && s[0].Sel?
    ensures FindExpr(a + s) == |a| - 1
  {
    hide FindFrom;
    var code := a + s;
    var i := FindExpr(code);
    assert Selected(code, |a| - 1);
    assert forall j :: 0 <= j < |a| ==> code[j] == a[j] && a[j] in a;
  }

  // One turn at a selector on a group whose inside has already been rewritten.
  lemma {:induction false} TurnAtGroup(q: seq<Tok>, body: seq<Tok>, hi: string, lo: string, s: seq<Tok>)
    requires Free(q) && Free(body) && Balanced(body)
    ensures var g := [LP] + body + [RP];
            ExprLoop(q + g + ([Sel(hi, lo)] + s)) == if q == [] then None else ExprLoop(q + Bits(g, hi, lo) + s)
  {
    hide *;
    var a := q + ([LP] + body + [RP]);
    FreeGroup(q, body);
    FindsFirst(a, [Sel(hi, lo)] + s);
    TurnIs(q, body, hi, lo, s);
    LoopStep(a + ([Sel(hi, lo)] + s));
  }

  lemma {:induction false} LoopStep(code: seq<Tok>)
    requires FindExpr(code) < |code|
    ensures var t := Turn(code, FindExpr(code)); ExprLoop(code) == if t.None? then None else ExprLoop(t.value)
  {
  }

  lemma TurnIs(q: seq<Tok>, body: seq<Tok>, hi: string, lo: string, s: seq<Tok>)
    requires Balanced(body)
    ensures var g := [LP] + body + [RP];
            var code := q + g + ([Sel(hi, lo)] + s);
            var i := |q| + |g| - 1;
            code[i + 1] == Sel(hi, lo) && Turn(code, i) == if q == [] then None else Some(q + Bits(g, hi, lo) + s)
  {
    hide Bits, ScanBack, Balanced;
    var g := [LP] + body + [RP];
    Slices(q, g, Sel(hi, lo), s);
    OpenFound(q, body, [Sel(hi, lo)] + s);
  }

  lemma FreeGroup(q: seq<Tok>, body: seq<Tok>)
    requires Free(q) && Free(body)
    ensures var a := q + ([LP] + body + [RP]); Free(a) && a != [] && a[|a| - 1].RP?
  {
  }

  lemma {:induction false} OpenFound(q: seq<Tok>, body: seq<Tok>, rest: seq<Tok>)
    requires Balanced(body)
    ensures ScanBack(q + ([LP] + body + [RP]) + rest, |q| + |body|, 1) == if q == [] then None else Some(|q|)
  {
    var code := q + ([LP] + body + [RP]) + rest;
    assert q + [LP] + body <= code;
    assert Level(body, 1) == Some(1);
    ScanFinds(code, q, body, 1);
  }

  lemma Slices<T>(q: seq<T>, g: seq<T>, t: T, s: seq<T>)
    ensures var code := q + g + ([t] + s);
            code[..|q|] == q && code[|q|..|q| + |g|] == g && code[|q| + |g|] == t && code[|q| + |g| + 1..] == s
  {
  }

  // Rewriting the expressions of a code one after the other, leftmost innermost first.
  lemma {:induction false} LoopExpr(p: seq<Tok>, e: Expr, s: seq<Tok>)
    requires Valid(e) && Free(p)
    ensures ExprLoop(p + (Worded(e) + s)) ==
            if p == [] && StartsSelected(e) then None else ExprLoop(p + (Actual(e) + s))
    decreases e, 1
  {
    hide ExprLoop, Free, Bits, Balanced;
    match e
    case Atom(_) =>
    case Paren(x) =>
      LoopGroup(p, x, s);
      assert [] + ([LP] + Actual(x) + [RP]) == [LP] + Actual(x) + [RP];
    case Call(f, x) =>
      var w, g := [LP] + Worded(x) + [RP], [LP] + Actual(x) + [RP];
      FreeSnoc(p, Name(f));
      LoopGroup(p + [Name(f)], x, s);
      Assoc(p, [Name(f)], w + s);
      Assoc(p, [Name(f)], g + s);
      Assoc([Name(f)], w, s);
      Assoc([Name(f)], g, s);
    case CallNone(_) =>
    case Bin(l, op, r) =>
      LoopBin(p, l, op, r, s);
    case Select(x, hi, lo, _) =>
      LoopSelect(p, e, s);
  }

  lemma FreeSnoc(p: seq<Tok>, t: Tok)
    requires Free(p) && !t.Sel?
    ensures Free(p + [t])
  {
  }

  lemma FreeConcat(p: seq<Tok>, q: seq<Tok>)
    requires Free(p) && Free(q)
    ensures Free(p + q)
  {
  }

  lemma {:induction false} LoopGroup(p: seq<Tok>, x: Expr, s: seq<Tok>)
    requires Valid(x) && Free(p)
    ensures ExprLoop(p + ([LP] + Worded(x) + [RP] + s)) == ExprLoop(p + ([LP] + Actual(x) + [RP] + s))
    decreases x, 2
  {
    hide ExprLoop, Free;
    FreeSnoc(p, LP);
    LoopExpr(p + [LP], x, [RP] + s);
    GroupAssoc(p, Worded(x), s);
    GroupAssoc(p, Actual(x), s);
  }

  lemma GroupAssoc(p: seq<Tok>, x: seq<Tok>, s: seq<Tok>)
    ensures p + ([LP] + x + [RP] + s) == p + [LP] + (x + ([RP] + s))
  {
  }

  lemma {:induction false} LoopBin(p: seq<Tok>, l: Expr, op: string, r: Expr, s: seq<Tok>)
    requires Valid(l) && Valid(r) && Free(p)
    ensures ExprLoop(p + (Worded(l) + ([Other(op)] + Worded(r)) + s)) ==
            if p == [] && StartsSelected(l) then None else ExprLoop(p + (Actual(l) + ([Other(op)] + Actual(r)) + s))
    decreases Bin(l, op, r), 0
  {
    hide ExprLoop, Free;
    var o := [Other(op)];
    LoopExpr(p, l, o + (Worded(r) + s));
    Assoc(o, Worded(r), s);
    Assoc(Worded(l), o + Worded(r), s);
    ActualShape(l);
    FreeConcat(p, Actual(l));
    FreeSnoc(p + Actual(l), Other(op));
    LoopExpr(p + Actual(l) + o, r, s);
    BinAssoc(p, Actual(l), o, Worded(r), s);
    BinAssoc(p, Actual(l), o, Actual(r), s);
  }

  lemma BinAssoc(p: seq<Tok>, l: seq<Tok>, o: seq<Tok>, r: seq<Tok>, s: seq<Tok>)
    ensures p + l + o + (r + s) == p + (l + (o + (r + s)))
    ensures p + (l + (o + r) + s) == p + (l + (o + (r + s)))
  {
  }

  lemma {:induction false} LoopSelect(p: seq<Tok>, e: Expr, s: seq<Tok>)
    requires Valid(e) && e.Select? && Free(p)
    ensures ExprLoop(p + (Worded(e) + s)) ==
            if p == [] && StartsSelected(e) then None else ExprLoop(p + (Actual(e) + s))
    decreases e, 0
  {
    hide ExprLoop, Free, Balanced;
    var x, hi, lo := e.base, e.hi, e.lo;
    if x.Atom? {
      return;
    }
    LoopExpr(p, x, [Sel(hi, lo)] + s);
    Assoc(Worded(x), [Sel(hi, lo)], s);
    var (head, body) := Group(x);
    GroupShape(x);
    FreeConcat(p, head);
    TurnAtGroup(p + head, body, hi, lo, s);
    var g := [LP] + body + [RP];
    Assoc(p, head, g);
    Assoc(p, head + g, [Sel(hi, lo)] + s);
    SelectAssoc(p, head, Bits(g, hi, lo), s);
    SelectGroup(head, g, hi, lo);
    GroupHeads(x);
  }

  lemma SelectAssoc(p: seq<Tok>, head: seq<Tok>, b: seq<Tok>, s: seq<Tok>)
    ensures p + head + b + s == p + (head + b + s)
  {
  }

  lemma SelectGroup(head: seq<Tok>, g: seq<Tok>, hi: string, lo: string)
    ensures head + [Name("bits")] + ([LP] + (g + Args(hi, lo)) + [RP]) == head + Bits(g, hi, lo)
  {
  }

  // Only a bare group starts with its own parenthesis.
  lemma {:induction false} GroupHeads(x: Expr)
    requires Valid(x) && !x.Atom? && !x.Bin?
    ensures Group(x).0 == [] <==> x.Paren?
  {
  }

  // ----- What the rewriting does -----

  lemma WordEmpty()
    ensures WordPass([]) == []
  {
  }

  lemma {:induction false} LoopEnds(code: seq<Tok>)
    requires Free(code)
    ensures ExprLoop(code) == Some(code)
  {
    hide FindFrom;
    var i := FindExpr(code);
    assert forall j :: 0 <= j < |code| ==> code[j] in code;
  }

  lemma {:induction false} OneArgFree(p: seq<Tok>)
    requires forall t :: t in p ==> !t.Sel1?
    ensures OneArgPass(p) == p
  {
    if p != [] {
      OneArgFree(p[1..]);
    }
  }

  lemma {:induction false} FirstToken(e: Expr)
    requires Valid(e)
    ensures Print(e, true) != [] && !Print(e, true)[0].Sel?
  {
    match e
    case Atom(_) =>
    case Paren(_) =>
    case Call(_, _) =>
    case CallNone(_) =>
    case Bin(l, _, _) => FirstToken(l);
    case Select(x, _, _, _) => FirstToken(x);
  }

  lemma {:induction false} WordFree(p: seq<Tok>, s: seq<Tok>)
    requires Free(p) && (s == [] || !s[0].Sel?)
    ensures WordPass(p + s) == p + WordPass(s)
  {
    hide WordPass;
    if p == [] {
      assert p + s == s;
    } else {
      assert p + s == [p[0]] + (p[1..] + s);
      assert p[1..] != [] ==> p[1] in p;
      WordSkip(p[0], p[1..] + s);
      WordFree(p[1..], s);
    }
  }

  // A statement: expressions, and text without selectors between them.
  datatype Piece = Text(toks: seq<Tok>) | Code(e: Expr)

  ghost predicate IsStatement(ps: seq<Piece>) {
    forall k :: 0 <= k < |ps| ==> IsPiece(ps[k])
  }

  ghost predicate IsPiece(piece: Piece) {
    match piece
    case Text(toks) => forall t :: t in toks ==> !t.Sel? && !t.Sel1?
    case Code(e) => Valid(e)
  }

  lemma Pieces(ps: seq<Piece>)
    requires IsStatement(ps) && ps != []
    ensures IsPiece(ps[0]) && IsStatement(ps[1..])
  {
  }

  function PrintAll(ps: seq<Piece>, full: bool): seq<Tok> {
    if ps == [] then []
    else (match ps[0] case Text(toks) => toks case Code(e) => Print(e, full)) + PrintAll(ps[1..], full)
  }

  function WordedAll(ps: seq<Piece>): seq<Tok>
    requires IsStatement(ps)
  {
    if ps == [] then []
    else
      Pieces(ps);
      (match ps[0] case Text(toks) => toks case Code(e) => Worded(e)) + WordedAll(ps[1..])
  }

  function ActualAll(ps: seq<Piece>): seq<Tok>
    requires IsStatement(ps)
  {
    if ps == [] then []
    else
      Pieces(ps);
      (match ps[0] case Text(toks) => toks case Code(e) => Actual(e)) + ActualAll(ps[1..])
  }

  function DesugaredAll(ps: seq<Piece>): seq<Tok> {
    if ps == [] then []
    else (match ps[0] case Text(toks) => toks case Code(e) => Desugared(e)) + DesugaredAll(ps[1..])
  }

  // The text of the statement starts with a group that a selector is on.
  predicate GivesUp(ps: seq<Piece>) {
    ps != [] && match ps[0] case Text(toks) => toks == [] && GivesUp(ps[1..]) case Code(e) => StartsSelected(e)
  }

  lemma {:induction false} OneArgAll(ps: seq<Piece>)
    requires IsStatement(ps)
    ensures OneArgPass(PrintAll(ps, false)) == PrintAll(ps, true)
  {
    hide Print, IsStatement, Valid;
    if ps == [] {
    } else {
      hide OneArgPass;
      Pieces(ps);
      OneArgAll(ps[1..]);
      match ps[0]
      case Text(toks) =>
        OneArgConcat(toks, PrintAll(ps[1..], false));
        OneArgFree(toks);
      case Code(e) =>
        OneArgConcat(Print(e, false), PrintAll(ps[1..], false));
        OneArgExpr(e);
    }
  }

  lemma {:induction false} FirstAll(ps: seq<Piece>)
    requires IsStatement(ps)
    ensures PrintAll(ps, true) == [] || !PrintAll(ps, true)[0].Sel?
  {
    hide Print, IsStatement, Valid;
    if ps != [] {
      Pieces(ps);
      FirstAll(ps[1..]);
      match ps[0]
      case Text(toks) => assert toks != [] ==> toks[0] in toks;
      case Code(e) => FirstToken(e);
    }
  }

  lemma {:induction false} WordAll(ps: seq<Piece>)
    requires IsStatement(ps)
    ensures WordPass(PrintAll(ps, true)) == WordedAll(ps)
  {
    hide Print, IsStatement, Valid, WordPass, Worded;
    if ps == [] {
      WordEmpty();
    } else {
      Pieces(ps);
      WordAll(ps[1..]);
      FirstAll(ps[1..]);
      match ps[0]
      case Text(toks) => WordFree(toks, PrintAll(ps[1..], true));
      case Code(e) => WordExpr(e, PrintAll(ps[1..], true));
    }
  }

  lemma {:induction false} ActualSome(e: Expr)
    requires Valid(e)
    ensures Actual(e) != []
  {
    if e.Bin? {
      ActualSome(e.left);
    }
  }

  lemma {:induction false} LoopAll(p: seq<Tok>, ps: seq<Piece>)
    requires Free(p) && IsStatement(ps)
    ensures ExprLoop(p + WordedAll(ps)) == if p == [] && GivesUp(ps) then None else Some(p + ActualAll(ps))
    decreases |ps|
  {
    hide ExprLoop, IsStatement, Valid, Worded, Actual, StartsSelected;
    if ps == [] {
      assert p + [] == p;
      LoopEnds(p);
    } else {
      hide Free;
      Pieces(ps);
      match ps[0]
      case Text(toks) =>
        TextFree(p, toks);
        LoopAll(p + toks, ps[1..]);
        Assoc(p, toks, WordedAll(ps[1..]));
        Assoc(p, toks, ActualAll(ps[1..]));
      case Code(e) =>
        LoopExpr(p, e, WordedAll(ps[1..]));
        ActualShape(e);
        ActualSome(e);
        FreeConcat(p, Actual(e));
        LoopAll(p + Actual(e), ps[1..]);
        Assoc(p, Actual(e), WordedAll(ps[1..]));
        Assoc(p, Actual(e), ActualAll(ps[1..]));
    }
  }

  lemma TextFree(p: seq<Tok>, toks: seq<Tok>)
    requires Free(p) && IsPiece(Text(toks))
    ensures Free(p + toks)
  {
  }

  // In a statement every expression is rewritten to Actual, unless the text starts with a group
  // that a selector is on: then the rewriting gives up.
  lemma {:induction false} SubstInStatement(ps: seq<Piece>)
    requires IsStatement(ps)
    ensures SubstSpec(PrintAll(ps, false)) == if GivesUp(ps) then None else Some(ActualAll(ps))
  {
    hide ExprLoop, WordPass, OneArgPass, IsStatement, PrintAll, WordedAll, ActualAll;
    OneArgAll(ps);
    WordAll(ps);
    LoopAll([], ps);
    assert [] + WordedAll(ps) == WordedAll(ps) && [] + ActualAll(ps) == ActualAll(ps);
  }

  lemma {:induction false} SameLength(e: Expr)
    requires Valid(e)
    ensures |Actual(e)| == |Desugared(e)|
    decreases e
  {
    match e
    case Atom(_) =>
    case Paren(x) => SameLength(x);
    case Call(_, x) => SameLength(x);
    case CallNone(_) =>
    case Bin(l, _, r) => SameLength(l); SameLength(r);
    case Select(x, _, _, _) => SameLength(x);
      SelectIsBits(e);
  }

  lemma GroupsAgree(h: seq<Tok>, a: seq<Tok>, b: seq<Tok>)
    ensures h + ([LP] + a + [RP]) == h + ([LP] + b + [RP]) <==> a == b
  {
    ConcatAgree(h, [LP] + a + [RP], h, [LP] + b + [RP]);
    if |a| == |b| {
      ConcatAgree([LP] + a, [RP], [LP] + b, [RP]);
      ConcatAgree([LP], a, [LP], b);
    } else {
      assert |[LP] + a + [RP]| != |[LP] + b + [RP]|;
    }
  }

  lemma {:induction false} HeadIsNames(x: Expr)
    requires Valid(x) && !x.Atom? && !x.Bin?
    ensures forall t :: t in Group(x).0 ==> t.Name?
  {
    if x.Select? && !x.base.Atom? {
      HeadIsNames(x.base);
    }
  }

  // A selector on anything but a name or a bare group is rewritten wrongly.
  lemma {:induction false} SelectAstray(e: Expr)
    requires Valid(e) && e.Select? && !e.base.Atom? && !e.base.Paren?
    ensures Actual(e) != Desugared(e)
  {
    var (head, body) := Group(e);
    HeadIsNames(e);
    GroupHeads(e.base);
    assert |head| >= 2 && head[1] in head;
    assert Actual(e)[1] == head[1];
    assert Desugared(e)[1] == LP;
  }

  lemma {:induction false} SelectedGroup(y: Expr, hi: string, lo: string)
    requires Valid(y)
    ensures Actual(Select(Paren(y), hi, lo, false)) == Desugared(Select(Paren(y), hi, lo, false)) <==> Actual(y) == Desugared(y)
  {
    var a, b := [LP] + Actual(y) + [RP], [LP] + Desugared(y) + [RP];
    SelectIsBits(Select(Paren(y), hi, lo, false));
    assert Group(Paren(y)) == ([], Actual(y));
    assert [] + [Name("bits")] == [Name("bits")];
    GroupsAgree([Name("bits")], a + Args(hi, lo), b + Args(hi, lo));
    SameLength(y);
    ConcatAgree(a, Args(hi, lo), b, Args(hi, lo));
    GroupsAgree([], Actual(y), Desugared(y));
    assert [] + a == a && [] + b == b;
  }

  // The rewriting of a selector wraps only the last group before it, so a selected call f(x)
  // becomes f bits((x), a, b), and a second selector on the same operand goes astray.
  lemma {:induction false} ActualCorrect(e: Expr)
    requires Valid(e)
    ensures Actual(e) == Desugared(e) <==> Plain(e)
  {
    match e
    case Atom(_) =>
    case Paren(x) =>
      ActualCorrect(x);
      GroupsAgree([], Actual(x), Desugared(x));
      assert [] + ([LP] + Desugared(x) + [RP]) == [LP] + Desugared(x) + [RP];
    case Call(f, x) =>
      ActualCorrect(x);
      GroupsAgree([Name(f)], Actual(x), Desugared(x));
    case CallNone(_) =>
    case Bin(l, op, r) =>
      ActualCorrect(l);
      ActualCorrect(r);
      SameLength(l);
      ConcatAgree(Actual(l), [Other(op)] + Actual(r), Desugared(l), [Other(op)] + Desugared(r));
      SameLength(r);
      ConcatAgree([Other(op)], Actual(r), [Other(op)], Desugared(r));
    case Select(x, hi, lo, _) =>
      SelectIsBits(e);
      if x.Paren? {
        ActualCorrect(x.inner);
        SelectedGroup(x.inner, hi, lo);
      } else if !x.Atom? {
        SelectAstray(e);
      }
  }

  ghost predicate AllPlain(ps: seq<Piece>) {
    ps == [] || ((ps[0].Code? ==> Plain(ps[0].e)) && AllPlain(ps[1..]))
  }

  lemma {:induction false} AllCorrect(ps: seq<Piece>)
    requires IsStatement(ps)
    ensures ActualAll(ps) == DesugaredAll(ps) <==> AllPlain(ps)
  {
    hide IsStatement, Valid, Actual, Desugared, Plain;
    if ps != [] {
      Pieces(ps);
      AllCorrect(ps[1..]);
      match ps[0]
      case Text(toks) => ConcatAgree(toks, ActualAll(ps[1..]), toks, DesugaredAll(ps[1..]));
      case Code(e) =>
        SameLength(e);
        ActualCorrect(e);
        ConcatAgree(Actual(e), ActualAll(ps[1..]), Desugared(e), DesugaredAll(ps[1..]));
    }
  }

  // The rewriting means what the selectors mean exactly when every selector is on a name or on a
  // bare group and the text does not start with such a group.
  lemma {:induction false} SubstCorrect(ps: seq<Piece>)
    requires IsStatement(ps)
    ensures SubstSpec(PrintAll(ps, false)) == Some(DesugaredAll(ps)) <==> AllPlain(ps) && !GivesUp(ps)
  {
    hide SubstSpec, IsStatement, PrintAll, ActualAll, DesugaredAll;
    SubstInStatement(ps);
    AllCorrect(ps);
  }

  lemma ConcatAgree<T>(a: seq<T>, b: seq<T>, c: seq<T>, d: seq<T>)
    requires |a| == |c|
    ensures a + b == c + d <==> a == c && b == d
  {
    if a + b == c + d {
      assert a == (a + b)[..|a|] && c == (c + d)[..|a|];
      assert b == (a + b)[|a|..] && d == (c + d)[|a|..];
    }
  }
}

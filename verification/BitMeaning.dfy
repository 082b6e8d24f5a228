/**
 What rewritten code evaluates to: the text is read by a parser that knows nothing of the
 rewriting, and `bits(v, first, last)` is computed as base/bitfield.hh does.
 */
module BitMeaning {
  import opened Arithmetic
  import opened Options
  import opened BitOps

  // What names and constants are worth, and what chains of operators and calls make of their
  // operands; operator precedence is part of it.
  datatype Env = Env(word: string -> nat, combine: (seq<nat>, seq<string>) -> nat, call: (string, seq<nat>, seq<string>) -> nat)

  // ----- Selected bits -----

  // bits(val, first, last): shift right and mask.  C++ leaves first + 1 < last undefined.
  function ShiftAndMask(val: nat, first: nat, last: nat): nat {
    (val / Pow2(last)) % Pow2(if first < last then 0 else first - last + 1)
  }

  function Bit(val: nat, k: nat): nat {
    if k == 0 then val % 2 else Bit(val / 2, k - 1)
  }

  // Bits hi down to lo of a value, moved down to bit 0.
  function Field(val: nat, hi: nat, lo: nat): nat
    decreases hi + 1 - lo
  {
    if hi < lo then 0 else Bit(val, lo) + 2 * Field(val, hi, lo + 1)
  }

  // ----- The meaning of expressions with selectors -----

  // The operands of an expression and the operators between them.
  function Terms(env: Env, e: Expr): (seq<nat>, seq<string>)
    decreases e, 1
  {
    match e
    case Bin(l, op, r) => (Terms(env, l).0 + Terms(env, r).0, Terms(env, l).1 + [op] + Terms(env, r).1)
    case _ => ([Operand(env, e)], [])
  }

  function Operand(env: Env, e: Expr): nat
    requires !e.Bin?
    decreases e, 0
  {
    match e
    case Atom(n) => env.word(n)
    case Paren(x) => env.combine(Terms(env, x).0, Terms(env, x).1)
    case Call(f, x) => Apply(env, f, Terms(env, x).0, Terms(env, x).1)
    case CallNone(f) => Apply(env, f, [], [])
    case Select(x, hi, lo, _) => if x.Bin? then 0 else Field(Operand(env, x), env.word(hi), env.word(lo))
  }

  function Apply(env: Env, f: string, vs: seq<nat>, ops: seq<string>): nat {
    if f == "bits" && |vs| == 3 && ops == [",", ","] then ShiftAndMask(vs[0], vs[1], vs[2]) else env.call(f, vs, ops)
  }

  function Meaning(env: Env, e: Expr): nat {
    env.combine(Terms(env, e).0, Terms(env, e).1)
  }

  // ----- Reading text -----

  // What was read, and the position behind it.
  datatype Read<T> = Read(value: T, end: nat)

  type Chain = (seq<nat>, seq<string>)

  // One operand: a word, a group or a call.
  function ReadOperand(env: Env, code: seq<Tok>, i: nat): (r: Option<Read<nat>>)
    requires i <= |code|
    ensures r.Some? ==> i < r.value.end <= |code|
    decreases |code| - i, 0
  {
    if i == |code| then None
    else match code[i]
      case Other(t) => Some(Read(env.word(t), i + 1))
      case LP =>
        (match ReadGroup(env, code, i)
         case None => None
         case Some(Read(c, end)) => Some(Read(env.combine(c.0, c.1), end)))
      case Name(f) =>
        if i + 1 == |code| || code[i + 1] != LP then Some(Read(env.word(f), i + 1))
        else if i + 2 < |code| && code[i + 2] == RP then Some(Read(Apply(env, f, [], []), i + 3))
        else
          (match ReadGroup(env, code, i + 1)
           case None => None
           case Some(Read(c, end)) => Some(Read(Apply(env, f, c.0, c.1), end)))
      case _ => None
  }

  // What stands between two parentheses.
  function ReadGroup(env: Env, code: seq<Tok>, i: nat): (r: Option<Read<Chain>>)
    requires i < |code|
    ensures r.Some? ==> i + 2 < r.value.end <= |code|
    decreases |code| - i - 1, 2
  {
    match ReadChain(env, code, i + 1)
    case None => None
    case Some(Read(c, end)) => if end < |code| && code[end] == RP then Some(Read(c, end + 1)) else None
  }

  // Operands with operators between them, as many as there are.
  function ReadChain(env: Env, code: seq<Tok>, i: nat): (r: Option<Read<Chain>>)
    requires i <= |code|
    ensures r.Some? ==> i < r.value.end <= |code|
    decreases |code| - i, 1
  {
    match ReadOperand(env, code, i)
    case None => None
    case Some(Read(v, end)) => Before([v], [], ReadTail(env, code, end))
  }

  function ReadTail(env: Env, code: seq<Tok>, i: nat): (r: Option<Read<Chain>>)
    requires i <= |code|
    ensures r.Some? ==> i <= r.value.end <= |code|
    decreases |code| - i, 0
  {
    if i == |code| || !code[i].Other? then Some(Read(([], []), i))
    else Before([], [code[i].text], ReadChain(env, code, i + 1))
  }

  function Before(vs: seq<nat>, ops: seq<string>, r: Option<Read<Chain>>): Option<Read<Chain>> {
    match r
    case None => None
    case Some(Read(c, end)) => Some(Read((vs + c.0, ops + c.1), end))
  }

  // The value of a text that is one expression; None for other texts.
  function Evaluate(env: Env, code: seq<Tok>): Option<nat> {
    match ReadChain(env, code, 0)
    case None => None
    case Some(Read(c, end)) => if end == |code| then Some(env.combine(c.0, c.1)) else None
  }

  // ----- Shift and mask select the bits -----

  lemma {:induction false} FieldShift(val: nat, hi: nat, lo: nat)
    ensures Field(val, hi + 1, lo + 1) == Field(val / 2, hi, lo)
    decreases hi + 1 - lo
  {
    if hi >= lo {
      FieldShift(val, hi, lo + 1);
    }
  }

  lemma DivDiv(val: nat, p: nat)
    requires p > 0
    ensures val / (2 * p) == (val / 2) / p
  {
    var q, r := (val / 2) / p, (val / 2) % p;
    assert val / 2 == p * q + r;
    assert val == 2 * (p * q) + (2 * r + val % 2);
    assert 2 * (p * q) == q * (2 * p);
    DivModUnique(val, 2 * p, q, 2 * r + val % 2);
  }

  lemma ModDouble(val: nat, p: nat)
    requires p > 0
    ensures val % (2 * p) == val % 2 + 2 * ((val / 2) % p)
  {
    var q, r := (val / 2) / p, (val / 2) % p;
    assert val / 2 == p * q + r;
    assert val == 2 * (p * q) + (2 * r + val % 2);
    assert 2 * (p * q) == q * (2 * p);
    DivModUnique(val, 2 * p, q, 2 * r + val % 2);
  }

  lemma {:induction false} MaskIsField(val: nat, n: nat)
    ensures val % Pow2(n + 1) == Field(val, n, 0)
    decreases n
  {
    ModDouble(val, Pow2(n));
    if n == 0 {
      assert Field(val, 0, 1) == 0;
    } else {
      MaskIsField(val / 2, n - 1);
      FieldShift(val, n - 1, 0);
    }
  }

  // Shifting right by last and masking takes bits first down to last.
  lemma {:induction false} BitsAreSelected(val: nat, first: nat, last: nat)
    ensures ShiftAndMask(val, first, last) == Field(val, first, last)
    decreases last
  {
    if first < last {
    } else if last == 0 {
      MaskIsField(val, first);
      assert val / 1 == val;
    } else {
      DivDiv(val, Pow2(last - 1));
      BitsAreSelected(val / 2, first - 1, last - 1);
      FieldShift(val, first - 1, last - 1);
    }
  }

  // ----- The meaning of selectors is what their text evaluates to -----

  // Tokens s stand at position i.
  ghost predicate At(code: seq<Tok>, i: nat, s: seq<Tok>) {
    i + |s| <= |code| && code[i..i + |s|] == s
  }

  lemma AtConcat(code: seq<Tok>, i: nat, a: seq<Tok>, b: seq<Tok>)
    ensures At(code, i, a + b) <==> At(code, i, a) && At(code, i + |a|, b)
  {
    if i + |a| + |b| <= |code| {
      var s := code[i..i + |a + b|];
      assert s[..|a|] == code[i..i + |a|] && s[|a|..] == code[i + |a|..i + |a| + |b|];
      ConcatAgree(s[..|a|], s[|a|..], a, b);
      assert s == s[..|a|] + s[|a|..];
    }
  }

  lemma AtOne(code: seq<Tok>, i: nat, t: Tok)
    ensures At(code, i, [t]) <==> i < |code| && code[i] == t
  {
  }

  lemma AtIndex(code: seq<Tok>, i: nat, s: seq<Tok>)
    requires At(code, i, s)
    ensures i + |s| <= |code| && forall k {:trigger s[k]} :: 0 <= k < |s| ==> code[i + k] == s[k]
  {
    forall k | 0 <= k < |s|
      ensures code[i + k] == s[k]
    {
      assert code[i..i + |s|][k] == code[i + k];
    }
  }

  ghost predicate Ends(code: seq<Tok>, i: nat) {
    i <= |code| && (i == |code| || code[i].RP? || code[i].Other?)
  }

  // A group, and a call with such a group behind its name.
  lemma GroupRead(env: Env, f: string, code: seq<Tok>, i: nat)
    requires i + 1 < |code| && code[i] == LP && code[i + 1] != RP && ReadGroup(env, code, i).Some?
    ensures var Read(c, end) := ReadGroup(env, code, i).value;
            ReadOperand(env, code, i) == Some(Read(env.combine(c.0, c.1), end)) &&
            (i > 0 && code[i - 1] == Name(f) ==> ReadOperand(env, code, i - 1) == Some(Read(Apply(env, f, c.0, c.1), end)))
  {
    hide ReadGroup, Apply;
  }

  lemma {:induction false} ReadsOperand(env: Env, e: Expr, code: seq<Tok>, i: nat)
    requires Valid(e) && !e.Bin? && At(code, i, Desugared(e)) && Ends(code, i + |Desugared(e)|)
    ensures ReadOperand(env, code, i) == Some(Read(Operand(env, e), i + |Desugared(e)|))
    decreases e, 0
  {
    hide ReadGroup, At, Apply;
    match e
    case Atom(n) =>
      AtOne(code, i, Name(n));
    case Paren(x) =>
      hide ReadOperand;
      ReadsGroup(env, x, code, i);
      GroupRead(env, "", code, i);
    case Call(f, x) =>
      hide ReadOperand;
      AtConcat(code, i, [Name(f)], [LP] + Desugared(x) + [RP]);
      AtOne(code, i, Name(f));
      ReadsGroup(env, x, code, i + 1);
      GroupRead(env, f, code, i + 1);
    case CallNone(f) =>
      AtConcat(code, i, [Name(f)], [LP] + [] + [RP]);
      assert [LP] + [] == [LP];
      AtConcat(code, i + 1, [LP] + [], [RP]);
      AtOne(code, i, Name(f));
      AtOne(code, i + 1, LP);
      AtOne(code, i + 2, RP);
    case Select(x, hi, lo, _) =>
      hide ReadOperand;
      ReadsSelection(env, e, code, i);
  }

  lemma {:induction false} StartsOperand(e: Expr)
    ensures Desugared(e) != [] && Desugared(e)[0] != RP
  {
    if e.Bin? {
      StartsOperand(e.left);
    }
  }

  lemma {:induction false} ReadsGroup(env: Env, x: Expr, code: seq<Tok>, i: nat)
    requires Valid(x) && At(code, i, [LP] + Desugared(x) + [RP])
    ensures i + 1 < |code| && code[i] == LP && code[i + 1] != RP
    ensures ReadGroup(env, code, i) == Some(Read(Terms(env, x), i + |Desugared(x)| + 2))
    decreases x, 2
  {
    hide At, ReadChain, ReadTail, Desugared, Terms;
    var j := i + 1 + |Desugared(x)|;
    AtConcat(code, i, [LP] + Desugared(x), [RP]);
    AtConcat(code, i, [LP], Desugared(x));
    AtOne(code, i, LP);
    AtOne(code, j, RP);
    StartsAt(code, i + 1, x);
    ReadsChain(env, x, code, i + 1);
    TailEnd(env, code, j);
    assert Terms(env, x).0 + [] == Terms(env, x).0 && Terms(env, x).1 + [] == Terms(env, x).1;
  }

  lemma StartsAt(code: seq<Tok>, i: nat, x: Expr)
    requires At(code, i, Desugared(x))
    ensures i < |code| && code[i] != RP
  {
    hide Desugared;
    StartsOperand(x);
    assert code[i] == code[i..i + |Desugared(x)|][0];
  }

  // Where the tokens of a selection are.
  lemma SelectionAt(code: seq<Tok>, i: nat, e: Expr)
    requires e.Select? && At(code, i, Desugared(e))
    ensures var j := i + 2 + |Desugared(e.base)|;
            |Desugared(e)| == 2 + |Desugared(e.base)| + 5 && j + 4 < |code| &&
            code[i] == Name("bits") && code[i + 1] == LP && At(code, i + 2, Desugared(e.base)) &&
            code[j] == Other(",") && code[j + 1] == Other(e.hi) && code[j + 2] == Other(",") && code[j + 3] == Other(e.lo) &&
            code[j + 4] == RP
  {
    var x, args := e.base, [Other(","), Other(e.hi), Other(","), Other(e.lo), RP];
    AtConcat(code, i, [Name("bits"), LP] + Desugared(x), args);
    AtConcat(code, i, [Name("bits"), LP], Desugared(x));
    hide At;
    AtIndex(code, i, [Name("bits"), LP]);
    assert [Name("bits"), LP][0] == Name("bits") && [Name("bits"), LP][1] == LP;
    ArgsAt(code, i + 2 + |Desugared(x)|, e.hi, e.lo);
  }

  lemma ArgsAt(code: seq<Tok>, j: nat, hi: string, lo: string)
    requires At(code, j, [Other(","), Other(hi), Other(","), Other(lo), RP])
    ensures j + 4 < |code|
    ensures code[j] == Other(",") && code[j + 1] == Other(hi) && code[j + 2] == Other(",") && code[j + 3] == Other(lo) && code[j + 4] == RP
  {
    hide At;
    var args := [Other(","), Other(hi), Other(","), Other(lo), RP];
    AtIndex(code, j, args);
    assert args[0] == Other(",") && args[1] == Other(hi) && args[2] == Other(",") && args[3] == Other(lo) && args[4] == RP;
  }

  lemma {:induction false} ReadsSelection(env: Env, e: Expr, code: seq<Tok>, i: nat)
    requires Valid(e) && e.Select? && At(code, i, Desugared(e))
    ensures ReadOperand(env, code, i) ==
            Some(Read(Field(Operand(env, e.base), env.word(e.hi), env.word(e.lo)), i + |Desugared(e)|))
    decreases e.base, 3
  {
    hide ReadOperand, ReadChain, ReadTail, ShiftAndMask, Field, At, Desugared, Operand;
    var x := e.base;
    var j := i + 2 + |Desugared(x)|;
    var v, a, b := Operand(env, x), env.word(e.hi), env.word(e.lo);
    SelectionAt(code, i, e);
    StartsAt(code, i + 2, x);
    ReadsChain(env, x, code, i + 2);
    ArgsRead(env, code, j, e.hi, e.lo);
    Joins([v], [a, b], [], [",", ","]);
    assert ReadChain(env, code, i + 2) == Some(Read(([v, a, b], [",", ","]), j + 4));
    GroupRead(env, "bits", code, i + 1);
    BitsAreSelected(v, a, b);
  }

  lemma ArgsRead(env: Env, code: seq<Tok>, j: nat, hi: string, lo: string)
    requires j + 4 < |code| && code[j] == Other(",") && code[j + 1] == Other(hi) && code[j + 2] == Other(",")
    requires code[j + 3] == Other(lo) && code[j + 4] == RP
    ensures ReadTail(env, code, j) == Some(Read(([env.word(hi), env.word(lo)], [",", ","]), j + 4))
  {
    hide ReadChain, ReadTail;
    WordRead(env, code, j + 1, hi);
    WordRead(env, code, j + 3, lo);
    TailStep(env, code, j);
    TailStep(env, code, j + 2);
    TailEnd(env, code, j + 4);
    var a, b, c := env.word(hi), env.word(lo), ",";
    Joins([b], [], [], []);
    Joins([], [b], [c], []);
    Joins([a], [b], [], [c]);
    Joins([], [a, b], [c], [c]);
  }

  lemma Joins(vs: seq<nat>, vs': seq<nat>, ops: seq<string>, ops': seq<string>)
    requires |vs| + |vs'| <= 3 && |ops| + |ops'| <= 2
    ensures vs == [] ==> vs + vs' == vs'
    ensures vs' == [] ==> vs + vs' == vs
    ensures |vs| == 1 && |vs'| == 1 ==> vs + vs' == [vs[0], vs'[0]]
    ensures |vs| == 1 && |vs'| == 2 ==> vs + vs' == [vs[0], vs'[0], vs'[1]]
    ensures ops == [] ==> ops + ops' == ops'
    ensures ops' == [] ==> ops + ops' == ops
    ensures |ops| == 1 && |ops'| == 1 ==> ops + ops' == [ops[0], ops'[0]]
  {
  }

  lemma WordRead(env: Env, code: seq<Tok>, i: nat, t: string)
    requires i < |code| && code[i] == Other(t)
    ensures ReadChain(env, code, i) == Before([env.word(t)], [], ReadTail(env, code, i + 1))
  {
    hide ReadTail;
  }

  lemma TailStep(env: Env, code: seq<Tok>, i: nat)
    requires i < |code| && code[i].Other?
    ensures ReadTail(env, code, i) == Before([], [code[i].text], ReadChain(env, code, i + 1))
  {
    hide ReadChain;
  }

  lemma TailEnd(env: Env, code: seq<Tok>, i: nat)
    requires i <= |code| && (i == |code| || !code[i].Other?)
    ensures ReadTail(env, code, i) == Some(Read(([], []), i))
  {
  }

  lemma {:induction false} ReadsChain(env: Env, e: Expr, code: seq<Tok>, i: nat)
    requires Valid(e) && At(code, i, Desugared(e)) && Ends(code, i + |Desugared(e)|)
    ensures ReadChain(env, code, i) ==
            Before(Terms(env, e).0, Terms(env, e).1, ReadTail(env, code, i + |Desugared(e)|))
    decreases e, 1
  {
    hide ReadOperand, ReadTail, ReadGroup, At;
    if e.Bin? {
      hide ReadChain;
      var l, r := e.left, e.right;
      var j := i + |Desugared(l)|;
      AtConcat(code, i, Desugared(l), [Other(e.op)] + Desugared(r));
      AtConcat(code, j, [Other(e.op)], Desugared(r));
      AtOne(code, j, Other(e.op));
      ReadsChain(env, l, code, i);
      ReadsChain(env, r, code, j + 1);
      TailStep(env, code, j);
      BeforeTwice(Terms(env, l), e.op, Terms(env, r), ReadTail(env, code, j + 1 + |Desugared(r)|));
    } else {
      ReadsOperand(env, e, code, i);
    }
  }

  lemma BeforeTwice(a: Chain, op: string, b: Chain, r: Option<Read<Chain>>)
    ensures Before(a.0, a.1, Before([], [op], Before(b.0, b.1, r))) == Before(a.0 + b.0, a.1 + [op] + b.1, r)
  {
    if r.Some? {
      var Read(c, _) := r.value;
      assert a.0 + ([] + (b.0 + c.0)) == a.0 + b.0 + c.0;
      assert a.1 + ([op] + (b.1 + c.1)) == a.1 + [op] + b.1 + c.1;
    }
  }

  // Calls of bits evaluate to the bits that the selectors select.
  lemma {:induction false} DesugaredMeans(env: Env, e: Expr)
    requires Valid(e)
    ensures Evaluate(env, Desugared(e)) == Some(Meaning(env, e))
  {
    hide ReadTail;
    var code := Desugared(e);
    assert code[0..|code|] == code;
    ReadsChain(env, e, code, 0);
    TailEnd(env, code, |code|);
    assert Terms(env, e).0 + [] == Terms(env, e).0 && Terms(env, e).1 + [] == Terms(env, e).1;
  }

  // ----- Selectors gone astray -----

  // Two names in a row, which no expression has.
  ghost predicate Juxtaposed(code: seq<Tok>) {
    exists i :: 0 <= i < |code| - 1 && code[i].Name? && code[i + 1].Name?
  }

  lemma JuxtaposedWithin(a: seq<Tok>, b: seq<Tok>, c: seq<Tok>)
    requires Juxtaposed(b)
    ensures Juxtaposed(a + b + c)
  {
    var i :| 0 <= i < |b| - 1 && b[i].Name? && b[i + 1].Name?;
    var code := a + b + c;
    assert code[|a| + i] == b[i] && code[|a| + i + 1] == b[i + 1];
  }

  lemma {:induction false} AstrayJuxtaposed(e: Expr)
    requires Valid(e) && !Plain(e)
    ensures Juxtaposed(Actual(e))
    decreases e, 1
  {
    hide Juxtaposed;
    if e.Bin? {
      var l, r, o := e.left, e.right, [Other(e.op)];
      if !Plain(l) {
        AstrayJuxtaposed(l);
        JuxtaposedWithin([], Actual(l), o + Actual(r));
        assert [] + Actual(l) == Actual(l);
      } else {
        AstrayJuxtaposed(r);
        JuxtaposedWithin(Actual(l) + o, Actual(r), []);
        Assoc(Actual(l), o, Actual(r));
        assert Actual(e) + [] == Actual(e);
      }
    } else {
      AstrayGroup(e);
      InGroup(Group(e).0, Group(e).1);
    }
  }

  lemma InGroup(head: seq<Tok>, body: seq<Tok>)
    requires Juxtaposed(head) || Juxtaposed(body)
    ensures Juxtaposed(head + ([LP] + body + [RP]))
  {
    hide Juxtaposed;
    var code := head + ([LP] + body + [RP]);
    if Juxtaposed(head) {
      JuxtaposedWithin([], head, [LP] + body + [RP]);
      assert [] + head + ([LP] + body + [RP]) == code;
    } else {
      JuxtaposedWithin(head + [LP], body, [RP]);
      assert head + [LP] + body + [RP] == code;
    }
  }

  lemma {:induction false} AstrayGroup(e: Expr)
    requires Valid(e) && !Plain(e) && !e.Atom? && !e.Bin?
    ensures Juxtaposed(Group(e).0) || Juxtaposed(Group(e).1)
    decreases e, 0
  {
    match e
    case Paren(x) =>
      AstrayJuxtaposed(x);
    case Call(_, x) =>
      AstrayJuxtaposed(x);
    case Select(x, hi, lo, _) =>
      var (head, body) := Group(x);
      if x.Paren? {
        AstrayGroup(x);
        JuxtaposedWithin([LP], body, [RP] + Args(hi, lo));
        assert [LP] + body + ([RP] + Args(hi, lo)) == Group(e).1;
      } else {
        HeadIsNames(x);
        GroupHeads(x);
        var h := Group(e).0;
        assert head[|head| - 1] in head;
        assert h[|h| - 2].Name? && h[|h| - 2 + 1].Name?;
      }
  }

  // No two names in a row from i to before j.
  ghost predicate Apart(code: seq<Tok>, i: nat, j: nat) {
    forall k :: i <= k && k + 1 < j <= |code| && code[k].Name? ==> !code[k + 1].Name?
  }

  lemma {:induction false} OperandApart(env: Env, code: seq<Tok>, i: nat)
    requires i <= |code| && ReadOperand(env, code, i).Some?
    ensures Apart(code, i, ReadOperand(env, code, i).value.end)
    decreases |code| - i, 0
  {
    hide ReadGroup;
    match code[i]
    case Other(_) =>
    case LP =>
      GroupApart(env, code, i);
    case Name(_) =>
      if i + 1 < |code| && code[i + 1] == LP && !(i + 2 < |code| && code[i + 2] == RP) {
        GroupApart(env, code, i + 1);
      }
  }

  lemma {:induction false} GroupApart(env: Env, code: seq<Tok>, i: nat)
    requires i < |code| && code[i] == LP && ReadGroup(env, code, i).Some?
    ensures Apart(code, i, ReadGroup(env, code, i).value.end)
    decreases |code| - i - 1, 2
  {
    hide ReadChain;
    ChainApart(env, code, i + 1);
  }

  lemma {:induction false} ChainApart(env: Env, code: seq<Tok>, i: nat)
    requires i <= |code| && ReadChain(env, code, i).Some?
    ensures Apart(code, i, ReadChain(env, code, i).value.end)
    decreases |code| - i, 1
  {
    hide ReadOperand;
    OperandApart(env, code, i);
    var j := ReadOperand(env, code, i).value.end;
    if j < |code| && code[j].Other? {
      TailStep(env, code, j);
      ChainApart(env, code, j + 1);
    } else {
      TailEnd(env, code, j);
    }
  }

  // The rewritten text of an expression evaluates to what its selectors mean exactly if they all
  // stand on names or bare groups; otherwise it is no expression at all.
  lemma {:induction false} ActualMeansIff(env: Env, e: Expr)
    requires Valid(e)
    ensures Plain(e) ==> Evaluate(env, Actual(e)) == Some(Meaning(env, e))
    ensures !Plain(e) ==> Evaluate(env, Actual(e)) == None
  {
    hide Actual, Desugared, ReadChain, Plain, Valid, Meaning;
    if Plain(e) {
      ActualCorrect(e);
      DesugaredMeans(env, e);
    } else {
      AstrayJuxtaposed(e);
      if Evaluate(env, Actual(e)).Some? {
        ChainApart(env, Actual(e), 0);
        assert false;
      }
    }
  }

  // The whole rewriting, behind any text: it gives up at a selected group at the very start, and
  // otherwise leaves a text worth the selected bits, or no expression.
  lemma {:induction false} SubstMeansIff(env: Env, p: seq<Tok>, e: Expr)
    requires IsPiece(Text(p)) && Valid(e)
    ensures var r := SubstSpec(p + Print(e, false));
            if p == [] && StartsSelected(e) then r == None
            else r.Some? && p <= r.value &&
                 Evaluate(env, r.value[|p|..]) == if Plain(e) then Some(Meaning(env, e)) else None
  {
    hide SubstSpec, Evaluate, Meaning, Actual, Print, Valid;
    var ps := [Text(p), Code(e)];
    assert ps[1..] == [Code(e)] && [Code(e)][1..] == [];
    assert PrintAll([Code(e)], false) == Print(e, false) + [];
    assert PrintAll(ps, false) == p + Print(e, false);
    SubstInStatement(ps);
    assert ActualAll([Code(e)]) == Actual(e) + [];
    assert ActualAll(ps) == p + Actual(e);
    assert GivesUp([Code(e)]) == StartsSelected(e);
    ActualMeansIff(env, e);
  }
}

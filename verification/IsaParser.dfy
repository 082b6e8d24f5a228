/**
 The grammar actions that turn decode blocks into nested C++ switches, and the proof that the
 switches decode what the description says.
 */
module IsaParser {
  import opened Options
  import opened DecodeTree

  // The decode function's share of the code generated for a construct.
  datatype GenCode = GenCode(decode: seq<Item>, hasDefault: bool) {
    function Plus(other: GenCode): GenCode {
      GenCode(decode + other.decode, hasDefault || other.hasDefault)
    }

    function Wrap(pre: seq<Item>, post: seq<Item>): GenCode {
      GenCode(pre + decode + post, hasDefault)
    }
  }

  function LabelItems(l: Label): seq<Item> {
    match l
    case Default => [DefaultLabel]
    case Consts(first, rest) => [CaseLabel(first)] + seq(|rest|, i requires 0 <= i < |rest| => CaseLabel(rest[i]))
  }

  // ----- What the actions compute, given the tops of the two stacks -----

  function CompileInst(env: Formats, inst: Inst, fmt: Option<string>): Result<GenCode> {
    var c :- CodeOf(env, inst, fmt);
    Ok(GenCode([Emit(c)], false))
  }

  function CompileDefault(env: Formats, b: Block, top: Option<GenCode>, fmt: Option<string>): Result<Option<GenCode>> {
    match b.default_
    case None => Ok(top)
    case Some(i) =>
      var g :- CompileInst(env, i, fmt);
      Ok(Some(g.Wrap([DefaultLabel], [Break])))
  }

  function CompileBlock(env: Formats, b: Block, top: Option<GenCode>, fmt: Option<string>): Result<GenCode>
    decreases b, 1
  {
    var d :- CompileDefault(env, b, top, fmt);
    var g :- CompileList(env, b.body, d, fmt);
    CloseBlock(b.field, g, d)
  }

  function CloseBlock(field: string, g: GenCode, d: Option<GenCode>): Result<GenCode> {
    if g.hasDefault then Ok(GenCode([Switch(field, g.decode)], true))
    else if d.None? then Err(NoDefault)
    else
      var whole := g.Plus(d.value);
      Ok(GenCode([Switch(field, whole.decode)], whole.hasDefault))
  }

  function CompileList(env: Formats, l: StmtList, top: Option<GenCode>, fmt: Option<string>): Result<GenCode>
    decreases l, 1
  {
    var g :- CompileStmt(env, l.stmt, top, fmt);
    if l.One? then Ok(g)
    else
      var gs :- CompileList(env, l.tail, top, fmt);
      if g.hasDefault && gs.hasDefault then Err(TwoDefaults) else Ok(g.Plus(gs))
  }

  function CompileStmt(env: Formats, s: Stmt, top: Option<GenCode>, fmt: Option<string>): Result<GenCode>
    decreases s, 0
  {
    match s
    case CppDirective(t) => Ok(GenCode([Directive(t)], false))
    case Format(id, body) =>
      if id in env.known then CompileList(env, body, top, Some(id)) else Err(UnknownFormat)
    case DecodeCase(lab, b) =>
      var g :- CompileBlock(env, b, top, fmt);
      Ok(g.Wrap(LabelItems(lab), []).(hasDefault := lab.Default?))
    case InstCase(lab, i) =>
      var g :- CompileInst(env, i, fmt);
      Ok(g.Wrap(LabelItems(lab), [Break]).(hasDefault := lab.Default?))
  }

  // ----- Correctness -----

  // The default code that the actions keep for a default instruction.
  function DefaultCode(d: Option<Code>): Option<GenCode> {
    match d
    case None => None
    case Some(c) => Some(GenCode([DefaultLabel, Emit(c), Break], false))
  }

  function KeyItem(key: Key): Item {
    match key
    case None => DefaultLabel
    case Some(v) => CaseLabel(v)
  }

  // The first instruction executed is c; it is the only one if its code returns, and
  // otherwise exactly when `alone` holds.
  ghost predicate Execs(e: Exec, c: Code, alone: bool) {
    e.trace != [] && e.trace[0] == c &&
    (c.final ==> e == Exec([c], Returned)) &&
    (!c.final ==> (e.trace == [c] <==> alone))
  }

  // Nothing is executed after this point.
  ghost predicate Silent(rest: seq<Item>, f: Fields) {
    Run(rest, f).trace == []
  }

  // ----- When the selected code is the only code executed although it does not return -----

  // No case at all, only directives.
  predicate Quiet(l: StmtList)
    decreases l, 1
  {
    QuietStmt(l.stmt) && (l.More? ==> Quiet(l.tail))
  }

  predicate QuietStmt(s: Stmt)
    decreases s, 0
  {
    match s
    case CppDirective(_) => true
    case Format(_, body) => Quiet(body)
    case DecodeCase(_, _) => false
    case InstCase(_, _) => false
  }

  // A nested block has no break after it, so it must be the last case of a block that has a
  // default case of its own; otherwise control falls into the next case.
  function Alone(env: Formats, b: Block, inherited: Option<Code>, fmt: Option<string>, f: Fields): bool
    decreases b, 1
  {
    var d := OwnDefault(env, b, inherited, fmt);
    var own := ArmIn(env, b.body, None, d, fmt, f).Some?;
    if ArmIn(env, b.body, Some(f(b.field)), d, fmt, f).Some? then
      AloneIn(env, b.body, Some(f(b.field)), d, fmt, f, own)
    else
      own ==> AloneIn(env, b.body, None, d, fmt, f, own)
  }

  function AloneIn(env: Formats, l: StmtList, key: Key, d: Option<Code>, fmt: Option<string>, f: Fields, silent: bool): bool
    decreases l, 1
  {
    if ArmOf(env, l.stmt, key, d, fmt, f).Some? then
      AloneOf(env, l.stmt, key, d, fmt, f, silent && (l.More? ==> Quiet(l.tail)))
    else
      l.More? && AloneIn(env, l.tail, key, d, fmt, f, silent)
  }

  function AloneOf(env: Formats, s: Stmt, key: Key, d: Option<Code>, fmt: Option<string>, f: Fields, silent: bool): bool
    decreases s, 0
  {
    match s
    case CppDirective(_) => false
    case Format(id, body) => AloneIn(env, body, key, d, Some(id), f, silent)
    case DecodeCase(_, b) => silent && Alone(env, b, d, fmt, f)
    case InstCase(_, _) => true
  }

  // ----- Proof -----

  lemma {:induction false} IndexOfConcat(a: seq<Item>, b: seq<Item>, x: Item)
    ensures IndexOf(a + b, x) == if x in a then IndexOf(a, x) else |a| + IndexOf(b, x)
  {
    if a == [] {
      assert a + b == b;
    } else if a[0] != x {
      assert (a + b)[1..] == a[1..] + b;
      IndexOfConcat(a[1..], b, x);
    }
  }

  lemma {:induction false} RunLabels(l: Label, k: nat, rest: seq<Item>, f: Fields)
    requires k <= |LabelItems(l)|
    ensures Run(LabelItems(l)[k..] + rest, f) == Run(rest, f)
    decreases |LabelItems(l)| - k
  {
    var items := LabelItems(l)[k..] + rest;
    if k == |LabelItems(l)| {
      assert items == rest;
    } else {
      assert items[1..] == LabelItems(l)[k + 1..] + rest;
      RunLabels(l, k + 1, rest, f);
    }
  }

  lemma LabelMatches(l: Label, key: Key)
    ensures KeyItem(key) in LabelItems(l) <==> l.Is(key)
  {
    if l.Consts? {
      assert forall i :: 0 <= i < |l.rest| ==> LabelItems(l)[i + 1] == CaseLabel(l.rest[i]);
    }
  }

  // A statement `label: code` where code contains no label of its own at top level.
  lemma {:induction false} LabelledArm(l: Label, code: seq<Item>, key: Key, rest: seq<Item>, f: Fields)
    requires KeyItem(key) !in code
    ensures var items := LabelItems(l) + code; var k := IndexOf(items, KeyItem(key));
            (k < |items| <==> l.Is(key)) &&
            (l.Is(key) ==> Run(items[k..] + rest, f) == Run(code + rest, f))
  {
    hide Run, LabelItems, IndexOf;
    var items := LabelItems(l) + code;
    LabelMatches(l, key);
    IndexOfConcat(LabelItems(l), code, KeyItem(key));
    var k := IndexOf(items, KeyItem(key));
    if l.Is(key) {
      assert k < |LabelItems(l)|;
      assert items[k..] + rest == LabelItems(l)[k..] + (code + rest);
      RunLabels(l, k, code + rest, f);
    }
  }

  // A switch over items finds the arm for the key and executes it as described.
  ghost predicate Finds(items: seq<Item>, key: Key, arm: Option<Code>, alone: bool, rest: seq<Item>, f: Fields) {
    var k := IndexOf(items, KeyItem(key));
    (k < |items| <==> arm.Some?) &&
    (arm.Some? ==> Execs(Run(items[k..] + rest, f), arm.value, alone))
  }

  lemma FindsJoin(g: seq<Item>, gs: seq<Item>, key: Key, arm: Option<Code>, alone: bool,
                  arm': Option<Code>, alone': bool, rest: seq<Item>, f: Fields)
    requires Finds(g, key, arm, alone, gs + rest, f)
    requires Finds(gs, key, arm', alone', rest, f)
    ensures Finds(g + gs, key, if arm.Some? then arm else arm', if arm.Some? then alone else alone', rest, f)
  {
    IndexOfConcat(g, gs, KeyItem(key));
    var k := IndexOf(g + gs, KeyItem(key));
    IndexOfFound(g, KeyItem(key));
    if arm.Some? {
      DropConcat(g, gs, k, rest);
    } else if arm'.Some? {
      assert k - |g| == IndexOf(gs, KeyItem(key));
      DropConcat(g, gs, k, rest);
    }
  }

  lemma DropConcat(g: seq<Item>, gs: seq<Item>, k: nat, rest: seq<Item>)
    requires k <= |g| + |gs|
    ensures (g + gs)[k..] + rest == if k < |g| then g[k..] + (gs + rest) else gs[k - |g|..] + rest
  {
  }

  lemma FindsWeaken(g: seq<Item>, key: Key, arm: Option<Code>, alone: bool, alone': bool, rest: seq<Item>, f: Fields)
    requires Finds(g, key, arm, alone, rest, f) && (arm.Some? ==> alone == alone')
    ensures Finds(g, key, arm, alone', rest, f)
  {
  }

  lemma {:induction false} IndexOfFound(items: seq<Item>, x: Item)
    ensures IndexOf(items, x) < |items| <==> x in items
  {
    assert items[..|items|] == items;
  }

  // In compiled statements the switch finds the arm the description selects for the key.
  lemma {:induction false} ListArm(env: Formats, l: StmtList, key: Key, d: Option<Code>, fmt: Option<string>, rest: seq<Item>, f: Fields)
    requires CompileList(env, l, DefaultCode(d), fmt).Ok?
    ensures Finds(CompileList(env, l, DefaultCode(d), fmt).value.decode, key,
                  ArmIn(env, l, key, d, fmt, f), AloneIn(env, l, key, d, fmt, f, Silent(rest, f)), rest, f)
    decreases l, 2
  {
    hide Finds, Run, IndexOf, Execs;
    var g := CompileStmt(env, l.stmt, DefaultCode(d), fmt).value.decode;
    if l.One? {
      StmtArm(env, l.stmt, key, d, fmt, rest, f);
      assert Finds(g, key, ArmOf(env, l.stmt, key, d, fmt, f),
                   AloneOf(env, l.stmt, key, d, fmt, f, Silent(rest, f)), rest, f);
      FindsWeaken(g, key, ArmOf(env, l.stmt, key, d, fmt, f), AloneOf(env, l.stmt, key, d, fmt, f, Silent(rest, f)),
                  AloneIn(env, l, key, d, fmt, f, Silent(rest, f)), rest, f);
    } else {
      var gs := CompileList(env, l.tail, DefaultCode(d), fmt).value.decode;
      StmtArm(env, l.stmt, key, d, fmt, gs + rest, f);
      ListArm(env, l.tail, key, d, fmt, rest, f);
      ListQuiet(env, l.tail, d, fmt, rest, f);
      FindsJoin(g, gs, key, ArmOf(env, l.stmt, key, d, fmt, f),
                AloneOf(env, l.stmt, key, d, fmt, f, Silent(gs + rest, f)),
                ArmIn(env, l.tail, key, d, fmt, f), AloneIn(env, l.tail, key, d, fmt, f, Silent(rest, f)), rest, f);
    }
  }

  lemma {:induction false} StmtArm(env: Formats, s: Stmt, key: Key, d: Option<Code>, fmt: Option<string>, rest: seq<Item>, f: Fields)
    requires CompileStmt(env, s, DefaultCode(d), fmt).Ok?
    ensures Finds(CompileStmt(env, s, DefaultCode(d), fmt).value.decode, key,
                  ArmOf(env, s, key, d, fmt, f), AloneOf(env, s, key, d, fmt, f, Silent(rest, f)), rest, f)
    decreases s, 1
  {
    match s
    case CppDirective(t) =>
    case Format(id, body) =>
      ListArm(env, body, key, d, Some(id), rest, f);
    case DecodeCase(lab, b) =>
      var g := CompileBlock(env, b, DefaultCode(d), fmt).value;
      assert LabelItems(lab) + g.decode + [] == LabelItems(lab) + g.decode;
      LabelledArm(lab, g.decode, key, rest, f);
      BlockRuns(env, b, d, fmt, rest, f);
    case InstCase(lab, i) =>
      var c := CodeOf(env, i, fmt).value;
      assert LabelItems(lab) + [Emit(c)] + [Break] == LabelItems(lab) + [Emit(c), Break];
      LabelledArm(lab, [Emit(c), Break], key, rest, f);
      RunEmit(c, rest, f);
  }

  lemma {:induction false} RunEmit(c: Code, rest: seq<Item>, f: Fields)
    ensures Execs(Run([Emit(c), Break] + rest, f), c, true)
  {
    var items := [Emit(c), Break] + rest;
    assert items[1..] == [Break] + rest;
  }

  // Running into compiled statements from above executes something unless they are quiet.
  lemma {:induction false} ListQuiet(env: Formats, l: StmtList, d: Option<Code>, fmt: Option<string>, rest: seq<Item>, f: Fields)
    requires CompileList(env, l, DefaultCode(d), fmt).Ok?
    ensures Silent(CompileList(env, l, DefaultCode(d), fmt).value.decode + rest, f) <==> Quiet(l) && Silent(rest, f)
    decreases l, 1
  {
    hide Run, Silent;
    var g := CompileStmt(env, l.stmt, DefaultCode(d), fmt).value.decode;
    if l.One? {
      StmtQuiet(env, l.stmt, d, fmt, rest, f);
    } else {
      var gs := CompileList(env, l.tail, DefaultCode(d), fmt).value.decode;
      ListQuiet(env, l.tail, d, fmt, rest, f);
      StmtQuiet(env, l.stmt, d, fmt, gs + rest, f);
      assert g + gs + rest == g + (gs + rest);
    }
  }

  lemma {:induction false} StmtQuiet(env: Formats, s: Stmt, d: Option<Code>, fmt: Option<string>, rest: seq<Item>, f: Fields)
    requires CompileStmt(env, s, DefaultCode(d), fmt).Ok?
    ensures Silent(CompileStmt(env, s, DefaultCode(d), fmt).value.decode + rest, f) <==> QuietStmt(s) && Silent(rest, f)
    decreases s, 0
  {
    var g := CompileStmt(env, s, DefaultCode(d), fmt).value.decode;
    match s
    case CppDirective(t) =>
      assert ([Directive(t)] + rest)[1..] == rest;
    case Format(id, body) =>
      ListQuiet(env, body, d, Some(id), rest, f);
    case DecodeCase(lab, b) =>
      var code := CompileBlock(env, b, DefaultCode(d), fmt).value.decode;
      BlockRuns(env, b, d, fmt, rest, f);
      assert g + rest == LabelItems(lab)[0..] + (code + rest);
      RunLabels(lab, 0, code + rest, f);
    case InstCase(lab, i) =>
      var c := CodeOf(env, i, fmt).value;
      RunEmit(c, rest, f);
      assert g + rest == LabelItems(lab)[0..] + ([Emit(c), Break] + rest);
      RunLabels(lab, 0, [Emit(c), Break] + rest, f);
  }

  // Control is returned only by code that returns.
  lemma {:induction false} ReturnedByFinal(items: seq<Item>, f: Fields)
    ensures var e := Run(items, f); e.status == Returned ==> e.trace != [] && e.trace[|e.trace| - 1].final
    decreases items
  {
    if items != [] {
      match items[0]
      case Switch(field, body) =>
        var k := Target(body, f(field));
        if k < |body| { ReturnedByFinal(body[k..], f); }
        ReturnedByFinal(items[1..], f);
      case _ =>
        ReturnedByFinal(items[1..], f);
    }
  }

  // A switch that jumps to place k of its body.
  lemma {:induction false} SwitchRuns(field: string, body: seq<Item>, k: nat, c: Code, alone: bool, rest: seq<Item>, f: Fields)
    requires k == Target(body, f(field)) && k < |body|
    requires Execs(Run(body[k..], f), c, alone)
    ensures Execs(Run([Switch(field, body)] + rest, f), c, alone && Silent(rest, f))
  {
    var inner := Run(body[k..], f);
    assert ([Switch(field, body)] + rest)[1..] == rest;
    ReturnedByFinal(body[k..], f);
  }

  lemma DefaultCompiles(env: Formats, b: Block, inherited: Option<Code>, fmt: Option<string>)
    requires CompileDefault(env, b, DefaultCode(inherited), fmt).Ok?
    ensures CompileDefault(env, b, DefaultCode(inherited), fmt).value == DefaultCode(OwnDefault(env, b, inherited, fmt))
  {
    if b.default_.Some? {
      var c := CodeOf(env, b.default_.value, fmt).value;
      assert [DefaultLabel] + [Emit(c)] + [Break] == [DefaultLabel, Emit(c), Break];
    }
  }

  // The flag that suppresses the default default is set exactly when there is a default label.
  lemma {:induction false} DefaultFlag(env: Formats, l: StmtList, top: Option<GenCode>, fmt: Option<string>)
    requires CompileList(env, l, top, fmt).Ok?
    ensures var g := CompileList(env, l, top, fmt).value; g.hasDefault <==> DefaultLabel in g.decode
    decreases l, 1
  {
    StmtDefaultFlag(env, l.stmt, top, fmt);
    if l.More? {
      DefaultFlag(env, l.tail, top, fmt);
    }
  }

  lemma {:induction false} StmtDefaultFlag(env: Formats, s: Stmt, top: Option<GenCode>, fmt: Option<string>)
    requires CompileStmt(env, s, top, fmt).Ok?
    ensures var g := CompileStmt(env, s, top, fmt).value; g.hasDefault <==> DefaultLabel in g.decode
    decreases s, 0
  {
    match s
    case CppDirective(_) =>
    case Format(id, body) =>
      DefaultFlag(env, body, top, Some(id));
    case DecodeCase(lab, b) =>
      LabelMatches(lab, None);
      assert DefaultLabel !in CompileBlock(env, b, top, fmt).value.decode;
    case InstCase(lab, i) =>
      LabelMatches(lab, None);
  }

  // Where the switch of a block jumps: into its statements, else to the default default.
  lemma {:induction false} BlockTarget(items: seq<Item>, after: seq<Item>, v: nat)
    requires CaseLabel(v) !in after
    ensures var k := Target(items + after, v);
            if CaseLabel(v) in items then k == IndexOf(items, CaseLabel(v))
            else if DefaultLabel in items then k == IndexOf(items, DefaultLabel)
            else k == |items| + IndexOf(after, DefaultLabel)
  {
    IndexOfConcat(items, after, CaseLabel(v));
    IndexOfConcat(items, after, DefaultLabel);
    IndexOfFound(items + after, CaseLabel(v));
  }

  lemma {:induction false} FoundArmRuns(field: string, items: seq<Item>, after: seq<Item>, key: Key, arm: Option<Code>, alone: bool,
                     rest: seq<Item>, f: Fields)
    requires arm.Some? && Finds(items, key, arm, alone, after, f)
    requires Target(items + after, f(field)) == IndexOf(items, KeyItem(key))
    ensures Execs(Run([Switch(field, items + after)] + rest, f), arm.value, alone && Silent(rest, f))
  {
    var k := IndexOf(items, KeyItem(key));
    assert (items + after)[k..] == items[k..] + after;
    SwitchRuns(field, items + after, k, arm.value, alone, rest, f);
  }

  lemma {:induction false} DefaultDefaultRuns(field: string, items: seq<Item>, c: Code, rest: seq<Item>, f: Fields)
    requires Target(items + [DefaultLabel, Emit(c), Break], f(field)) == |items|
    ensures Execs(Run([Switch(field, items + [DefaultLabel, Emit(c), Break])] + rest, f), c, Silent(rest, f))
  {
    var body := items + [DefaultLabel, Emit(c), Break];
    assert body[|items|..] == [DefaultLabel] + ([Emit(c), Break] + []);
    RunEmit(c, [], f);
    assert Run(body[|items|..], f) == Run([Emit(c), Break] + [], f);
    SwitchRuns(field, body, |items|, c, true, rest, f);
  }

  // The emitted switch executes first what the decode block selects, whatever surrounds it.
  lemma {:induction false} BlockRuns(env: Formats, b: Block, inherited: Option<Code>, fmt: Option<string>, rest: seq<Item>, f: Fields)
    requires CompileBlock(env, b, DefaultCode(inherited), fmt).Ok?
    ensures var sel := Decode(env, b, inherited, fmt, f);
            sel.Some? && Execs(Run(CompileBlock(env, b, DefaultCode(inherited), fmt).value.decode + rest, f),
                               sel.value, Alone(env, b, inherited, fmt, f) && Silent(rest, f))
    decreases b, 2
  {
    hide Run, IndexOf, Execs, Target;
    var d := OwnDefault(env, b, inherited, fmt);
    DefaultCompiles(env, b, inherited, fmt);
    var g := CompileList(env, b.body, DefaultCode(d), fmt).value;
    var after := if g.hasDefault then [] else DefaultCode(d).value.decode;
    assert g.decode + [] == g.decode;
    assert CompileBlock(env, b, DefaultCode(inherited), fmt).value.decode == [Switch(b.field, g.decode + after)];
    var v := f(b.field);
    ListArm(env, b.body, Some(v), d, fmt, after, f);
    ListArm(env, b.body, None, d, fmt, after, f);
    DefaultFlag(env, b.body, DefaultCode(d), fmt);
    IndexOfFound(g.decode, CaseLabel(v));
    IndexOfFound(g.decode, DefaultLabel);
    BlockTarget(g.decode, after, v);
    AfterSilent(d, after, f);
    var arm, own := ArmIn(env, b.body, Some(v), d, fmt, f), ArmIn(env, b.body, None, d, fmt, f);
    if arm.Some? {
      FoundArmRuns(b.field, g.decode, after, Some(v), arm, AloneIn(env, b.body, Some(v), d, fmt, f, Silent(after, f)), rest, f);
    } else if own.Some? {
      FoundArmRuns(b.field, g.decode, after, None, own, AloneIn(env, b.body, None, d, fmt, f, Silent(after, f)), rest, f);
    } else {
      DefaultDefaultRuns(b.field, g.decode, d.value, rest, f);
    }
  }

  lemma {:induction false} AfterSilent(d: Option<Code>, after: seq<Item>, f: Fields)
    ensures after == [] ==> Silent(after, f)
    ensures d.Some? && after == DefaultCode(d).value.decode ==> !Silent(after, f) && IndexOf(after, DefaultLabel) == 0
  {
    if d.Some? && after == DefaultCode(d).value.decode {
      assert after[1..] == [Emit(d.value), Break] + [];
      RunEmit(d.value, [], f);
    }
  }

  // A top-level decode block: no enclosing default, no format in force.
  lemma {:induction false} DecodeFunctionCorrect(env: Formats, b: Block, f: Fields)
    requires CompileBlock(env, b, None, None).Ok?
    ensures var sel := Decode(env, b, None, None, f);
            var e := Run(CompileBlock(env, b, None, None).value.decode, f);
            sel.Some? && e.trace != [] && e.trace[0] == sel.value &&
            (sel.value.final ==> e == Exec([sel.value], Returned)) &&
            (e.trace == [sel.value] <==> sel.value.final || Alone(env, b, None, None, f))
  {
    var code := CompileBlock(env, b, None, None).value.decode;
    assert code + [] == code;
    BlockRuns(env, b, None, None, [], f);
  }

  // Code that does not return, selected in a nested block that is not the last case, runs on
  // into the case after the nested block.
  lemma {:induction false} FallsIntoNextCase(field: string, inner: string, env: Formats, a: Inst, z: Inst, f: Fields)
    requires f(field) == 1 && CodeOf(env, a, None).Ok? && CodeOf(env, z, None).Ok?
    requires !CodeOf(env, a, None).value.final && CodeOf(env, z, None).value.final
    ensures var nested := Block(inner, None, One(InstCase(Default, a)));
            var b := Block(field, None, More(DecodeCase(Consts(1, []), nested), One(InstCase(Default, z))));
            var g := CompileBlock(env, b, None, None);
            Decode(env, b, None, None, f) == Some(CodeOf(env, a, None).value) &&
            g.Ok? && |Run(g.value.decode, f).trace| >= 2
  {
    var nested := Block(inner, None, One(InstCase(Default, a)));
    var b := Block(field, None, More(DecodeCase(Consts(1, []), nested), One(InstCase(Default, z))));
    assert CompileStmt(env, nested.body.stmt, None, None).Ok?;
    assert CompileList(env, nested.body, None, None).value.hasDefault;
    assert CompileBlock(env, nested, None, None).Ok?;
    assert CompileStmt(env, b.body.stmt, None, None).Ok?;
    assert CompileStmt(env, b.body.tail.stmt, None, None).value.hasDefault;
    assert CompileList(env, b.body.tail, None, None).value.hasDefault;
    assert CompileList(env, b.body, None, None).value.hasDefault;
    DecodeFunctionCorrect(env, b, f);
    assert ArmOf(env, nested.body.stmt, None, None, None, f) == Some(CodeOf(env, a, None).value);
    assert ArmIn(env, nested.body, None, None, None, f) == Some(CodeOf(env, a, None).value);
    assert ArmOf(env, nested.body.stmt, Some(f(inner)), None, None, f) == None;
    assert Decode(env, nested, None, None, f) == Some(CodeOf(env, a, None).value);
    assert ArmOf(env, b.body.stmt, Some(1), None, None, f) == Decode(env, nested, None, None, f);
    assert !AloneOf(env, b.body.stmt, Some(1), None, None, f, false);
    assert !Quiet(b.body.tail);
    assert !Alone(env, b, None, None, f);
    var e := Run(CompileBlock(env, b, None, None).value.decode, f);
    assert e.trace == [e.trace[0]] + e.trace[1..];
  }

  // The parser state the actions work on: the default and format stacks.
  class Parser {
    const env: Formats
    var defaultStack: seq<Option<GenCode>>
    var formatStack: seq<Option<string>>

    constructor (env: Formats)
      ensures this.env == env && defaultStack == [None] && formatStack == [None]
    {
      this.env := env;
      defaultStack := [None];
      formatStack := [None];
    }

    ghost predicate Valid()
      reads this
    {
      defaultStack != [] && formatStack != []
    }

    function DefaultTop(): Option<GenCode>
      requires Valid()
      reads this
    {
      defaultStack[|defaultStack| - 1]
    }

    function FormatTop(): Option<string>
      requires Valid()
      reads this
    {
      formatStack[|formatStack| - 1]
    }

    // Pushes the defaults that the block and everything nested in it will use.
    method OptDefault(b: Block) returns (r: Result<()>)
      requires Valid()
      modifies this`defaultStack
      ensures var d := old(CompileDefault(env, b, DefaultTop(), FormatTop()));
              if d.Ok? then r.Ok? && defaultStack == old(defaultStack) + [d.value]
              else r == Err(d.error) && defaultStack == old(defaultStack)
    {
      match b.default_
      case None =>
        defaultStack := defaultStack + [DefaultTop()];
        r := Ok(());
      case Some(i) =>
        var g := CompileInst(env, i, FormatTop());
        if g.Err? {
          return Err(g.error);
        }
        defaultStack := defaultStack + [Some(g.value.Wrap([DefaultLabel], [Break]))];
        r := Ok(());
    }

    // A successful parse leaves both stacks as it found them and yields the compiled block.
    method DecodeBlock(b: Block) returns (r: Result<GenCode>)
      requires Valid()
      modifies this`defaultStack, this`formatStack
      ensures r == old(CompileBlock(env, b, DefaultTop(), FormatTop()))
      ensures r.Ok? ==> defaultStack == old(defaultStack) && formatStack == old(formatStack)
      decreases b, 1
    {
      var pushed := OptDefault(b);
      if pushed.Err? {
        return Err(pushed.error);
      }
      var list := DecodeStmtList(b.body);
      if list.Err? {
        return list;
      }
      var defaults := DefaultTop();
      defaultStack := defaultStack[..|defaultStack| - 1];
      r := CloseBlock(b.field, list.value, defaults);
    }

    method DecodeStmtList(l: StmtList) returns (r: Result<GenCode>)
      requires Valid()
      modifies this`defaultStack, this`formatStack
      ensures r == old(CompileList(env, l, DefaultTop(), FormatTop()))
      ensures r.Ok? ==> defaultStack == old(defaultStack) && formatStack == old(formatStack)
      decreases l, 1
    {
      var first := DecodeStmt(l.stmt);
      if first.Err? || l.One? {
        return first;
      }
      var others := DecodeStmtList(l.tail);
      if others.Err? {
        return others;
      }
      if first.value.hasDefault && others.value.hasDefault {
        return Err(TwoDefaults);
      }
      r := Ok(first.value.Plus(others.value));
    }

    method DecodeStmt(s: Stmt) returns (r: Result<GenCode>)
      requires Valid()
      modifies this`defaultStack, this`formatStack
      ensures r == old(CompileStmt(env, s, DefaultTop(), FormatTop()))
      ensures r.Ok? ==> defaultStack == old(defaultStack) && formatStack == old(formatStack)
      decreases s, 0
    {
      match s
      case CppDirective(t) =>
        r := Ok(GenCode([Directive(t)], false));
      case Format(id, body) =>
        if id !in env.known {
          return Err(UnknownFormat);
        }
        formatStack := formatStack + [Some(id)];
        r := DecodeStmtList(body);
        if r.Ok? {
          formatStack := formatStack[..|formatStack| - 1];
        }
      case DecodeCase(lab, b) =>
        r := DecodeBlock(b);
        if r.Ok? {
          r := Ok(r.value.Wrap(LabelItems(lab), []).(hasDefault := lab.Default?));
        }
      case InstCase(lab, i) =>
        r := CompileInst(env, i, FormatTop());
        if r.Ok? {
          r := Ok(r.value.Wrap(LabelItems(lab), [Break]).(hasDefault := lab.Default?));
        }
    }
  }
}

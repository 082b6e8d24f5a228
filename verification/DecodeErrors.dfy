/**
 Which decode blocks the grammar actions accept, and which error they raise for the others.
 */
module DecodeErrors {
  import opened Options
  import opened DecodeTree
  import opened IsaParser

  // The number of default cases among the statements, looking through format blocks.
  function Defaults(l: StmtList): nat
    decreases l, 1
  {
    StmtDefaults(l.stmt) + if l.More? then Defaults(l.tail) else 0
  }

  function StmtDefaults(s: Stmt): nat
    decreases s, 0
  {
    match s
    case CppDirective(_) => 0
    case Format(_, body) => Defaults(body)
    case DecodeCase(lab, _) => if lab == Default then 1 else 0
    case InstCase(lab, _) => if lab == Default then 1 else 0
  }

  // ----- What a tree consists of -----

  datatype Part =
    | UsesFormat(id: string)
    | UsesInst(inst: Inst, fmt: Option<string>) // with the format in force
    | HasBlock(block: Block, scope: bool) // whether it or a block around it names a default

  function Parts(b: Block, scope: bool, fmt: Option<string>): set<Part>
    decreases b, 1
  {
    var scope' := scope || b.default_.Some?;
    {HasBlock(b, scope')} + (if b.default_.Some? then {UsesInst(b.default_.value, fmt)} else {}) +
    ListParts(b.body, scope', fmt)
  }

  function ListParts(l: StmtList, scope: bool, fmt: Option<string>): set<Part>
    decreases l, 1
  {
    StmtParts(l.stmt, scope, fmt) + if l.More? then ListParts(l.tail, scope, fmt) else {}
  }

  function StmtParts(s: Stmt, scope: bool, fmt: Option<string>): set<Part>
    decreases s, 0
  {
    match s
    case CppDirective(_) => {}
    case Format(id, body) => {UsesFormat(id)} + ListParts(body, scope, Some(id))
    case DecodeCase(_, b) => Parts(b, scope, fmt)
    case InstCase(_, i) => {UsesInst(i, fmt)}
  }

  // Formats are defined; an instruction names one or stands in one, which knows what to do with
  // it; a block has one default case, or none and a default in scope.
  predicate Sound(env: Formats, p: Part) {
    match p
    case UsesFormat(id) => id in env.known
    case UsesInst(i, fmt) =>
      (i.format.Some? && i.format.value in env.known && env.define(i.format.value, i.name, i.args).Some?) ||
      (i.format.None? && fmt.Some? && env.define(fmt.value, i.name, i.args).Some?)
    case HasBlock(b, scope) => Defaults(b.body) == 1 || (Defaults(b.body) == 0 && scope)
  }

  ghost predicate AllSound(env: Formats, ps: set<Part>) {
    forall p <- ps :: Sound(env, p)
  }

  ghost predicate Accepted(env: Formats, b: Block, scope: bool, fmt: Option<string>) {
    AllSound(env, Parts(b, scope, fmt))
  }

  // ----- All that is wrong with a tree, in the order in which the actions come across it -----

  function InstProblems(env: Formats, i: Inst, fmt: Option<string>): seq<Error> {
    match (i.format, fmt)
    case (None, None) => [NoActiveFormat]
    case (None, Some(id)) => if env.define(id, i.name, i.args).None? then [InstError] else []
    case (Some(id), _) =>
      if id !in env.known then [UnknownFormat]
      else if env.define(id, i.name, i.args).None? then [InstError] else []
  }

  function Problems(env: Formats, b: Block, scope: bool, fmt: Option<string>): seq<Error>
    decreases b, 1
  {
    var scope' := scope || b.default_.Some?;
    (if b.default_.Some? then InstProblems(env, b.default_.value, fmt) else []) +
    ListProblems(env, b.body, scope', fmt) +
    (if Defaults(b.body) == 0 && !scope' then [NoDefault] else [])
  }

  function ListProblems(env: Formats, l: StmtList, scope: bool, fmt: Option<string>): seq<Error>
    decreases l, 1
  {
    StmtProblems(env, l.stmt, scope, fmt) +
    (if l.One? then [] else
       ListProblems(env, l.tail, scope, fmt) +
       (if StmtDefaults(l.stmt) > 0 && Defaults(l.tail) > 0 then [TwoDefaults] else []))
  }

  function StmtProblems(env: Formats, s: Stmt, scope: bool, fmt: Option<string>): seq<Error>
    decreases s, 0
  {
    match s
    case CppDirective(_) => []
    case Format(id, body) =>
      (if id in env.known then [] else [UnknownFormat]) + ListProblems(env, body, scope, Some(id))
    case DecodeCase(_, b) => Problems(env, b, scope, fmt)
    case InstCase(_, i) => InstProblems(env, i, fmt)
  }

  // The result answers the problems: the first of them, or code if there is none.
  ghost predicate Answers<T>(r: Result<T>, problems: seq<Error>) {
    if problems == [] then r.Ok? else r == Err(problems[0])
  }

  // ----- Proof -----

  lemma InstAnswers(env: Formats, i: Inst, fmt: Option<string>)
    ensures Answers(CompileInst(env, i, fmt), InstProblems(env, i, fmt))
    ensures InstProblems(env, i, fmt) == [] <==> Sound(env, UsesInst(i, fmt))
  {
  }

  lemma {:induction false} ListAnswers(env: Formats, l: StmtList, top: Option<GenCode>, fmt: Option<string>)
    ensures var g := CompileList(env, l, top, fmt);
            Answers(g, ListProblems(env, l, top.Some?, fmt)) && (g.Ok? ==> (g.value.hasDefault <==> Defaults(l) > 0))
    decreases l, 1
  {
    StmtAnswers(env, l.stmt, top, fmt);
    if l.More? {
      ListAnswers(env, l.tail, top, fmt);
    }
  }

  lemma {:induction false} StmtAnswers(env: Formats, s: Stmt, top: Option<GenCode>, fmt: Option<string>)
    ensures var g := CompileStmt(env, s, top, fmt);
            Answers(g, StmtProblems(env, s, top.Some?, fmt)) && (g.Ok? ==> (g.value.hasDefault <==> StmtDefaults(s) > 0))
    decreases s, 0
  {
    match s
    case CppDirective(_) =>
    case Format(id, body) =>
      ListAnswers(env, body, top, Some(id));
    case DecodeCase(_, b) =>
      BlockAnswers(env, b, top, fmt);
    case InstCase(_, i) =>
      InstAnswers(env, i, fmt);
  }

  // A block is refused with the first of its problems, and accepted if it has none.
  lemma {:induction false} BlockAnswers(env: Formats, b: Block, top: Option<GenCode>, fmt: Option<string>)
    ensures Answers(CompileBlock(env, b, top, fmt), Problems(env, b, top.Some?, fmt))
    decreases b, 1
  {
    if b.default_.Some? {
      InstAnswers(env, b.default_.value, fmt);
    }
    var d := CompileDefault(env, b, top, fmt);
    if d.Ok? {
      ListAnswers(env, b.body, d.value, fmt);
    }
  }

  lemma AllSoundUnion(env: Formats, a: set<Part>, b: set<Part>)
    ensures AllSound(env, a + b) <==> AllSound(env, a) && AllSound(env, b)
  {
    if AllSound(env, a + b) {
      assert forall p <- a :: p in a + b;
      assert forall p <- b :: p in a + b;
    }
  }

  lemma {:induction false} NoListProblems(env: Formats, l: StmtList, scope: bool, fmt: Option<string>)
    ensures ListProblems(env, l, scope, fmt) == [] <==> AllSound(env, ListParts(l, scope, fmt)) && Defaults(l) <= 1
    decreases l, 1
  {
    NoStmtProblems(env, l.stmt, scope, fmt);
    if l.More? {
      NoListProblems(env, l.tail, scope, fmt);
      AllSoundUnion(env, StmtParts(l.stmt, scope, fmt), ListParts(l.tail, scope, fmt));
    } else {
      assert ListParts(l, scope, fmt) == StmtParts(l.stmt, scope, fmt);
    }
  }

  lemma {:induction false} NoStmtProblems(env: Formats, s: Stmt, scope: bool, fmt: Option<string>)
    ensures StmtProblems(env, s, scope, fmt) == [] <==> AllSound(env, StmtParts(s, scope, fmt)) && StmtDefaults(s) <= 1
    decreases s, 0
  {
    match s
    case CppDirective(_) =>
    case Format(id, body) =>
      NoListProblems(env, body, scope, Some(id));
      AllSoundUnion(env, {UsesFormat(id)}, ListParts(body, scope, Some(id)));
    case DecodeCase(_, b) =>
      NoProblems(env, b, scope, fmt);
    case InstCase(_, i) =>
      InstAnswers(env, i, fmt);
  }

  lemma {:induction false} NoProblems(env: Formats, b: Block, scope: bool, fmt: Option<string>)
    ensures Problems(env, b, scope, fmt) == [] <==> Accepted(env, b, scope, fmt)
    decreases b, 1
  {
    var scope' := scope || b.default_.Some?;
    NoListProblems(env, b.body, scope', fmt);
    var own: set<Part> := if b.default_.Some? then {UsesInst(b.default_.value, fmt)} else {};
    if b.default_.Some? {
      InstAnswers(env, b.default_.value, fmt);
    }
    AllSoundUnion(env, {HasBlock(b, scope')}, own);
    AllSoundUnion(env, {HasBlock(b, scope')} + own, ListParts(b.body, scope', fmt));
  }

  // Exactly the accepted trees compile.
  lemma {:induction false} CompilesIff(env: Formats, b: Block, top: Option<GenCode>, fmt: Option<string>)
    ensures CompileBlock(env, b, top, fmt).Ok? <==> Accepted(env, b, top.Some?, fmt)
  {
    BlockAnswers(env, b, top, fmt);
    NoProblems(env, b, top.Some?, fmt);
  }

  // An instruction is compiled by the format it names, else by the one in force.
  lemma ExplicitFormatFirst(env: Formats, i: Inst, fmt: Option<string>, c: Code)
    ensures CodeOf(env, i, fmt) == Ok(c) <==>
            Sound(env, UsesInst(i, fmt)) &&
            env.define(if i.format.Some? then i.format.value else fmt.value, i.name, i.args) == Some(c)
  {
    InstAnswers(env, i, fmt);
  }
}

/**
 Decode blocks of an ISA description: the syntax tree, the C++ code the grammar actions
 emit for it, and what each of them means.
 */
module DecodeTree {
  import opened Options

  datatype Error = NoActiveFormat | UnknownFormat | InstError | TwoDefaults | NoDefault

  datatype Result<+T> = Ok(value: T) | Err(error: Error) {
    predicate IsFailure() { Err? }
    function PropagateFailure<U>(): Result<U> requires Err? { Err(error) }
    function Extract(): T requires Ok? { value }
  }

  // ----- Syntax -----

  // What a switch looks for: a constant, or the default case.
  type Key = Option<nat>

  datatype Label = Default | Consts(first: nat, rest: seq<nat>) {
    predicate Is(key: Key) {
      match key
      case None => Default?
      case Some(v) => Consts? && (v == first || v in rest)
    }
  }

  // fmt::name(args), or name(args) in the current format
  datatype Inst = Inst(format: Option<string>, name: string, args: string)

  datatype Block = Block(field: string, default_: Option<Inst>, body: StmtList)
  datatype StmtList = One(stmt: Stmt) | More(stmt: Stmt, tail: StmtList)
  datatype Stmt =
    | CppDirective(text: string)
    | Format(id: string, body: StmtList)
    | DecodeCase(lab: Label, block: Block)
    | InstCase(lab: Label, inst: Inst)

  // ----- Generated code -----

  // What a format makes of an instruction; `final` says that it always returns.
  datatype Code = Code(text: string, final: bool)

  datatype Item =
    | CaseLabel(value: nat)
    | DefaultLabel
    | Emit(code: Code)
    | Break
    | Switch(field: string, body: seq<Item>)
    | Directive(text: string)

  // The formats in force: which exist, and what each makes of an instruction.
  datatype Formats = Formats(known: set<string>, define: (string, string, string) -> Option<Code>)

  // The code of an instruction in current format `fmt`, or the error raised for it.
  function CodeOf(env: Formats, inst: Inst, fmt: Option<string>): Result<Code> {
    var id :- (match inst.format
               case None => if fmt.None? then Err(NoActiveFormat) else Ok(fmt.value)
               case Some(f) => if f in env.known then Ok(f) else Err(UnknownFormat));
    match env.define(id, inst.name, inst.args)
    case None => Err(InstError)
    case Some(c) => Ok(c)
  }

  // ----- Meaning of a decode block -----

  type Fields = string -> nat

  // What the block selects: the first case that matches the field, else its default case,
  // else the default of the block, else the default inherited from the enclosing block.
  function Decode(env: Formats, b: Block, inherited: Option<Code>, fmt: Option<string>, f: Fields): Option<Code>
    decreases b, 1
  {
    var d := OwnDefault(env, b, inherited, fmt);
    match ArmIn(env, b.body, Some(f(b.field)), d, fmt, f)
    case Some(c) => Some(c)
    case None =>
      match ArmIn(env, b.body, None, d, fmt, f)
      case Some(c) => Some(c)
      case None => d
  }

  function OwnDefault(env: Formats, b: Block, inherited: Option<Code>, fmt: Option<string>): Option<Code> {
    match b.default_
    case None => inherited
    case Some(i) => Succeeded(CodeOf(env, i, fmt))
  }

  function Succeeded(r: Result<Code>): Option<Code> {
    if r.Ok? then Some(r.value) else None
  }

  // The first statement labelled with the key, looking through format blocks.
  function ArmIn(env: Formats, l: StmtList, key: Key, d: Option<Code>, fmt: Option<string>, f: Fields): Option<Code>
    decreases l, 1
  {
    match ArmOf(env, l.stmt, key, d, fmt, f)
    case Some(c) => Some(c)
    case None => if l.More? then ArmIn(env, l.tail, key, d, fmt, f) else None
  }

  function ArmOf(env: Formats, s: Stmt, key: Key, d: Option<Code>, fmt: Option<string>, f: Fields): Option<Code>
    decreases s, 0
  {
    match s
    case CppDirective(_) => None
    case Format(id, body) => ArmIn(env, body, key, d, Some(id), f)
    case DecodeCase(lab, b) => if lab.Is(key) then Decode(env, b, d, fmt, f) else None
    case InstCase(lab, i) => if lab.Is(key) then Succeeded(CodeOf(env, i, fmt)) else None
  }

  // ----- Meaning of the generated code -----

  datatype Status = Fell | Broke | Returned

  // The instruction codes executed, in order, and how control left.
  datatype Exec = Exec(trace: seq<Code>, status: Status) {
    function Then(next: Exec): Exec {
      Exec(trace + next.trace, next.status)
    }
  }

  // Statements in sequence; labels and directives do nothing.
  function Run(items: seq<Item>, f: Fields): Exec
    decreases items
  {
    if items == [] then Exec([], Fell)
    else match items[0]
      case CaseLabel(_) => Run(items[1..], f)
      case DefaultLabel => Run(items[1..], f)
      case Directive(_) => Run(items[1..], f)
      case Break => Exec([], Broke)
      case Emit(c) => if c.final then Exec([c], Returned) else Exec([c], Fell).Then(Run(items[1..], f))
      case Switch(field, body) =>
        var k := Target(body, f(field));
        var inner := if k < |body| then Run(body[k..], f) else Exec([], Fell);
        if inner.status == Returned then inner else inner.Then(Run(items[1..], f))
  }

  // Where a switch on value v jumps to; |body| when it is skipped.
  function Target(body: seq<Item>, v: nat): (k: nat)
    ensures k <= |body|
  {
    var k := IndexOf(body, CaseLabel(v));
    if k < |body| then k else IndexOf(body, DefaultLabel)
  }

  function IndexOf(items: seq<Item>, x: Item): (k: nat)
    ensures k <= |items|
    ensures k < |items| ==> items[k] == x
    ensures x !in items[..k]
  {
    if items == [] || items[0] == x then 0
    else
      var k := IndexOf(items[1..], x);
      assert items[..k + 1] == [items[0]] + items[1..][..k];
      1 + k
  }
}

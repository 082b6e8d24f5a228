/**
 Register indices in generated instruction code.  The constructor of an instruction appends
 the registers of its operands to the source and destination arrays; the code of its methods
 reads and writes operands by index into those arrays.  With predicated operands both the
 appends and the indices depend on the predicates at run time.
 */
module IsaOperands {
  import opened Options

  datatype Kind = IntReg | FloatReg | ControlReg | Mem | PCState

  // A predicate of the generated code, true or false in a given machine state.
  type Pred = string
  type State = Pred -> bool

  // Registers that are read, or registers that are written.
  datatype Side = Src | Dest

  // pcPart: a PC state operand with a register specification, i.e. a component of the PC.
  datatype Operand = Operand(name: string, kind: Kind, regSpec: string, isSrc: bool, isDest: bool,
                             readPred: Option<Pred>, writePred: Option<Pred>, pcPart: bool) {
    predicate IsReg() { kind.IntReg? || kind.FloatReg? || kind.ControlReg? }

    // Whether the operand is a register on this side, and under which predicate.
    predicate Uses(side: Side) { IsReg() && (if side.Src? then isSrc else isDest) }
    function Pred(side: Side): Option<Pred> { if side.Src? then readPred else writePred }

    // Only integer registers honour a predicate.
    function Guard(side: Side): Option<Pred> { if kind.IntReg? then Pred(side) else None }

    predicate IsPCPartDest() { kind.PCState? && pcPart && isDest }

    function Reg(): RegId { RegId(kind, regSpec) }
  }

  // An entry of the register arrays: the register file is part of the flat index.
  datatype RegId = RegId(file: Kind, spec: string)

  predicate Holds(g: Option<Pred>, st: State) {
    g.None? || st(g.value)
  }

  // ----- Generated code -----

  datatype CtorStmt = Append(side: Side, guard: Option<Pred>, reg: RegId)

  function MakeConstructor(op: Operand): seq<CtorStmt> {
    (if op.Uses(Src) then [Append(Src, op.Guard(Src), op.Reg())] else []) +
    (if op.Uses(Dest) then [Append(Dest, op.Guard(Dest), op.Reg())] else [])
  }

  // An access to a register array: none, a fixed index, or the running index if the guard holds.
  datatype Access = NoAccess | Static(index: nat) | Dynamic(guard: Option<Pred>)

  // The read (Src) or write (Dest) of an operand numbered idx.
  function MakeAccess(op: Operand, side: Side, idx: nat, predicated: bool): Access {
    if !op.Uses(side) then NoAccess
    else if predicated then Dynamic(op.Guard(side))
    else Static(idx)
  }

  // ----- Enumeration of an operand list -----

  // The number given to an operand that comes after ops.
  function Idx(ops: seq<Operand>, side: Side): nat {
    if ops == [] then 0 else Idx(ops[..|ops| - 1], side) + if ops[|ops| - 1].Uses(side) then 1 else 0
  }

  predicate Predicated(ops: seq<Operand>, side: Side) {
    exists op :: op in ops && op.Pred(side).Some?
  }

  lemma PredicatedAppend(ops: seq<Operand>, op: Operand, side: Side)
    ensures Predicated(ops + [op], side) <==> Predicated(ops, side) || op.Pred(side).Some?
  {
    assert op in ops + [op];
    assert forall o :: o in ops ==> o in ops + [op];
  }

  // The loop of the operand list that numbers registers and detects predication.
  method Enumerate(ops: seq<Operand>) returns (srcIdx: seq<nat>, destIdx: seq<nat>, predRead: bool, predWrite: bool)
    ensures |srcIdx| == |ops| && |destIdx| == |ops|
    ensures forall i :: 0 <= i < |ops| ==> srcIdx[i] == Idx(ops[..i], Src) && destIdx[i] == Idx(ops[..i], Dest)
    ensures predRead == Predicated(ops, Src) && predWrite == Predicated(ops, Dest)
  {
    srcIdx, destIdx, predRead, predWrite := [], [], false, false;
    var numSrcRegs: nat, numDestRegs: nat, i := 0, 0, 0;
    while i < |ops|
      invariant 0 <= i <= |ops| && |srcIdx| == i && |destIdx| == i
      invariant numSrcRegs == Idx(ops[..i], Src) && numDestRegs == Idx(ops[..i], Dest)
      invariant forall k :: 0 <= k < i ==> srcIdx[k] == Idx(ops[..k], Src) && destIdx[k] == Idx(ops[..k], Dest)
      invariant predRead == Predicated(ops[..i], Src) && predWrite == Predicated(ops[..i], Dest)
    {
      var op := ops[i];
      srcIdx, destIdx := srcIdx + [numSrcRegs], destIdx + [numDestRegs];
      if op.IsReg() {
        if op.isSrc { numSrcRegs := numSrcRegs + 1; }
        if op.isDest { numDestRegs := numDestRegs + 1; }
      }
      predRead := predRead || op.readPred.Some?;
      predWrite := predWrite || op.writePred.Some?;
      assert ops[..i + 1][..i] == ops[..i];
      assert ops[..i + 1] == ops[..i] + [op];
      PredicatedAppend(ops[..i], op, Src);
      PredicatedAppend(ops[..i], op, Dest);
      i := i + 1;
    }
    assert ops[..i] == ops;
  }

  // ----- Running the constructor -----

  datatype Arrays = Arrays(src: seq<RegId>, dest: seq<RegId>) {
    function Plus(side: Side, regs: seq<RegId>): Arrays {
      if side.Src? then Arrays(src + regs, dest) else Arrays(src, dest + regs)
    }
  }

  function RunCtor(code: seq<CtorStmt>, st: State, a: Arrays): Arrays {
    if code == [] then a
    else RunCtor(code[1..], st, if Holds(code[0].guard, st) then a.Plus(code[0].side, [code[0].reg]) else a)
  }

  function Constructor(ops: seq<Operand>): seq<CtorStmt> {
    if ops == [] then [] else Constructor(ops[..|ops| - 1]) + MakeConstructor(ops[|ops| - 1])
  }

  lemma {:induction false} RunCtorConcat(a: seq<CtorStmt>, b: seq<CtorStmt>, st: State, r: Arrays)
    ensures RunCtor(a + b, st, r) == RunCtor(b, st, RunCtor(a, st, r))
  {
    if a == [] {
      assert a + b == b;
    } else {
      assert (a + b)[1..] == a[1..] + b;
      RunCtorConcat(a[1..], b, st, if Holds(a[0].guard, st) then r.Plus(a[0].side, [a[0].reg]) else r);
    }
  }

  // The registers of one operand that take part in state st.
  function Slot(op: Operand, side: Side, st: State): seq<RegId> {
    if op.Uses(side) && Holds(op.Guard(side), st) then [op.Reg()] else []
  }

  // In operand order, the registers whose predicate holds.
  function Regs(ops: seq<Operand>, side: Side, st: State): seq<RegId> {
    if ops == [] then [] else Regs(ops[..|ops| - 1], side, st) + Slot(ops[|ops| - 1], side, st)
  }

  lemma {:induction false} ConstructorBuilds(ops: seq<Operand>, st: State)
    ensures RunCtor(Constructor(ops), st, Arrays([], [])) == Arrays(Regs(ops, Src, st), Regs(ops, Dest, st))
  {
    if ops != [] {
      var init, op := ops[..|ops| - 1], ops[|ops| - 1];
      ConstructorBuilds(init, st);
      RunCtorConcat(Constructor(init), MakeConstructor(op), st, Arrays([], []));
      OneOperand(op, st, Arrays(Regs(init, Src, st), Regs(init, Dest, st)));
    }
  }

  lemma {:induction false} OneOperand(op: Operand, st: State, a: Arrays)
    ensures RunCtor(MakeConstructor(op), st, a) == Arrays(a.src + Slot(op, Src, st), a.dest + Slot(op, Dest, st))
  {
    var s := if op.Uses(Src) then [Append(Src, op.Guard(Src), op.Reg())] else [];
    var d := if op.Uses(Dest) then [Append(Dest, op.Guard(Dest), op.Reg())] else [];
    RunCtorConcat(s, d, st, a);
    assert a.src + [] == a.src && a.dest + [] == a.dest;
    assert forall x: CtorStmt :: [x][1..] == [];
  }

  // An operand that is a register and is read goes to the source array, and one that is written to
  // the destination array; an integer register only if its own predicate for that holds.
  lemma {:induction false} OwnArrays(op: Operand, st: State)
    ensures var a := RunCtor(Constructor([op]), st, Arrays([], []));
            && a.src == (if op.kind !in {Mem, PCState} && op.isSrc && (op.kind == IntReg && op.readPred.Some? ==> st(op.readPred.value))
                         then [RegId(op.kind, op.regSpec)] else [])
            && a.dest == (if op.kind !in {Mem, PCState} && op.isDest && (op.kind == IntReg && op.writePred.Some? ==> st(op.writePred.value))
                          then [RegId(op.kind, op.regSpec)] else [])
  {
    assert [op][..0] == [];
    assert Regs([], Src, st) + Slot(op, Src, st) == Slot(op, Src, st) && Regs([], Dest, st) + Slot(op, Dest, st) == Slot(op, Dest, st);
    ConstructorBuilds([op], st);
  }

  // A register operand that is read has a read access, one that is written a write access; it takes
  // place when its own predicate for that holds, if it is an integer register with one.
  lemma OwnAccess(op: Operand, idx: nat, predicated: bool)
    ensures MakeAccess(op, Src, idx, predicated) != NoAccess <==> op.kind !in {Mem, PCState} && op.isSrc
    ensures MakeAccess(op, Dest, idx, predicated) != NoAccess <==> op.kind !in {Mem, PCState} && op.isDest
    ensures predicated && op.kind !in {Mem, PCState} && op.isSrc ==>
              MakeAccess(op, Src, idx, predicated) == Dynamic(if op.kind == IntReg then op.readPred else None)
    ensures predicated && op.kind !in {Mem, PCState} && op.isDest ==>
              MakeAccess(op, Dest, idx, predicated) == Dynamic(if op.kind == IntReg then op.writePred else None)
  {
    assert op.kind !in {Mem, PCState} <==> op.IsReg();
  }

  // ----- Running the accesses of a sub-list -----

  // A sub-list names operands of the master list by position, each at most once.
  ghost predicate SubList(ops: seq<Operand>, sub: seq<nat>) {
    (forall t :: 0 <= t < |sub| ==> sub[t] < |ops|) &&
    (forall t, u :: 0 <= t < u < |sub| ==> sub[t] != sub[u])
  }

  function AccessOf(ops: seq<Operand>, i: nat, side: Side): Access
    requires i < |ops|
  {
    MakeAccess(ops[i], side, Idx(ops[..i], side), Predicated(ops, side))
  }

  // The running index after the accesses of sub.
  function Running(ops: seq<Operand>, sub: seq<nat>, side: Side, st: State): nat
    requires forall t :: 0 <= t < |sub| ==> sub[t] < |ops|
  {
    if sub == [] then 0
    else
      var acc := AccessOf(ops, sub[|sub| - 1], side);
      Running(ops, sub[..|sub| - 1], side, st) + if acc.Dynamic? && Holds(acc.guard, st) then 1 else 0
  }

  // The index that access number t of sub uses, if it takes place.
  function UsedIndex(ops: seq<Operand>, sub: seq<nat>, t: nat, side: Side, st: State): Option<nat>
    requires t < |sub| && forall u :: 0 <= u < |sub| ==> sub[u] < |ops|
  {
    match AccessOf(ops, sub[t], side)
    case NoAccess => None
    case Static(k) => Some(k)
    case Dynamic(g) => if Holds(g, st) then Some(Running(ops, sub[..t], side, st)) else None
  }

  // The place where the constructor put the register of operand i.
  function OwnSlot(ops: seq<Operand>, i: nat, side: Side, st: State): nat
    requires i < |ops|
  {
    |Regs(ops[..i], side, st)|
  }

  lemma {:induction false} OwnSlotHolds(ops: seq<Operand>, i: nat, side: Side, st: State)
    requires i < |ops| && ops[i].Uses(side) && Holds(ops[i].Guard(side), st)
    ensures var k := OwnSlot(ops, i, side, st); k < |Regs(ops, side, st)| && Regs(ops, side, st)[k] == ops[i].Reg()
  {
    var init := ops[..|ops| - 1];
    if i < |init| {
      assert init[..i] == ops[..i];
      OwnSlotHolds(init, i, side, st);
    }
  }

  // ----- Static indices -----

  lemma {:induction false} IdxIsSlot(ops: seq<Operand>, side: Side, st: State)
    requires !Predicated(ops, side)
    ensures Idx(ops, side) == |Regs(ops, side, st)|
  {
    if ops != [] {
      var init, op := ops[..|ops| - 1], ops[|ops| - 1];
      assert op in ops && op.Pred(side).None?;
      assert forall o :: o in init ==> o in ops;
      IdxIsSlot(init, side, st);
    }
  }

  // Without predication every access of every sub-list uses the slot of its own register.
  lemma {:induction false} StaticAgrees(ops: seq<Operand>, sub: seq<nat>, t: nat, side: Side, st: State)
    requires SubList(ops, sub) && t < |sub| && !Predicated(ops, side)
    ensures ops[sub[t]].Uses(side) ==>
              var k := UsedIndex(ops, sub, t, side, st);
              k.Some? && k.value < |Regs(ops, side, st)| && Regs(ops, side, st)[k.value] == ops[sub[t]].Reg()
  {
    var i := sub[t];
    if ops[i].Uses(side) {
      assert ops[i] in ops && ops[i].Pred(side).None?;
      assert forall o :: o in ops[..i] ==> o in ops;
      IdxIsSlot(ops[..i], side, st);
      OwnSlotHolds(ops, i, side, st);
    }
  }

  // ----- Dynamic indices -----

  // Every access that takes place in st uses the slot of its own operand.
  ghost predicate Agrees(ops: seq<Operand>, sub: seq<nat>, side: Side, st: State)
    requires SubList(ops, sub)
  {
    forall t :: 0 <= t < |sub| && UsedIndex(ops, sub, t, side, st).Some? ==>
      UsedIndex(ops, sub, t, side, st).value == OwnSlot(ops, sub[t], side, st)
  }

  // Positions of the registers of a list, and of a sub-list, in order.
  function Positions(ops: seq<Operand>, side: Side): (ps: seq<nat>)
    ensures forall n :: 0 <= n < |ps| ==> ps[n] < |ops| && ops[ps[n]].Uses(side)
    ensures forall n, m :: 0 <= n < m < |ps| ==> ps[n] < ps[m]
  {
    if ops == [] then [] else
      Positions(ops[..|ops| - 1], side) + if ops[|ops| - 1].Uses(side) then [|ops| - 1] else []
  }

  function SubPositions(ops: seq<Operand>, sub: seq<nat>, side: Side): (ps: seq<nat>)
    requires forall t :: 0 <= t < |sub| ==> sub[t] < |ops|
    ensures forall n :: 0 <= n < |ps| ==> ps[n] < |ops|
  {
    if sub == [] then [] else
      SubPositions(ops, sub[..|sub| - 1], side) + if ops[sub[|sub| - 1]].Uses(side) then [sub[|sub| - 1]] else []
  }

  // The registers of the sub-list are the first registers of the master list, in its order.
  ghost predicate RegPrefix(ops: seq<Operand>, sub: seq<nat>, side: Side)
    requires SubList(ops, sub)
  {
    SubPositions(ops, sub, side) <= Positions(ops, side)
  }

  // How many of the operands at these positions take part in st.
  function CountHolding(ops: seq<Operand>, ps: seq<nat>, side: Side, st: State): nat
    requires forall n :: 0 <= n < |ps| ==> ps[n] < |ops|
  {
    if ps == [] then 0 else
      CountHolding(ops, ps[..|ps| - 1], side, st) + if Holds(ops[ps[|ps| - 1]].Guard(side), st) then 1 else 0
  }

  lemma {:induction false} CountAppend(ops: seq<Operand>, ps: seq<nat>, p: nat, side: Side, st: State)
    requires p < |ops| && forall n :: 0 <= n < |ps| ==> ps[n] < |ops|
    ensures CountHolding(ops, ps + [p], side, st) == CountHolding(ops, ps, side, st) + if Holds(ops[p].Guard(side), st) then 1 else 0
  {
    assert (ps + [p])[..|ps|] == ps;
  }

  lemma {:induction false} SlotCounts(ops: seq<Operand>, i: nat, side: Side, st: State)
    requires i <= |ops|
    ensures |Regs(ops[..i], side, st)| == CountHolding(ops, Positions(ops[..i], side), side, st)
  {
    if i > 0 {
      assert ops[..i][..i - 1] == ops[..i - 1];
      SlotCounts(ops, i - 1, side, st);
      if ops[i - 1].Uses(side) {
        CountAppend(ops, Positions(ops[..i - 1], side), i - 1, side, st);
      } else {
        assert Positions(ops[..i], side) == Positions(ops[..i - 1], side);
      }
    }
  }

  lemma {:induction false} RunningCounts(ops: seq<Operand>, sub: seq<nat>, side: Side, st: State)
    requires Predicated(ops, side) && forall t :: 0 <= t < |sub| ==> sub[t] < |ops|
    ensures Running(ops, sub, side, st) == CountHolding(ops, SubPositions(ops, sub, side), side, st)
  {
    if sub != [] {
      hide CountHolding, Predicated;
      RunningCounts(ops, sub[..|sub| - 1], side, st);
      CountsStep(ops, sub, side, st);
    }
  }

  lemma CountsStep(ops: seq<Operand>, sub: seq<nat>, side: Side, st: State)
    requires sub != [] && forall t :: 0 <= t < |sub| ==> sub[t] < |ops|
    ensures var init, op := sub[..|sub| - 1], ops[sub[|sub| - 1]];
            CountHolding(ops, SubPositions(ops, sub, side), side, st) ==
            CountHolding(ops, SubPositions(ops, init, side), side, st) + if op.Uses(side) && Holds(op.Guard(side), st) then 1 else 0
  {
    hide CountHolding;
    var init, i := sub[..|sub| - 1], sub[|sub| - 1];
    if ops[i].Uses(side) {
      CountAppend(ops, SubPositions(ops, init, side), i, side, st);
    } else {
      assert SubPositions(ops, sub, side) == SubPositions(ops, init, side);
    }
  }

  // A register's number is its place among the positions.
  lemma {:induction false} PositionAt(ops: seq<Operand>, i: nat, side: Side)
    requires i < |ops| && ops[i].Uses(side)
    ensures var n := |Positions(ops[..i], side)|;
            n < |Positions(ops, side)| && Positions(ops, side)[n] == i && Positions(ops, side)[..n] == Positions(ops[..i], side)
  {
    var init := ops[..|ops| - 1];
    if i < |init| {
      assert init[..i] == ops[..i];
      PositionAt(init, i, side);
      var n := |Positions(ops[..i], side)|;
      assert Positions(ops, side)[..n] == Positions(init, side)[..n];
    }
  }

  lemma {:induction false} SubPositionAt(ops: seq<Operand>, sub: seq<nat>, t: nat, side: Side)
    requires t < |sub| && (forall u :: 0 <= u < |sub| ==> sub[u] < |ops|) && ops[sub[t]].Uses(side)
    ensures var n := |SubPositions(ops, sub[..t], side)|; var ps := SubPositions(ops, sub, side);
            n < |ps| && ps[n] == sub[t] && ps[..n] == SubPositions(ops, sub[..t], side)
  {
    var init := sub[..|sub| - 1];
    if t < |init| {
      assert init[..t] == sub[..t];
      SubPositionAt(ops, init, t, side);
      var n := |SubPositions(ops, sub[..t], side)|;
      assert SubPositions(ops, sub, side)[..n] == SubPositions(ops, init, side)[..n];
    }
  }

  // Every register position of the sub-list comes from an entry of it.
  lemma {:induction false} SubPositionFrom(ops: seq<Operand>, sub: seq<nat>, n: nat, side: Side) returns (t: nat)
    requires (forall u :: 0 <= u < |sub| ==> sub[u] < |ops|) && n < |SubPositions(ops, sub, side)|
    ensures t < |sub| && ops[sub[t]].Uses(side) && |SubPositions(ops, sub[..t], side)| == n
  {
    var init := sub[..|sub| - 1];
    if n < |SubPositions(ops, init, side)| {
      t := SubPositionFrom(ops, init, n, side);
      assert init[..t] == sub[..t];
    } else {
      t := |sub| - 1;
    }
  }

  // The running index is declared only if an operand of the sub-list itself has a predicate.
  ghost predicate Declared(ops: seq<Operand>, sub: seq<nat>, side: Side)
    requires forall t :: 0 <= t < |sub| ==> sub[t] < |ops|
  {
    exists t :: 0 <= t < |sub| && ops[sub[t]].Pred(side).Some?
  }

  // No access uses a running index that is not declared.
  ghost predicate Compiles(ops: seq<Operand>, sub: seq<nat>, side: Side)
    requires forall t :: 0 <= t < |sub| ==> sub[t] < |ops|
  {
    forall t :: 0 <= t < |sub| && AccessOf(ops, sub[t], side).Dynamic? ==> Declared(ops, sub, side)
  }

  // The generated code is well formed and every access is to the operand's own slot.
  ghost predicate Works(ops: seq<Operand>, sub: seq<nat>, side: Side)
    requires SubList(ops, sub)
  {
    Compiles(ops, sub, side) && forall st: State :: Agrees(ops, sub, side, st)
  }

  // With predication the code of a sub-list works exactly when the sub-list's registers are a
  // prefix of the master list's and it has a predicated operand of its own, if any register.
  lemma {:induction false} DynamicWorksIff(ops: seq<Operand>, sub: seq<nat>, side: Side)
    requires SubList(ops, sub) && Predicated(ops, side)
    ensures Works(ops, sub, side) <==>
            RegPrefix(ops, sub, side) && (Declared(ops, sub, side) || SubPositions(ops, sub, side) == [])
  {
    DynamicAgreesIff(ops, sub, side);
    CompilesIff(ops, sub, side);
  }

  lemma {:induction false} CompilesIff(ops: seq<Operand>, sub: seq<nat>, side: Side)
    requires SubList(ops, sub) && Predicated(ops, side)
    ensures Compiles(ops, sub, side) <==> Declared(ops, sub, side) || SubPositions(ops, sub, side) == []
  {
    hide SubPositions;
    if SubPositions(ops, sub, side) != [] {
      var t := SubPositionFrom(ops, sub, 0, side);
      assert AccessOf(ops, sub[t], side).Dynamic?;
    }
    forall t | 0 <= t < |sub| && AccessOf(ops, sub[t], side).Dynamic?
      ensures SubPositions(ops, sub, side) != []
    {
      SubPositionAt(ops, sub, t, side);
    }
  }

  // A sub-list without its own predicate: the indices would agree, but the code uses a running
  // index that nothing declares.
  lemma UndeclaredIndex(a: Operand, b: Operand, side: Side)
    requires a.Uses(side) && a.Pred(side).None? && b.Pred(side).Some?
    ensures SubList([a, b], [0]) && Predicated([a, b], side) && RegPrefix([a, b], [0], side)
    ensures (forall st: State :: Agrees([a, b], [0], side, st)) && !Works([a, b], [0], side)
  {
    hide Positions, SubPositions, Agrees, Works;
    var ops, sub: seq<nat> := [a, b], [0];
    assert ops[1] in ops;
    FirstPositions(a, b, side);
    DynamicWorksIff(ops, sub, side);
    DynamicAgreesIff(ops, sub, side);
  }

  lemma {:induction false} FirstPositions(a: Operand, b: Operand, side: Side)
    requires a.Uses(side)
    ensures SubPositions([a, b], [0], side) == [0] && [0] <= Positions([a, b], side)
  {
    FirstPosition(a, side);
    assert [a, b][..1] == [a];
    FirstSubPosition([a, b], side);
  }

  lemma {:induction false} FirstPosition(a: Operand, side: Side)
    requires a.Uses(side)
    ensures Positions([a], side) == [0]
  {
    assert [a][..0] == [];
  }

  lemma {:induction false} FirstSubPosition(ops: seq<Operand>, side: Side)
    requires ops != [] && ops[0].Uses(side)
    ensures SubPositions(ops, [0], side) == [0]
  {
    var sub: seq<nat> := [0];
    assert sub[..0] == [];
  }

  // The whole list in its own order, which predicated code is expected to use, always works.
  lemma WholeListWorks(ops: seq<Operand>, side: Side)
    requires Predicated(ops, side)
    ensures var all := seq(|ops|, i => i); SubList(ops, all) && Works(ops, all, side)
  {
    var all := seq(|ops|, i => i);
    WholePositions(ops, |ops|, side);
    assert all[..|ops|] == all && ops[..|ops|] == ops;
    var op :| op in ops && op.Pred(side).Some?;
    var t :| 0 <= t < |ops| && ops[t] == op;
    assert ops[all[t]].Pred(side).Some?;
    DynamicWorksIff(ops, all, side);
  }

  lemma {:induction false} WholePositions(ops: seq<Operand>, n: nat, side: Side)
    requires n <= |ops|
    ensures SubPositions(ops, seq(|ops|, i => i)[..n], side) == Positions(ops[..n], side)
  {
    var all: seq<nat> := seq(|ops|, i => i);
    if n > 0 {
      WholePositions(ops, n - 1, side);
      assert all[..n][..n - 1] == all[..n - 1] && ops[..n][..n - 1] == ops[..n - 1];
    }
  }

  // With predication the accesses of a sub-list agree with the constructor in every state
  // exactly when the sub-list's registers are a prefix of the master list's.
  lemma DynamicAgreesIff(ops: seq<Operand>, sub: seq<nat>, side: Side)
    requires SubList(ops, sub) && Predicated(ops, side)
    ensures (forall st: State :: Agrees(ops, sub, side, st)) <==> RegPrefix(ops, sub, side)
  {
    if RegPrefix(ops, sub, side) {
      forall st: State
        ensures Agrees(ops, sub, side, st)
      {
        PrefixAgrees(ops, sub, side, st);
      }
    }
    if forall st: State :: Agrees(ops, sub, side, st) {
      assert Agrees(ops, sub, side, (_: Pred) => true);
      AgreeingIsPrefix(ops, sub, side);
    }
  }

  // ----- Registers instead of slots -----

  // Every access that takes place in st finds the register of its operand, in whatever slot.
  ghost predicate RightRegisters(ops: seq<Operand>, sub: seq<nat>, side: Side, st: State)
    requires SubList(ops, sub)
  {
    forall t :: 0 <= t < |sub| && UsedIndex(ops, sub, t, side, st).Some? ==>
      var k := UsedIndex(ops, sub, t, side, st).value;
      k < |Regs(ops, side, st)| && Regs(ops, side, st)[k] == ops[sub[t]].Reg()
  }

  ghost predicate DistinctRegs(ops: seq<Operand>, side: Side) {
    forall i, j :: 0 <= i < j < |ops| && ops[i].Uses(side) && ops[j].Uses(side) ==> ops[i].Reg() != ops[j].Reg()
  }

  lemma {:induction false} RegOrigin(ops: seq<Operand>, side: Side, st: State, k: nat) returns (i: nat)
    requires k < |Regs(ops, side, st)|
    ensures i < |ops| && ops[i].Uses(side) && Regs(ops, side, st)[k] == ops[i].Reg()
  {
    var n := |ops| - 1;
    if k < |Regs(ops[..n], side, st)| {
      i := RegOrigin(ops[..n], side, st, k);
    } else {
      i := n;
    }
  }

  lemma {:induction false} RegsDiffer(ops: seq<Operand>, side: Side, st: State)
    requires DistinctRegs(ops, side)
    ensures forall j, k :: 0 <= j < k < |Regs(ops, side, st)| ==> Regs(ops, side, st)[j] != Regs(ops, side, st)[k]
  {
    if ops != [] {
      var n := |ops| - 1;
      var init, rs := ops[..n], Regs(ops[..n], side, st);
      RegsDiffer(init, side, st);
      forall j | 0 <= j < |rs| && ops[n].Uses(side)
        ensures rs[j] != ops[n].Reg()
      {
        var i := RegOrigin(init, side, st, j);
        assert init[i] == ops[i];
      }
    }
  }

  // The own slot holds the register; if no two operands share one, no other slot does.
  lemma SlotsAndRegisters(ops: seq<Operand>, sub: seq<nat>, side: Side, st: State)
    requires SubList(ops, sub) && Predicated(ops, side)
    ensures Agrees(ops, sub, side, st) ==> RightRegisters(ops, sub, side, st)
    ensures RightRegisters(ops, sub, side, st) && DistinctRegs(ops, side) ==> Agrees(ops, sub, side, st)
  {
    hide Regs, Running, DistinctRegs;
    if DistinctRegs(ops, side) {
      RegsDiffer(ops, side, st);
    }
    forall t | 0 <= t < |sub| && UsedIndex(ops, sub, t, side, st).Some?
      ensures var k := OwnSlot(ops, sub[t], side, st); k < |Regs(ops, side, st)| && Regs(ops, side, st)[k] == ops[sub[t]].Reg()
    {
      OwnSlotHolds(ops, sub[t], side, st);
    }
  }

  // A register prefix always finds the right registers, and if no two operands share a register
  // nothing else does in every state.
  lemma RightRegistersIff(ops: seq<Operand>, sub: seq<nat>, side: Side)
    requires SubList(ops, sub) && Predicated(ops, side)
    ensures RegPrefix(ops, sub, side) ==> forall st: State :: RightRegisters(ops, sub, side, st)
    ensures DistinctRegs(ops, side) && (forall st: State :: RightRegisters(ops, sub, side, st)) ==> RegPrefix(ops, sub, side)
  {
    hide RightRegisters, Agrees, RegPrefix, DistinctRegs, Predicated;
    DynamicAgreesIff(ops, sub, side);
    forall st: State
      ensures Agrees(ops, sub, side, st) ==> RightRegisters(ops, sub, side, st)
      ensures RightRegisters(ops, sub, side, st) && DistinctRegs(ops, side) ==> Agrees(ops, sub, side, st)
    {
      SlotsAndRegisters(ops, sub, side, st);
    }
  }

  lemma PrefixAgrees(ops: seq<Operand>, sub: seq<nat>, side: Side, st: State)
    requires SubList(ops, sub) && Predicated(ops, side) && RegPrefix(ops, sub, side)
    ensures Agrees(ops, sub, side, st)
  {
    forall t | 0 <= t < |sub| && UsedIndex(ops, sub, t, side, st).Some?
      ensures UsedIndex(ops, sub, t, side, st).value == OwnSlot(ops, sub[t], side, st)
    {
      PrefixAgreesAt(ops, sub, t, side, st);
    }
  }

  lemma {:induction false} PrefixAgreesAt(ops: seq<Operand>, sub: seq<nat>, t: nat, side: Side, st: State)
    requires SubList(ops, sub) && Predicated(ops, side) && RegPrefix(ops, sub, side)
    requires t < |sub| && ops[sub[t]].Uses(side)
    ensures Running(ops, sub[..t], side, st) == OwnSlot(ops, sub[t], side, st)
  {
    hide Positions, SubPositions, CountHolding, Running, Regs;
    RunningCounts(ops, sub[..t], side, st);
    SlotCounts(ops, sub[t], side, st);
    SubPositionAt(ops, sub, t, side);
    PositionAt(ops, sub[t], side);
    var ps, sps := Positions(ops, side), SubPositions(ops, sub, side);
    var n, n' := |SubPositions(ops, sub[..t], side)|, |Positions(ops[..sub[t]], side)|;
    assert ps[n] == sps[n] == ps[n'];
    assert n == n';
    assert ps[..n] == sps[..n];
  }

  lemma {:induction false} CountAll(ops: seq<Operand>, ps: seq<nat>, side: Side, st: State)
    requires (forall n :: 0 <= n < |ps| ==> ps[n] < |ops|) && forall p: Pred :: st(p)
    ensures CountHolding(ops, ps, side, st) == |ps|
  {
    if ps != [] {
      CountAll(ops, ps[..|ps| - 1], side, st);
    }
  }

  lemma AgreeingIsPrefix(ops: seq<Operand>, sub: seq<nat>, side: Side)
    requires SubList(ops, sub) && Predicated(ops, side) && Agrees(ops, sub, side, (_: Pred) => true)
    ensures RegPrefix(ops, sub, side)
  {
    hide Positions, SubPositions, Agrees;
    var ps, sps := Positions(ops, side), SubPositions(ops, sub, side);
    if sps != [] {
      AgreeingAt(ops, sub, side, |sps| - 1);
    }
    forall n | 0 <= n < |sps|
      ensures sps[n] == ps[n]
    {
      AgreeingAt(ops, sub, side, n);
    }
  }

  lemma {:induction false} AgreeingAt(ops: seq<Operand>, sub: seq<nat>, side: Side, n: nat)
    requires SubList(ops, sub) && Predicated(ops, side) && Agrees(ops, sub, side, (_: Pred) => true)
    requires n < |SubPositions(ops, sub, side)|
    ensures n < |Positions(ops, side)| && SubPositions(ops, sub, side)[n] == Positions(ops, side)[n]
  {
    hide Positions, SubPositions, CountHolding, Running, Regs;
    var st: State := (_: Pred) => true;
    var t := SubPositionFrom(ops, sub, n, side);
    assert UsedIndex(ops, sub, t, side, st) == Some(Running(ops, sub[..t], side, st));
    RunningCounts(ops, sub[..t], side, st);
    SlotCounts(ops, sub[t], side, st);
    CountAll(ops, SubPositions(ops, sub[..t], side), side, st);
    CountAll(ops, Positions(ops[..sub[t]], side), side, st);
    SubPositionAt(ops, sub, t, side);
    PositionAt(ops, sub[t], side);
  }

  // ----- Write-back -----

  // The write of one operand, or the write of the whole PC after its parts have been set.
  datatype WbStmt = WriteOp(name: string) | WritePC

  function Writes(ops: seq<Operand>): seq<WbStmt> {
    if ops == [] then [] else (if ops[0].isDest then [WriteOp(ops[0].name)] else []) + Writes(ops[1..])
  }

  // Number of operands up to and including the last one that sets a part of the PC.
  function LastPCPart(ops: seq<Operand>): (n: nat)
    ensures n <= |ops|
    ensures n > 0 ==> ops[n - 1].IsPCPartDest()
    ensures forall i :: n <= i < |ops| ==> !ops[i].IsPCPartDest()
  {
    if ops == [] then 0
    else if ops[|ops| - 1].IsPCPartDest() then |ops|
    else LastPCPart(ops[..|ops| - 1])
  }

  lemma WritesStep(ops: seq<Operand>, i: nat, n: nat)
    requires i < n <= |ops|
    ensures Writes(ops[i..n]) == (if ops[i].isDest then [WriteOp(ops[i].name)] else []) + Writes(ops[i + 1..n])
  {
    assert ops[i..n][1..] == ops[i + 1..n];
  }

  // Composes the write-back from the last operand to the first.  All writes come out in operand
  // order, and the PC is written back once, right after the last of its parts, if any is set.
  method ComposeWriteback(ops: seq<Operand>) returns (code: seq<WbStmt>)
    ensures var n := LastPCPart(ops);
            code == Writes(ops[..n]) + (if n > 0 then [WritePC] else []) + Writes(ops[n..])
  {
    hide Writes, LastPCPart;
    code := [];
    var pcWb := [WritePC];
    var i := |ops|;
    ghost var n, end := LastPCPart(ops), |ops|;
    NoWrites(ops, n);
    while i > 0
      invariant 0 <= i <= |ops|
      invariant i >= n ==> pcWb == [WritePC] && code == Writes(ops[i..end])
      invariant i < n ==> pcWb == [] && code == Writes(ops[i..n]) + [WritePC] + Writes(ops[n..end])
    {
      i := i - 1;
      var op := ops[i];
      var wb := if op.isDest then [WriteOp(op.name)] else [];
      if i < n {
        WritesStep(ops, i, n);
      } else {
        WritesStep(ops, i, end);
      }
      if op.IsPCPartDest() {
        code := wb + pcWb + code;
        pcWb := [];
      } else {
        code := wb + code;
      }
    }
    assert ops[0..n] == ops[..n] && ops[n..end] == ops[n..] && ops[0..end] == ops[0..];
  }

  lemma NoWrites(ops: seq<Operand>, n: nat)
    requires n <= |ops|
    ensures Writes(ops[|ops|..|ops|]) == [] && Writes(ops[..0]) == [] && Writes(ops[n..n]) == []
  {
  }
}

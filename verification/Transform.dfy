/** One-step-undoable changes to the instructions of a basic block. */
module Transform {
  import opened OpcodeClasses
  import opened Sequences

  datatype Kind = NOP | MUT_OPCODE | MUT_OPERAND | SWAP | REPLACE | MOVE | INSERT | DELETE

  /** The end of the block, as an iterator; instructions are numbered from 1. */
  const END: int := 0

  predicate AllIn(nodes: seq<int>, text: map<int, Instr>) {
    forall i :: 0 <= i < |nodes| ==> nodes[i] in text
  }

  function Texts(nodes: seq<int>, text: map<int, Instr>): seq<Instr>
    requires AllIn(nodes, text)
  {
    seq(|nodes|, i requires 0 <= i < |nodes| => text[nodes[i]])
  }

  /** The instructions numbered from 1. */
  function Numbered(block: seq<Instr>): (r: map<int, Instr>)
    ensures forall x :: x in r <==> 0 < x <= |block|
    ensures forall x :: x in r ==> r[x] == block[x - 1]
  {
    if block == [] then map[] else Numbered(block[..|block| - 1])[|block| := block[|block| - 1]]
  }

  predicate Ids(text: map<int, Instr>, created: int) {
    created >= 0 && forall x :: x in text ==> 0 < x <= created
  }

  lemma IdsIs(text: map<int, Instr>, created: int)
    ensures Ids(text, created) <==> created >= 0 && forall x :: x in text ==> 0 < x <= created
  {
  }

  lemma Known(d: Desc, i: int)
    requires !HasUnknown(d) && 0 <= i < |d.ops|
    ensures !d.ops[i].ty.Unknown? && !d.ops[i].ty.MemoryRef?
  {
  }

  /** The registers of each register class, without the instruction pointers, which are never drawn. */
  type Registers = int -> seq<int>

  /** The pool from which immediates are drawn. */
  const IMMEDIATES: seq<int> :=
    [0, 1, -1, 2, -2, 3, -3, 4, -4, 5, -5, 6, -6, 7, -7, 8, -8, 16, -16, 32, -32, 64, -64, 128, -128]

  /** The immediate is one of the pool, or the register one of the operand's class. */
  predicate FromPool(regs: Registers, info: OperandInfo, op: Operand) {
    match op
    case Imm(v) => v in IMMEDIATES
    case Reg(r, _) => r in regs(info.regClass)
  }

  /** The operands fit, and each is drawn from the pool for its place. */
  predicate Drawn(descs: seq<Desc>, regs: Registers, x: Instr) {
    && WellFormed(descs, x)
    && forall j :: 0 <= j < |x.operands| ==> FromPool(regs, descs[x.opcode].ops[j], x.operands[j])
  }

  predicate AllDrawn(descs: seq<Desc>, regs: Registers, c: seq<Instr>) {
    forall i :: 0 <= i < |c| ==> Drawn(descs, regs, c[i])
  }

  /** A register operand is marked as a definition exactly when it is among the first that its descriptor defines. */
  predicate Marked(descs: seq<Desc>, x: Instr) {
    x.opcode < |descs| && forall j :: 0 <= j < |x.operands| && x.operands[j].Reg? ==>
      (x.operands[j].isDef <==> j < descs[x.opcode].numDefs)
  }

  predicate AllMarked(descs: seq<Desc>, c: seq<Instr>) {
    forall i :: 0 <= i < |c| ==> Marked(descs, c[i])
  }

  /** Opcodes that may replace one another define the same register operands. */
  ghost predicate DefsAlike(descs: seq<Desc>) {
    forall a: nat, b: nat :: !MixedDefs(descs, a, b)
  }

  /** Two opcodes of a class of which only one defines some register operand. */
  ghost predicate MixedDefs(descs: seq<Desc>, a: nat, b: nat) {
    && a < |descs| && b < |descs| && Usable(descs[a]) && Usable(descs[b]) && Exchangeable(descs[a], descs[b])
    && !SameDefs(descs[a], descs[b])
  }

  predicate SameDefs(a: Desc, b: Desc) {
    forall j :: 0 <= j < |a.ops| && a.ops[j].ty.Register? ==> (j < a.numDefs <==> j < b.numDefs)
  }

  /** An instruction as randInstr makes it. */
  predicate Fresh(descs: seq<Desc>, regs: Registers, x: Instr) {
    WellFormed(descs, x) && TiesMet(descs, x) && Marked(descs, x) && (TiesAlike(descs, regs) ==> Drawn(descs, regs, x))
  }

  lemma FreshIs(descs: seq<Desc>, regs: Registers, x: Instr)
    ensures Fresh(descs, regs, x) <==>
      WellFormed(descs, x) && TiesMet(descs, x) && Marked(descs, x)
      && (TiesAlike(descs, regs) ==> Drawn(descs, regs, x))
  {
  }

  /** Two registers that are tied have the same register class to choose from. */
  predicate TiesAlike(descs: seq<Desc>, regs: Registers) {
    forall o: nat :: o < |descs| && Usable(descs[o]) && TiesRegisters(descs[o]) ==>
      SameRegisters(regs(descs[o].ops[0].regClass), regs(descs[o].ops[1].regClass))
  }

  predicate SameRegisters(p: seq<int>, q: seq<int>) {
    (forall r :: r in p ==> r in q) && (forall r :: r in q ==> r in p)
  }

  predicate TiesRegisters(d: Desc) {
    d.tied && |d.ops| >= 2 && d.ops[0].ty.Register? && d.ops[1].ty.Register?
  }

  /** Tied operands are there to be tied, and no class of a usable opcode is empty. */
  predicate TableOK(descs: seq<Desc>, regs: Registers) {
    && (forall i :: 0 <= i < |descs| && descs[i].tied ==> |descs[i].ops| >= 2)
    && (forall i, j :: 0 <= i < |descs| && Usable(descs[i]) && 0 <= j < |descs[i].ops|
                       && descs[i].ops[j].ty.Register? ==>
                       regs(descs[i].ops[j].regClass) != [])
  }

  /** Every instruction has a classed opcode and operands that fit its descriptor. */
  predicate AllFit(descs: seq<Desc>, c: seq<Instr>) {
    forall i :: 0 <= i < |c| ==> WellFormed(descs, c[i])
  }

  /** An instruction of the block can go anywhere in it. */
  lemma MovedBack(nodes: seq<int>, text: map<int, Instr>, x: int, at: int)
    requires Distinct(nodes) && AllIn(nodes, text) && x in nodes
    ensures AllIn(Insert(Drop(nodes, At(nodes, x)), at, x), text)
  {
    hide At, Insert;
    assert x == nodes[At(nodes, x)];
    InsertedIn(Drop(nodes, At(nodes, x)), text, at, x);
  }

  lemma InsertedIn(nodes: seq<int>, text: map<int, Instr>, loc: int, x: int)
    requires AllIn(nodes, text) && x in text
    ensures AllIn(Insert(nodes, loc, x), text)
  {
    hide At;
  }

  lemma UsableIs(d: Desc)
    ensures Usable(d) ==> !HasUnknown(d)
  {
  }

  lemma TableAt(descs: seq<Desc>, regs: Registers, o: nat)
    requires TableOK(descs, regs) && o < |descs|
    ensures descs[o].tied ==> |descs[o].ops| >= 2
  {
  }

  lemma PoolAt(descs: seq<Desc>, regs: Registers, o: nat, j: nat)
    requires TableOK(descs, regs) && o < |descs| && Usable(descs[o]) && j < |descs[o].ops|
    ensures descs[o].ops[j].ty.Register? ==> regs(descs[o].ops[j].regClass) != []
  {
  }

  /** What is drawn in place of an operand of the right kind fits as well. */
  lemma SameKind(info: OperandInfo, op: Operand, r: Operand)
    requires Alike(op, r) && (info.ty.Register? <==> op.Reg?) && !info.ty.Unknown? && !info.ty.MemoryRef?
    ensures FitsOperand(info, r)
  {
  }

  /** Operands drawn one by one, and then tied. */
  lemma TiedInstr(descs: seq<Desc>, regs: Registers, opc: nat, free: seq<Operand>, ops: seq<Operand>)
    requires TableOK(descs, regs) && opc < |descs| && Usable(descs[opc]) && |free| == |descs[opc].ops|
    requires forall j :: 0 <= j < |free| ==>
      FitsOperand(descs[opc].ops[j], free[j]) && FromPool(regs, descs[opc].ops[j], free[j])
    requires forall j :: 0 <= j < |free| && free[j].Reg? ==> (free[j].isDef <==> j < descs[opc].numDefs)
    requires ops == if descs[opc].tied && free[0].Reg? && free[1].Reg? then free[1 := free[1].(reg := free[0].reg)]
                    else free
    ensures WellFormed(descs, Instr(opc, ops)) && TiesMet(descs, Instr(opc, ops)) && Marked(descs, Instr(opc, ops))
    ensures TiesAlike(descs, regs) ==> Drawn(descs, regs, Instr(opc, ops))
  {
  }

  class Transformation {
    /** The instructions of the block in order, and what each of the instructions in existence says. */
    var nodes: seq<int>
    var text: map<int, Instr>
    var created: int
    var numInstrs: int

    var prev: Kind
    var oldInstr: int
    var newInstr: int
    var nextLoc: int
    var swapped1: int
    var swapped2: int

    const descs: seq<Desc>
    const regs: Registers
    const leader: map<nat, nat>

    /** A function of one block with these instructions. */
    constructor (table: seq<Desc>, registers: Registers, block: seq<Instr>)
      requires TableOK(table, registers)
      ensures Valid() && descs == table && regs == registers && Content() == block && prev == NOP && Undoable()
    {
      var classes := BuildOpcodeClasses(table);
      descs, regs, leader := table, registers, classes;
      nodes := seq(|block|, i => i + 1);
      text := Numbered(block);
      created, numInstrs, prev := |block|, |block|, NOP;
      oldInstr, newInstr, nextLoc, swapped1, swapped2 := END, END, END, END, END;
    }

    ghost predicate Valid()
      reads this
    {
      && Distinct(nodes) && AllIn(nodes, text) && Ids(text, created)
      && numInstrs == |nodes|
      && Classes(descs, |descs|, leader) && TableOK(descs, regs)
    }

    /** What the block says: all that a test of it can see. */
    ghost function Content(): seq<Instr>
      reads this
      requires Valid()
    {
      Texts(nodes, text)
    }

    /** The record of the last change is one that Undo and Accept can work from. */
    ghost predicate Undoable()
      reads this
      requires Valid()
    {
      match prev
      case NOP => true
      case MUT_OPCODE => Replaced()
      case MUT_OPERAND => Replaced()
      case REPLACE => Replaced()
      case INSERT => newInstr in nodes
      case SWAP => swapped1 in nodes && swapped2 in nodes && swapped1 != swapped2
      case MOVE => newInstr in nodes && newInstr != nextLoc && (nextLoc == END || nextLoc in nodes)
      case DELETE => newInstr in text && newInstr !in nodes && (nextLoc == END || nextLoc in nodes)
    }

    ghost predicate Replaced()
      reads this
    {
      newInstr in nodes && oldInstr in text && oldInstr !in nodes
    }

    /** What Undo will make of the block. */
    ghost function Undone(): seq<Instr>
      reads this
      requires Valid() && Undoable()
    {
      match prev
      case NOP => Content()
      case MUT_OPCODE => Put(Content(), At(nodes, newInstr), text[oldInstr])
      case MUT_OPERAND => Put(Content(), At(nodes, newInstr), text[oldInstr])
      case REPLACE => Put(Content(), At(nodes, newInstr), text[oldInstr])
      case INSERT => Drop(Content(), At(nodes, newInstr))
      case SWAP => Exchange(Content(), At(nodes, swapped1), At(nodes, swapped2))
      case MOVE => MovedBack(nodes, text, newInstr, nextLoc);
          Texts(Insert(Drop(nodes, At(nodes, newInstr)), nextLoc, newInstr), text)
      case DELETE => InsertedIn(nodes, text, nextLoc, newInstr); Texts(Insert(nodes, nextLoc, newInstr), text)
    }

    lemma ValidIs()
      ensures Valid() <==>
        && Distinct(nodes) && AllIn(nodes, text) && Ids(text, created) && numInstrs == |nodes|
        && Classes(descs, |descs|, leader) && TableOK(descs, regs)
    {
    }

    lemma ContentIs()
      requires Valid()
      ensures AllIn(nodes, text) && Content() == Texts(nodes, text)
    {
    }

    lemma UndoableIs()
      requires Valid()
      ensures Undoable() <==> match prev
        case NOP => true
        case MUT_OPCODE => newInstr in nodes && oldInstr in text && oldInstr !in nodes
        case MUT_OPERAND => newInstr in nodes && oldInstr in text && oldInstr !in nodes
        case REPLACE => newInstr in nodes && oldInstr in text && oldInstr !in nodes
        case INSERT => newInstr in nodes
        case SWAP => swapped1 in nodes && swapped2 in nodes && swapped1 != swapped2
        case MOVE => newInstr in nodes && newInstr != nextLoc && (nextLoc == END || nextLoc in nodes)
        case DELETE => newInstr in text && newInstr !in nodes && (nextLoc == END || nextLoc in nodes)
    {
    }

    // ---- the block ----

    method CloneInstr(x: int) returns (y: int)
      requires x in text && forall z :: z in text ==> 0 < z <= created
      modifies `text, `created
      ensures y == old(created) + 1 && created == y && text == old(text)[y := old(text)[x]]
    {
      created := created + 1;
      y := created;
      text := text[y := text[x]];
    }

    method CreateInstr(what: Instr) returns (y: int)
      modifies `text, `created
      ensures y == old(created) + 1 && created == y && text == old(text)[y := what]
    {
      created := created + 1;
      y := created;
      text := text[y := what];
    }

    /** replaceInst: new takes the place of old, which is erased if so asked. */
    method ReplaceInst(o: int, n: int, erase: bool)
      requires Distinct(nodes) && o in nodes && n !in nodes
      modifies `nodes, `text
      ensures nodes == old(nodes)[At(old(nodes), o) := n] && Distinct(nodes)
      ensures text == if erase then old(text) - {o} else old(text)
    {
      ReplaceFacts(nodes, o, n);
      PutFacts(nodes, At(nodes, o), n);
      nodes := Insert(nodes, o, n);
      nodes := Drop(nodes, At(nodes, o));
      if erase {
        text := text - {o};
      }
    }

    /** The location of an index: an instruction, or the end. */
    function LocAt(i: int): int
      reads `nodes
    {
      if 0 <= i < |nodes| then nodes[i] else END
    }

    /** select: any location but one. The retry loop is not modelled, only what it leaves with. */
    method Select(except: int, includeEnd: bool, ghost sample: int) returns (loc: int)
      requires 0 <= sample < (if includeEnd then |nodes| + 1 else |nodes|) && LocAt(sample) != except
      ensures loc != except && (loc in nodes || (includeEnd && loc == END))
    {
      var bound := if includeEnd then |nodes| + 1 else |nodes|;
      assert 0 <= sample < bound;
      var idx: int :| 0 <= idx < bound && LocAt(idx) != except;
      loc := LocAt(idx);
    }

    // ---- random instructions ----

    /** randOperand keeps the kind of an operand and draws its value from the pool for its place. */
    method RandOperand(op: Operand, info: OperandInfo) returns (r: Operand)
      requires op.Reg? ==> regs(info.regClass) != []
      ensures Alike(op, r) && FromPool(regs, info, r)
    {
      match op {
        case Imm(_) =>
          var k :| 0 <= k < |IMMEDIATES|;
          r := Imm(IMMEDIATES[k]);
        case Reg(_, isDef) =>
          var pool := regs(info.regClass);
          var k :| 0 <= k < |pool|;
          r := Reg(pool[k], isDef);
      }
    }

    /** chooseNonBranchOpcode, when there is such an opcode. */
    method ChooseOpcode() returns (opc: nat)
      requires exists o: nat :: o < |descs| && Usable(descs[o])
      ensures opc < |descs| && Usable(descs[opc])
    {
      opc :| opc < |descs| && !(descs[opc].branch || HasUnknown(descs[opc]) || descs[opc].pseudo || descs[opc].ret
                                || descs[opc].call || descs[opc].variadic || !descs[opc].supported);
    }

    /** randInstr: operands of the right number and kind, a tied pair of registers equal. */
    method RandInstr() returns (x: Instr)
      requires TableOK(descs, regs) && exists o: nat :: o < |descs| && Usable(descs[o])
      ensures Fresh(descs, regs, x)
    {
      hide *;
      var opc := ChooseOpcode();
      var desc := descs[opc];
      var ops: seq<Operand> := [];
      UsableIs(desc);
      var i := 0;
      while i < |desc.ops|
        invariant 0 <= i <= |desc.ops| && |ops| == i
        invariant forall j :: 0 <= j < i ==> FitsOperand(desc.ops[j], ops[j]) && FromPool(regs, desc.ops[j], ops[j])
        invariant forall j :: 0 <= j < i && ops[j].Reg? ==> (ops[j].isDef <==> j < desc.numDefs)
      {
        var isDef := i < desc.numDefs;
        var op := Imm(42);
        Known(desc, i);
        match desc.ops[i].ty {
          case Pcrel => op := Imm(0);
          case FirstTarget => op := Imm(0);
          case Immediate => op := Imm(0);
          case Register => op := Reg(1, isDef);
          case Unknown => assert false;
          case MemoryRef => assert false;
        }
        ghost var kind := op;
        PoolAt(descs, regs, opc, i);
        op := RandOperand(op, desc.ops[i]);
        SameKind(desc.ops[i], kind, op);
        AlikeIs(kind, op);
        ops := ops + [op];
        i := i + 1;
      }
      ghost var free := ops;
      TableAt(descs, regs, opc);
      if desc.tied && ops[0].Reg? && ops[1].Reg? {
        ops := ops[1 := ops[1].(reg := ops[0].reg)];
      }
      x := Instr(opc, ops);
      TiedInstr(descs, regs, opc, free, ops);
      FreshIs(descs, regs, x);
    }

    // ---- the proposals ----

    /** The new instruction takes the place of the old one, which is kept for Undo. */
    method Substitute(instr: int, kind: Kind)
      requires Valid() && instr in nodes && newInstr in text && newInstr !in nodes
      requires kind == MUT_OPCODE || kind == MUT_OPERAND || kind == REPLACE
      modifies this
      ensures Valid() && prev == kind && Undoable() && Undone() == old(Content())
      ensures Content() == old(Content())[At(old(nodes), instr) := text[newInstr]]
      ensures nodes == old(nodes)[At(old(nodes), instr) := newInstr] && text == old(text) && newInstr == old(newInstr)
      ensures created == old(created) && oldInstr == instr && numInstrs == old(numInstrs)
    {
      hide *;
      ghost var k, n0 := At(nodes, instr), nodes;
      ValidIs();
      ContentIs();
      PutFacts(nodes, k, newInstr);
      TextsPut(nodes, text, k, newInstr);
      TextsAre(nodes, text);
      InText(nodes, text, k);
      PutIs(Texts(nodes, text), k, text[newInstr]);
      oldInstr := instr;
      prev := kind;
      ReplaceInst(instr, newInstr, false);
      ValidIs();
      ContentIs();
      UndoableIs();
      ReplacedUndone();
      PutTwice(Texts(n0, text), k, text[newInstr], text[oldInstr]);
    }

    lemma ReplacedUndone()
      requires Valid() && Undoable() && (prev == MUT_OPCODE || prev == MUT_OPERAND || prev == REPLACE)
      ensures newInstr in nodes && oldInstr in text
      ensures |Content()| == |nodes| && Undone() == Content()[At(nodes, newInstr) := text[oldInstr]]
    {
    }

    /** MutateOpcode: another opcode of the same class, of which the class lookup finds at least one. */
    method MutateOpcode() returns (changed: bool, ghost i: int)
      requires Valid() && AllFit(descs, Content())
      modifies this
      ensures Valid() && Undoable() && Undone() == old(Content()) && AllFit(descs, Content())
      ensures AllDrawn(descs, regs, old(Content())) ==> AllDrawn(descs, regs, Content())
      ensures DefsAlike(descs) && AllMarked(descs, old(Content())) ==> AllMarked(descs, Content())
      ensures changed <==> old(Content()) != []
      ensures !changed ==> Content() == old(Content())
      ensures changed ==> 0 <= i < |Content()| == |old(Content())| && Content() == old(Content())[i := Content()[i]]
      ensures changed ==> SameClass(leader, old(Content())[i], Content()[i])
    {
      hide *;
      ValidIs();
      ContentIs();
      TextsAre(nodes, text);
      ghost var c0 := Content();
      if numInstrs == 0 {
        Nothing();
        return false, 0;
      }
      LocIs(0);
      var instr := Select(END, true, 0);
      i := At(nodes, instr);
      var oldOpcode := text[instr].opcode;
      AllFitAt(descs, c0, i);
      ClassmatesFit(descs, leader, c0[i], oldOpcode);
      var newOpcode: nat :| newOpcode in leader && leader[newOpcode] == leader[oldOpcode];
      ClassmatesFit(descs, leader, c0[i], newOpcode);
      newInstr := CreateInstr(text[instr].(opcode := newOpcode));
      Grown(c0);
      Substitute(instr, MUT_OPCODE);
      ClassmatesDrawn(descs, leader, regs, c0[i], newOpcode);
      ClassmatesMarked(descs, leader, c0[i], newOpcode);
      InPlace(c0, i, text[newInstr]);
      KeptBy(descs, regs, c0, Content(), text[newInstr]);
      HadAt(descs, regs, c0, i);
      SameClassIs(leader, c0[i], text[newInstr]);
      changed := true;
    }

    method Nothing()
      requires Valid()
      modifies `prev
      ensures prev == NOP && Valid() && Content() == old(Content()) && Undoable() && Undone() == Content()
    {
      hide *;
      ValidIs();
      ContentIs();
      prev := NOP;
      ValidIs();
      ContentIs();
      Still(Content());
    }

    /** Nothing changed: undoing does nothing. */
    lemma Still(c0: seq<Instr>)
      requires prev == NOP && Valid() && Content() == c0
      ensures Undoable() && Undone() == c0
    {
    }

    lemma LocIs(i: int)
      ensures LocAt(i) == if 0 <= i < |nodes| then nodes[i] else END
      ensures 0 <= i < |nodes| && Valid() ==> nodes[i] != END && nodes[i] in text && nodes[i] in nodes
    {
    }

    /** A new instruction in existence does not show in the block. */
    twostate lemma Grown(c0: seq<Instr>)
      requires old(Valid()) && old(Content()) == c0 && nodes == old(nodes) && numInstrs == old(numInstrs)
      requires created == old(created) + 1 && created in text && text == old(text)[created := text[created]]
      ensures Valid() && Content() == c0 && created in text && created !in nodes
    {
      TextsSame(nodes, old(text), text);
    }

    /** MutateOperand: one operand gets another value of its kind, and with it the operand it is tied to. */
    method MutateOperand() returns (changed: bool, ghost i: int, ghost k: int)
      requires Valid() && AllFit(descs, Content())
      modifies this
      ensures Valid() && Undoable() && Undone() == old(Content()) && AllFit(descs, Content())
      ensures TiesAlike(descs, regs) && AllDrawn(descs, regs, old(Content())) ==> AllDrawn(descs, regs, Content())
      ensures AllMarked(descs, old(Content())) ==> AllMarked(descs, Content())
      ensures !changed ==> Content() == old(Content())
      ensures changed ==> 0 <= i < |Content()| == |old(Content())| && Content() == old(Content())[i := Content()[i]]
      ensures changed ==> OperandChanged(descs, old(Content())[i], Content()[i], k)
      ensures changed ==> (TiesMet(descs, old(Content())[i]) ==> TiesMet(descs, Content()[i]))
      ensures changed <==> old(Content()) != [] && prev == MUT_OPERAND
    {
      hide *;
      ValidIs();
      ContentIs();
      TextsAre(nodes, text);
      ghost var c0 := Content();
      if numInstrs == 0 {
        Nothing();
        return false, 0, 0;
      }
      LocIs(0);
      var instr := Select(END, true, 0);
      i := At(nodes, instr);
      AllFitAt(descs, c0, i);
      var x := text[instr];
      FitShape(descs, x);
      var desc := descs[x.opcode];
      if |desc.ops| == 0 {
        newInstr := CreateInstr(x);
        Grown(c0);
        Substitute(instr, MUT_OPERAND);
        SameAgain(c0, i);
        Nothing();
        return false, 0, 0;
      }
      var opIdx: int := *;
      if !(0 <= opIdx < |desc.ops|) {
        opIdx := 0;
      }
      k := opIdx;
      var y := RedrawOperand(x, opIdx);
      newInstr := CreateInstr(y);
      Grown(c0);
      Substitute(instr, MUT_OPERAND);
      InPlace(c0, i, text[newInstr]);
      KeptBy(descs, regs, c0, Content(), text[newInstr]);
      HadAt(descs, regs, c0, i);
      changed := true;
    }

    /** The instruction with a random value for one operand, and for the register tied to it. */
    method RedrawOperand(x: Instr, opIdx: nat) returns (y: Instr)
      requires TableOK(descs, regs) && WellFormed(descs, x) && opIdx < |descs[x.opcode].ops|
      ensures WellFormed(descs, y) && OperandChanged(descs, x, y, opIdx) && (TiesMet(descs, x) ==> TiesMet(descs, y))
      ensures TiesAlike(descs, regs) && Drawn(descs, regs, x) ==> Drawn(descs, regs, y)
      ensures Marked(descs, x) ==> Marked(descs, y)
    {
      hide *;
      FitShape(descs, x);
      var desc := descs[x.opcode];
      RegisterPlace(descs, regs, x, opIdx);
      var op := RandOperand(x.operands[opIdx], desc.ops[opIdx]);
      var ops := x.operands[opIdx := op];
      TiedShape(descs, regs, x.opcode);
      IsTiedIs(descs, x);
      AlikeIs(x.operands[opIdx], op);
      if desc.tied && ops[0].Reg? && ops[1].Reg? {
        if opIdx == 0 {
          ops := ops[1 := ops[1].(reg := ops[0].reg)];
        } else if opIdx == 1 {
          ops := ops[0 := ops[0].(reg := ops[1].reg)];
        }
      }
      y := x.(operands := ops);
      FitAgain(descs, x, ops);
      OneOperand(descs, x, y, opIdx, op);
      StillMarked(descs, x, y, opIdx);
      if TiesAlike(descs, regs) && Drawn(descs, regs, x) {
        OperandDrawn(descs, regs, x, y, opIdx);
      }
    }

    /** Replace: a random instruction takes the place of another. */
    method Replace() returns (changed: bool, ghost i: int)
      requires Valid() && (numInstrs != 0 ==> exists o: nat :: o < |descs| && Usable(descs[o]))
      modifies this
      ensures Valid() && Undoable() && Undone() == old(Content())
      ensures AllFit(descs, old(Content())) ==> AllFit(descs, Content())
      ensures TiesAlike(descs, regs) && AllDrawn(descs, regs, old(Content())) ==> AllDrawn(descs, regs, Content())
      ensures changed <==> old(Content()) != []
      ensures !changed ==> Content() == old(Content())
      ensures changed ==> 0 <= i < |Content()| == |old(Content())| && Content() == old(Content())[i := Content()[i]]
      ensures changed ==> Fresh(descs, regs, Content()[i])
      ensures AllMarked(descs, old(Content())) ==> AllMarked(descs, Content())
    {
      hide *;
      ValidIs();
      ContentIs();
      TextsAre(nodes, text);
      ghost var c0 := Content();
      if numInstrs == 0 {
        Nothing();
        return false, 0;
      }
      var x := RandInstr();
      FreshIs(descs, regs, x);
      newInstr := CreateInstr(x);
      Grown(c0);
      ValidIs();
      LocIs(0);
      var instr := Select(END, true, 0);
      i := At(nodes, instr);
      Substitute(instr, REPLACE);
      InPlace(c0, i, x);
      KeptBy(descs, regs, c0, Content(), x);
      changed := true;
    }

    /** Insert: a random instruction before another, or alone. */
    method InsertInstr() returns (ghost i: int)
      requires Valid() && exists o: nat :: o < |descs| && Usable(descs[o])
      modifies this
      ensures Valid() && Undoable() && Undone() == old(Content())
      ensures AllFit(descs, old(Content())) ==> AllFit(descs, Content())
      ensures TiesAlike(descs, regs) && AllDrawn(descs, regs, old(Content())) ==> AllDrawn(descs, regs, Content())
      ensures 0 <= i < |Content()| == |old(Content())| + 1 && Drop(Content(), i) == old(Content())
      ensures Fresh(descs, regs, Content()[i]) && (old(Content()) != [] ==> i < |old(Content())|)
      ensures AllMarked(descs, old(Content())) ==> AllMarked(descs, Content())
    {
      hide *;
      ValidIs();
      ContentIs();
      ghost var c0, n0 := Content(), nodes;
      TextsAre(nodes, text);
      var x := RandInstr();
      FreshIs(descs, regs, x);
      newInstr := CreateInstr(x);
      Grown(c0);
      ValidIs();
      ContentIs();
      var loc := END;
      if numInstrs != 0 {
        LocIs(0);
        loc := Select(END, true, 0);
      }
      i := Spot(nodes, loc);
      SpotIs(nodes, loc);
      InsertFacts(nodes, loc, newInstr);
      InsertIsPlace(nodes, loc, newInstr);
      PlaceDistinct(nodes, i, newInstr);
      TextsPlace(nodes, text, i, newInstr);
      nodes := Insert(nodes, loc, newInstr);
      prev := INSERT;
      numInstrs := numInstrs + 1;
      ValidIs();
      ContentIs();
      UndoableIs();
      InsertUndone();
      PlaceIs(c0, i, text[newInstr]);
      PlaceFrom(c0, i, x);
      KeptBy(descs, regs, c0, Content(), x);
    }

    lemma InsertUndone()
      requires Valid() && Undoable() && prev == INSERT
      ensures newInstr in nodes && |Content()| == |nodes| && Undone() == Drop(Content(), At(nodes, newInstr))
    {
    }

    /** Delete: one instruction leaves the block, and what followed it is remembered. */
    method DeleteInstr() returns (changed: bool, ghost i: int)
      requires Valid()
      modifies this
      ensures Valid() && Undoable() && Undone() == old(Content())
      ensures AllFit(descs, old(Content())) ==> AllFit(descs, Content())
      ensures AllDrawn(descs, regs, old(Content())) ==> AllDrawn(descs, regs, Content())
      ensures AllMarked(descs, old(Content())) ==> AllMarked(descs, Content())
      ensures changed <==> old(Content()) != []
      ensures !changed ==> Content() == old(Content())
      ensures changed ==> 0 <= i < |old(Content())| && Content() == Drop(old(Content()), i)
    {
      hide *;
      ValidIs();
      ContentIs();
      TextsAre(nodes, text);
      ghost var c0, n0 := Content(), nodes;
      if numInstrs == 0 {
        Nothing();
        return false, 0;
      }
      LocIs(0);
      newInstr := Select(END, true, 0);
      var at := At(nodes, newInstr);
      i := at;
      nextLoc := NextNode(nodes, at);
      NextIs(nodes, at);
      NoEnd(nodes, text, created);
      DropFacts(nodes, at);
      InsertDrop(nodes, at);
      InText(nodes, text, at);
      TextsDrop(nodes, text, at);
      nodes := Drop(nodes, at);
      prev := DELETE;
      numInstrs := numInstrs - 1;
      ValidIs();
      ContentIs();
      UndoableIs();
      DeleteUndone();
      DropFrom(c0, at);
      KeptIn(descs, regs, c0, Content());
      changed := true;
    }

    lemma DeleteUndone()
      requires Valid() && Undoable() && prev == DELETE
      ensures AllIn(Insert(nodes, nextLoc, newInstr), text) && Undone() == Texts(Insert(nodes, nextLoc, newInstr), text)
    {
    }

    /** Move: one instruction goes to another place, and what followed it is remembered. */
    method Move() returns (changed: bool, ghost i: int, ghost j: int)
      requires Valid() && numInstrs >= 1
      modifies this
      ensures Valid() && Undoable() && Undone() == old(Content())
      ensures AllFit(descs, old(Content())) ==> AllFit(descs, Content())
      ensures AllDrawn(descs, regs, old(Content())) ==> AllDrawn(descs, regs, Content())
      ensures AllMarked(descs, old(Content())) ==> AllMarked(descs, Content())
      ensures changed <==> |old(Content())| >= 2
      ensures !changed ==> Content() == old(Content())
      ensures changed ==> 0 <= i < |old(Content())| && 0 <= j <= |old(Content())| - 1
      ensures changed ==> Content() == Place(Drop(old(Content()), i), j, old(Content())[i]) && i != j
    {
      hide *;
      ValidIs();
      ContentIs();
      TextsAre(nodes, text);
      ghost var c0, n0 := Content(), nodes;
      if numInstrs == 1 {
        Nothing();
        return false, 0, 0;
      }
      LocIs(0);
      var instr := Select(END, true, 0);
      var at := At(nodes, instr);
      i := at;
      nextLoc := NextNode(nodes, at);
      NextIs(nodes, at);
      NoEnd(nodes, text, created);
      ValidIs();
      var newLoc := SelectOther(instr, nextLoc);
      DropFacts(nodes, at);
      InsertDrop(nodes, at);
      TextsDrop(nodes, text, at);
      nodes := Drop(nodes, at);
      ghost var n1 := nodes;
      j := Spot(nodes, newLoc);
      SpotIs(nodes, newLoc);
      OtherSpot(n0, at, newLoc);
      InsertFacts(nodes, newLoc, instr);
      InsertIsPlace(nodes, newLoc, instr);
      TextsPlace(nodes, text, j, instr);
      nodes := Insert(nodes, newLoc, instr);
      newInstr := instr;
      prev := MOVE;
      ValidIs();
      ContentIs();
      UndoableIs();
      MoveUndone();
      MoveFrom(c0, at, j);
      KeptIn(descs, regs, c0, Content());
      changed := true;
    }

    /** Any location but these two: one is left, there being at least three. */
    method SelectOther(instr: int, next: int) returns (loc: int)
      requires Valid() && |nodes| >= 2
      ensures loc != instr && loc != next && (loc == END || loc in nodes)
    {
      hide *;
      ValidIs();
      LocIs(0);
      LocIs(1);
      LocIs(|nodes|);
      TwoApart(nodes);
      ghost var sample := if LocAt(0) != instr && LocAt(0) != next then 0
                          else if LocAt(1) != instr && LocAt(1) != next then 1 else |nodes|;
      assert 0 <= sample <= |nodes| && LocAt(sample) != instr && LocAt(sample) != next;
      var idx: int :| 0 <= idx <= |nodes| && LocAt(idx) != instr && LocAt(idx) != next;
      LocIs(idx);
      loc := LocAt(idx);
    }

    lemma MoveUndone()
      requires Valid() && Undoable() && prev == MOVE
      ensures newInstr in nodes
      ensures var s := Insert(Drop(nodes, At(nodes, newInstr)), nextLoc, newInstr);
        AllIn(s, text) && Undone() == Texts(s, text)
    {
      hide Insert, Drop, At, Texts, AllIn, Classes, TableOK;
      MovedBack(nodes, text, newInstr, nextLoc);
    }

    /** doSwap: clones of the two instructions take each other's places, and the originals are deleted. */
    method DoSwap(a: int, b: int) returns (aa: int, bb: int)
      requires Valid() && a in nodes && b in nodes
      modifies `nodes, `text, `created
      ensures Valid() && numInstrs == old(numInstrs) && prev == old(prev)
      ensures a == b ==> aa == a && bb == b && Content() == old(Content()) && nodes == old(nodes)
      ensures |Content()| == |old(Content())| == |nodes| == |old(nodes)|
      ensures a != b ==> aa != bb && aa in nodes && bb in nodes && At(nodes, aa) == At(old(nodes), b)
                         && At(nodes, bb) == At(old(nodes), a)
      ensures Content() == Exchange(old(Content()), At(old(nodes), a), At(old(nodes), b))
    {
      hide *;
      ghost var c0, n0, i, j := Content(), nodes, At(nodes, a), At(nodes, b);
      ValidIs();
      ContentIs();
      TextsAre(nodes, text);
      ExchangeIs(c0, i, j);
      if a == b {
        return a, b;
      }
      InText(nodes, text, i);
      InText(nodes, text, j);
      IdsIs(text, created);
      aa := CloneInstr(a);
      Grown(c0);
      ValidIs();
      IdsIs(text, created);
      bb := CloneInstr(b);
      ghost var t2 := text;
      IdsIs(t2, created);
      DistinctAt(n0, i, j);
      Unused(n0, old(text), old(created), aa, bb, i);
      TextsSame(n0, old(text), t2);
      PutFacts(n0, i, bb);
      PutFacts(n0[i := bb], j, aa);
      AtUnique(n0[i := bb], j);
      ReplaceInst(a, bb, true);
      ReplaceInst(b, aa, true);
      Swapped(n0, t2, text, i, j, aa, bb, c0);
      IdsIs(text, created);
      ValidIs();
      ContentIs();
    }

    /** Swap: two different instructions. */
    method Swap() returns (changed: bool, ghost i: int, ghost j: int)
      requires Valid()
      modifies this
      ensures Valid() && Undoable() && Undone() == old(Content())
      ensures AllFit(descs, old(Content())) ==> AllFit(descs, Content())
      ensures AllDrawn(descs, regs, old(Content())) ==> AllDrawn(descs, regs, Content())
      ensures AllMarked(descs, old(Content())) ==> AllMarked(descs, Content())
      ensures changed <==> |old(Content())| >= 2
      ensures !changed ==> Content() == old(Content())
      ensures changed ==> 0 <= i < |old(Content())| && 0 <= j < |old(Content())| && i != j
                          && Content() == Exchange(old(Content()), i, j)
    {
      hide *;
      ValidIs();
      ContentIs();
      TextsAre(nodes, text);
      ghost var c0 := Content();
      if numInstrs < 2 {
        Nothing();
        return false, 0, 0;
      }
      LocIs(0);
      LocIs(1);
      TwoApart(nodes);
      var a := Select(END, true, 0);
      var b := Select(a, false, if LocAt(0) != a then 0 else 1);
      i, j := At(nodes, a), At(nodes, b);
      var aa, bb := DoSwap(a, b);
      ValidIs();
      ContentIs();
      prev := SWAP;
      swapped1 := aa;
      swapped2 := bb;
      ValidIs();
      ContentIs();
      UndoableIs();
      SwapUndone();
      ExchangeTwice(c0, i, j);
      ExchangeFrom(c0, i, j);
      KeptIn(descs, regs, c0, Content());
      changed := true;
    }

    lemma SwapUndone()
      requires Valid() && Undoable() && prev == SWAP
      ensures swapped1 in nodes && swapped2 in nodes && |Content()| == |nodes|
      ensures Undone() == Exchange(Content(), At(nodes, swapped1), At(nodes, swapped2))
    {
    }

    // ---- undo and accept ----

    /** Undo: the block says what it said before the last change. */
    method Undo()
      requires Valid() && Undoable()
      modifies this
      ensures Valid() && Content() == old(Undone())
    {
      hide *;
      ValidIs();
      ContentIs();
      UndoableIs();
      TextsAre(nodes, text);
      match prev {
        case NOP =>
          NopUndone();
        case MUT_OPCODE =>
          PutBack();
        case MUT_OPERAND =>
          PutBack();
        case REPLACE =>
          PutBack();
        case INSERT =>
          InsertUndone();
          ghost var at := At(nodes, newInstr);
          DropFacts(nodes, at);
          TextsDrop(nodes, text, at);
          ghost var n1, t1 := Drop(nodes, at), text;
          nodes := Drop(nodes, At(nodes, newInstr));
          text := text - {newInstr};
          TextsMinus(n1, t1, newInstr);
          IdsIs(t1, created);
          IdsIs(text, created);
          numInstrs := numInstrs - 1;
          ValidIs();
          ContentIs();
        case SWAP =>
          SwapUndone();
          var a, b := DoSwap(swapped1, swapped2);
        case MOVE =>
          MoveUndone();
          ghost var at := At(nodes, newInstr);
          DropFacts(nodes, at);
          InText(nodes, text, at);
          TextsDrop(nodes, text, at);
          nodes := Drop(nodes, At(nodes, newInstr));
          Reinsert();
          ValidIs();
          ContentIs();
        case DELETE =>
          DeleteUndone();
          Reinsert();
          numInstrs := numInstrs + 1;
          ValidIs();
          ContentIs();
      }
    }

    lemma NopUndone()
      requires Valid() && prev == NOP && Undoable()
      ensures Undone() == Content()
    {
    }

    /** The old instruction comes back in the place of the new one, which is deleted. */
    method PutBack()
      requires Valid() && Undoable() && (prev == MUT_OPCODE || prev == MUT_OPERAND || prev == REPLACE)
      modifies `nodes, `text
      ensures Valid() && Content() == old(Undone())
    {
      hide *;
      ValidIs();
      ContentIs();
      UndoableIs();
      ReplacedUndone();
      ghost var k, t1 := At(nodes, newInstr), text;
      PutFacts(nodes, k, oldInstr);
      TextsPut(nodes, text, k, oldInstr);
      TextsAre(nodes, text);
      PutIs(Texts(nodes, text), k, text[oldInstr]);
      ReplaceInst(newInstr, oldInstr, true);
      TextsMinus(nodes, t1, newInstr);
      IdsIs(t1, created);
      IdsIs(text, created);
      ValidIs();
      ContentIs();
    }

    /** The remembered instruction goes back before what followed it, or to the end. */
    method Reinsert()
      requires Distinct(nodes) && AllIn(nodes, text) && Ids(text, created) && newInstr in text && newInstr !in nodes
      requires nextLoc == END || nextLoc in nodes
      modifies `nodes
      ensures nodes == Insert(old(nodes), nextLoc, newInstr) && Distinct(nodes) && AllIn(nodes, text)
        && |nodes| == |old(nodes)| + 1
    {
      hide *;
      NoEnd(nodes, text, created);
      InsertFacts(nodes, nextLoc, newInstr);
      InsertIsPlace(nodes, nextLoc, newInstr);
      SpotIs(nodes, nextLoc);
      TextsPlace(nodes, text, Spot(nodes, nextLoc), newInstr);
      if nextLoc == END {
        nodes := nodes + [newInstr];
        AppendIs(old(nodes), newInstr);
      } else {
        nodes := Insert(nodes, nextLoc, newInstr);
      }
    }

    /** Accept: the block stays as it is, and only what was replaced or deleted goes out of existence. */
    method Accept()
      requires Valid() && Undoable()
      modifies `text
      ensures Valid() && Content() == old(Content()) && nodes == old(nodes)
      ensures text == match prev
        case MUT_OPCODE => old(text) - {oldInstr}
        case MUT_OPERAND => old(text) - {oldInstr}
        case REPLACE => old(text) - {oldInstr}
        case DELETE => old(text) - {newInstr}
        case _ => old(text)
    {
      hide *;
      ValidIs();
      ContentIs();
      UndoableIs();
      ghost var t1 := text;
      match prev {
        case NOP =>
        case INSERT =>
        case SWAP =>
        case MOVE =>
        case MUT_OPCODE => text := text - {oldInstr}; TextsMinus(nodes, t1, oldInstr);
        case MUT_OPERAND => text := text - {oldInstr}; TextsMinus(nodes, t1, oldInstr);
        case REPLACE => text := text - {oldInstr}; TextsMinus(nodes, t1, oldInstr);
        case DELETE => text := text - {newInstr}; TextsMinus(nodes, t1, newInstr);
      }
      IdsIs(t1, created);
      IdsIs(text, created);
      ValidIs();
      ContentIs();
    }
  }

  /** Two-address code: the first two operands are tied and both registers. */
  predicate IsTied(descs: seq<Desc>, x: Instr)
    requires x.opcode < |descs|
  {
    descs[x.opcode].tied && |x.operands| >= 2 && x.operands[0].Reg? && x.operands[1].Reg?
  }

  lemma IsTiedIs(descs: seq<Desc>, x: Instr)
    requires x.opcode < |descs|
    ensures IsTied(descs, x) <==> descs[x.opcode].tied && |x.operands| >= 2 && x.operands[0].Reg? && x.operands[1].Reg?
  {
  }

  lemma AlikeIs(a: Operand, b: Operand)
    ensures Alike(a, b) <==> a.Imm? == b.Imm? && (a.Reg? ==> a.isDef == b.isDef)
  {
  }

  predicate TiesMet(descs: seq<Desc>, x: Instr)
    requires x.opcode < |descs|
  {
    IsTied(descs, x) ==> x.operands[0].reg == x.operands[1].reg
  }

  /** The instruction x may get opcode o, which is of its class. */
  ghost predicate MayBecome(descs: seq<Desc>, x: Instr, o: nat) {
    WellFormed(descs, x) && o < |descs| && Usable(descs[o]) && Exchangeable(descs[x.opcode], descs[o])
  }

  /** A class has an opcode without a tie beside one that ties its first two registers. */
  ghost predicate MixedTies(descs: seq<Desc>, a: nat, b: nat) {
    && a < |descs| && b < |descs| && Usable(descs[a]) && Usable(descs[b]) && Exchangeable(descs[a], descs[b])
    && !descs[a].tied && descs[b].tied && |descs[b].ops| >= 2 && descs[b].ops[0].ty.Register?
        && descs[b].ops[1].ty.Register?
  }

  /** Operands that fit, the registers numbered by their places. */
  function AnyOperands(d: Desc): (ops: seq<Operand>)
    requires !HasUnknown(d)
    ensures |ops| == |d.ops| && forall j :: 0 <= j < |ops| ==>
                                            FitsOperand(d.ops[j], ops[j]) && (ops[j].Reg? ==> ops[j].reg == j)
  {
    seq(|d.ops|, j requires 0 <= j < |d.ops| => Known(d, j); if d.ops[j].ty.Register? then Reg(j, false) else Imm(0))
  }

  /** Changing opcodes within classes keeps tied registers equal exactly when no class mixes tied and untied opcodes. */
  lemma OpcodesKeepTies(descs: seq<Desc>)
    ensures (forall x: Instr, o: nat :: MayBecome(descs, x, o) && TiesMet(descs, x) ==> TiesMet(descs, x.(opcode := o)))
       <==> !exists a: nat, b: nat :: MixedTies(descs, a, b)
  {
    if a: nat, b: nat :| MixedTies(descs, a, b) {
      var x := Instr(a, AnyOperands(descs[a]));
      assert SameOperand(descs[a].ops[0], descs[b].ops[0]) && SameOperand(descs[a].ops[1], descs[b].ops[1]);
      assert FitsOperand(descs[a].ops[0], x.operands[0]) && FitsOperand(descs[a].ops[1], x.operands[1]);
      assert MayBecome(descs, x, b) && TiesMet(descs, x) && !TiesMet(descs, x.(opcode := b));
    } else {
      forall x: Instr, o: nat | MayBecome(descs, x, o) && TiesMet(descs, x) ensures TiesMet(descs, x.(opcode := o)) {
        if IsTied(descs, x.(opcode := o)) && !IsTied(descs, x) {
          assert SameOperand(descs[x.opcode].ops[0], descs[o].ops[0])
              && SameOperand(descs[x.opcode].ops[1], descs[o].ops[1]);
          assert FitsOperand(descs[x.opcode].ops[0], x.operands[0])
              && FitsOperand(descs[x.opcode].ops[1], x.operands[1]);
          assert MixedTies(descs, x.opcode, o);
        }
      }
    }
  }

  /** Operands that fit, the registers marked as the descriptor says. */
  function MarkedOperands(d: Desc): (ops: seq<Operand>)
    requires !HasUnknown(d)
    ensures |ops| == |d.ops| && forall j :: 0 <= j < |ops| ==>
      FitsOperand(d.ops[j], ops[j]) && (ops[j].Reg? ==> (ops[j].isDef <==> j < d.numDefs))
  {
    seq(|d.ops|, j requires 0 <= j < |d.ops| =>
      Known(d, j); if d.ops[j].ty.Register? then Reg(0, j < d.numDefs) else Imm(0))
  }

  /**
   * Changing opcodes within classes keeps the marks of definitions exactly when opcodes of a class define the same
   * register operands.
   */
  lemma OpcodesKeepDefs(descs: seq<Desc>)
    ensures (forall x: Instr, o: nat :: MayBecome(descs, x, o) && Marked(descs, x) ==> Marked(descs, x.(opcode := o)))
       <==> DefsAlike(descs)
  {
    if DefsAlike(descs) {
      forall x: Instr, o: nat | MayBecome(descs, x, o) && Marked(descs, x) ensures Marked(descs, x.(opcode := o)) {
        assert !MixedDefs(descs, x.opcode, o);
        forall j | 0 <= j < |x.operands| && x.operands[j].Reg? ensures x.operands[j].isDef <==> j < descs[o].numDefs {
          assert FitsOperand(descs[x.opcode].ops[j], x.operands[j]);
        }
      }
    } else {
      var a: nat, b: nat :| MixedDefs(descs, a, b);
      var x := Instr(a, MarkedOperands(descs[a]));
      var j :| 0 <= j < |descs[a].ops| && descs[a].ops[j].ty.Register?
               && !(j < descs[a].numDefs <==> j < descs[b].numDefs);
      assert FitsOperand(descs[a].ops[j], x.operands[j]);
      assert MayBecome(descs, x, b) && Marked(descs, x) && !Marked(descs, x.(opcode := b));
    }
  }

  /** The same kind of operand. */
  predicate Alike(a: Operand, b: Operand) {
    a.Imm? == b.Imm? && (a.Reg? ==> a.isDef == b.isDef)
  }

  /** Operand k has another value of its kind; the operand it is tied to has the same register; no other differs. */
  predicate OperandChanged(descs: seq<Desc>, x: Instr, y: Instr, k: int)
    requires x.opcode < |descs|
  {
    && y.opcode == x.opcode && |y.operands| == |x.operands| && 0 <= k < |x.operands|
    && (forall j :: 0 <= j < |x.operands| ==> Alike(x.operands[j], y.operands[j]))
    && (forall j :: 0 <= j < |x.operands| && j != k ==>
          if IsTied(descs, x) && k < 2 && j == 1 - k then y.operands[j].reg == y.operands[k].reg
          else y.operands[j] == x.operands[j])
  }

  /** What mutating operand k to op makes of an instruction. */
  lemma OneOperand(descs: seq<Desc>, x: Instr, y: Instr, k: int, op: Operand)
    requires x.opcode < |descs| && y.opcode == x.opcode && 0 <= k < |x.operands| && Alike(x.operands[k], op)
    requires var ops := x.operands[k := op];
             y.operands == if IsTied(descs, x) && k == 0 then ops[1 := ops[1].(reg := op.reg)]
                           else if IsTied(descs, x) && k == 1 then ops[0 := ops[0].(reg := op.reg)]
                           else ops
    ensures OperandChanged(descs, x, y, k) && (TiesMet(descs, x) ==> TiesMet(descs, y))
  {
  }

  lemma FitShape(descs: seq<Desc>, x: Instr)
    requires WellFormed(descs, x)
    ensures x.opcode < |descs| && |x.operands| == |descs[x.opcode].ops|
  {
  }

  lemma TiedShape(descs: seq<Desc>, regs: Registers, i: nat)
    requires TableOK(descs, regs) && i < |descs|
    ensures descs[i].tied ==> |descs[i].ops| >= 2
  {
  }

  /** Operands of the same kinds fit as well. */
  lemma FitAgain(descs: seq<Desc>, x: Instr, ops: seq<Operand>)
    requires WellFormed(descs, x) && |ops| == |x.operands|
      && forall j :: 0 <= j < |ops| ==> ops[j].Imm? == x.operands[j].Imm?
    ensures WellFormed(descs, x.(operands := ops))
  {
    forall j | 0 <= j < |ops| ensures FitsOperand(descs[x.opcode].ops[j], ops[j]) {
      assert FitsOperand(descs[x.opcode].ops[j], x.operands[j]);
    }
  }

  lemma SameAgain(c: seq<Instr>, i: int)
    requires 0 <= i < |c|
    ensures c[i := c[i]] == c
  {
  }

  lemma TextsPlace(nodes: seq<int>, text: map<int, Instr>, k: int, x: int)
    requires AllIn(nodes, text) && 0 <= k <= |nodes| && x in text
    ensures AllIn(Place(nodes, k, x), text) && |Texts(nodes, text)| == |nodes|
    ensures Texts(Place(nodes, k, x), text) == Place(Texts(nodes, text), k, text[x])
  {
    hide Place, Texts;
    PlaceIs(nodes, k, x);
    assert AllIn(Place(nodes, k, x), text) by {
      forall i | 0 <= i < |Place(nodes, k, x)| ensures Place(nodes, k, x)[i] in text { }
    }
    TextsAre(nodes, text);
    TextsAre(Place(nodes, k, x), text);
    PlaceIs(Texts(nodes, text), k, text[x]);
    var a, b := Texts(Place(nodes, k, x), text), Place(Texts(nodes, text), k, text[x]);
    forall i | 0 <= i < |a| ensures a[i] == b[i] { }
  }

  /** An instruction outside the block can go. */
  lemma TextsMinus(nodes: seq<int>, text: map<int, Instr>, x: int)
    requires AllIn(nodes, text) && x !in nodes
    ensures AllIn(nodes, text - {x}) && Texts(nodes, text - {x}) == Texts(nodes, text)
  {
    forall i | 0 <= i < |nodes|
      ensures nodes[i] in text - {x} && (text - {x})[nodes[i]] == text[nodes[i]]
    {
      assert nodes[i] in nodes;
    }
    TextsSame(nodes, text, text - {x});
  }

  // ---- what the instructions of a changed block have in common ----

  /** Every instruction of d is one of c, or x. */
  predicate From(c: seq<Instr>, d: seq<Instr>, x: Instr) {
    forall k :: 0 <= k < |d| ==> d[k] == x || d[k] in c
  }

  predicate Within(c: seq<Instr>, d: seq<Instr>) {
    forall k :: 0 <= k < |d| ==> d[k] in c
  }

  lemma KeptBy(descs: seq<Desc>, regs: Registers, c: seq<Instr>, d: seq<Instr>, x: Instr)
    requires From(c, d, x)
    ensures AllFit(descs, c) && WellFormed(descs, x) ==> AllFit(descs, d)
    ensures AllDrawn(descs, regs, c) && Drawn(descs, regs, x) ==> AllDrawn(descs, regs, d)
    ensures AllMarked(descs, c) && Marked(descs, x) ==> AllMarked(descs, d)
  {
    hide WellFormed, Drawn, Marked;
  }

  lemma KeptIn(descs: seq<Desc>, regs: Registers, c: seq<Instr>, d: seq<Instr>)
    requires Within(c, d)
    ensures AllFit(descs, c) ==> AllFit(descs, d)
    ensures AllDrawn(descs, regs, c) ==> AllDrawn(descs, regs, d)
    ensures AllMarked(descs, c) ==> AllMarked(descs, d)
  {
    hide WellFormed, Drawn, Marked;
  }

  lemma HadAt(descs: seq<Desc>, regs: Registers, c: seq<Instr>, i: int)
    requires 0 <= i < |c|
    ensures AllFit(descs, c) ==> WellFormed(descs, c[i])
    ensures AllDrawn(descs, regs, c) ==> Drawn(descs, regs, c[i])
    ensures AllMarked(descs, c) ==> Marked(descs, c[i])
  {
  }

  lemma InPlace(c: seq<Instr>, i: int, x: Instr)
    requires 0 <= i < |c|
    ensures From(c, c[i := x], x)
  {
  }

  lemma PlaceFrom(c: seq<Instr>, i: int, x: Instr)
    requires 0 <= i <= |c|
    ensures From(c, Place(c, i, x), x)
  {
    PlaceIs(c, i, x);
  }

  lemma DropFrom(c: seq<Instr>, i: int)
    requires 0 <= i < |c|
    ensures Within(c, Drop(c, i)) && |Drop(c, i)| == |c| - 1
  {
  }

  lemma MoveFrom(c: seq<Instr>, i: int, j: int)
    requires 0 <= i < |c| && 0 <= j < |c|
    ensures |Drop(c, i)| == |c| - 1 && Within(c, Place(Drop(c, i), j, c[i]))
  {
    hide Place, Drop;
    DropFrom(c, i);
    PlaceIs(Drop(c, i), j, c[i]);
  }

  lemma ExchangeFrom(c: seq<Instr>, i: int, j: int)
    requires 0 <= i < |c| && 0 <= j < |c|
    ensures Within(c, Exchange(c, i, j))
  {
  }

  // ---- where operands come from ----

  /** A register operand of a well-formed instruction has a class to draw from. */
  lemma RegisterPlace(descs: seq<Desc>, regs: Registers, x: Instr, k: int)
    requires TableOK(descs, regs) && WellFormed(descs, x) && 0 <= k < |x.operands|
    ensures x.operands[k].Reg? ==> regs(descs[x.opcode].ops[k].regClass) != []
  {
    assert FitsOperand(descs[x.opcode].ops[k], x.operands[k]);
  }

  /** Classmates have the same register classes at every place. */
  lemma ClassmatesDrawn(descs: seq<Desc>, leader: map<nat, nat>, regs: Registers, x: Instr, opcode: nat)
    requires Classes(descs, |descs|, leader) && WellFormed(descs, x) && x.opcode in leader
    requires opcode in leader && leader[opcode] == leader[x.opcode]
    ensures Drawn(descs, regs, x) ==> Drawn(descs, regs, x.(opcode := opcode))
  {
    hide FromPool;
    ClassmatesFit(descs, leader, x, opcode);
    assert Exchangeable(descs[x.opcode], descs[opcode]);
    if Drawn(descs, regs, x) {
      forall j | 0 <= j < |x.operands| ensures FromPool(regs, descs[opcode].ops[j], x.operands[j]) {
        SamePool(regs, descs[x.opcode].ops[j], descs[opcode].ops[j], x.operands[j]);
      }
    }
  }

  /** A classmate that defines the same operands keeps the marks. */
  lemma ClassmatesMarked(descs: seq<Desc>, leader: map<nat, nat>, x: Instr, opcode: nat)
    requires Classes(descs, |descs|, leader) && WellFormed(descs, x) && x.opcode in leader
    requires opcode in leader && leader[opcode] == leader[x.opcode]
    ensures DefsAlike(descs) && Marked(descs, x) ==> Marked(descs, x.(opcode := opcode))
  {
    ClassmatesFit(descs, leader, x, opcode);
    assert Exchangeable(descs[x.opcode], descs[opcode]);
    if DefsAlike(descs) && Marked(descs, x) {
      assert !MixedDefs(descs, x.opcode, opcode);
      forall j | 0 <= j < |x.operands| && x.operands[j].Reg?
        ensures x.operands[j].isDef <==> j < descs[opcode].numDefs
      {
        assert FitsOperand(descs[x.opcode].ops[j], x.operands[j]);
      }
    }
  }

  lemma StillMarked(descs: seq<Desc>, x: Instr, y: Instr, k: int)
    requires x.opcode < |descs| && OperandChanged(descs, x, y, k)
    ensures Marked(descs, x) ==> Marked(descs, y)
  {
    forall j | 0 <= j < |y.operands| ensures Alike(x.operands[j], y.operands[j]) { }
  }

  lemma SamePool(regs: Registers, a: OperandInfo, b: OperandInfo, op: Operand)
    requires SameOperand(a, b) && FitsOperand(a, op) && FromPool(regs, a, op)
    ensures FromPool(regs, b, op)
  {
  }

  /** Operand k changes to one from its pool; where ties are alike, the operand tied to it stays in its own pool. */
  lemma OperandDrawn(descs: seq<Desc>, regs: Registers, x: Instr, y: Instr, k: int)
    requires TiesAlike(descs, regs) && Drawn(descs, regs, x) && WellFormed(descs, y) && OperandChanged(descs, x, y, k)
    requires FromPool(regs, descs[x.opcode].ops[k], y.operands[k])
    ensures Drawn(descs, regs, y)
  {
    forall j | 0 <= j < |y.operands| ensures FromPool(regs, descs[y.opcode].ops[j], y.operands[j]) {
      assert FromPool(regs, descs[x.opcode].ops[j], x.operands[j]);
      assert FitsOperand(descs[x.opcode].ops[0], x.operands[0]);
      if j != k && IsTied(descs, x) && k < 2 && j == 1 - k {
        assert FitsOperand(descs[x.opcode].ops[1], x.operands[1]);
        assert TiesRegisters(descs[x.opcode]);
        assert Alike(x.operands[j], y.operands[j]) && Alike(x.operands[k], y.operands[k]);
      }
    }
  }

  /** Some operands from their pools, the registers of the first two places given. */
  function PoolOperands(d: Desc, regs: Registers, a: int, b: int): seq<Operand>
    requires forall j :: 0 <= j < |d.ops| && d.ops[j].ty.Register? ==> regs(d.ops[j].regClass) != []
  {
    seq(|d.ops|, j requires 0 <= j < |d.ops| =>
      if !d.ops[j].ty.Register? then Imm(0)
      else if j == 0 then Reg(a, false)
      else if j == 1 then Reg(b, false)
      else Reg(regs(d.ops[j].regClass)[0], false))
  }

  /**
   * Drawing one operand anew, and the register tied to it with it, keeps every operand in its pool exactly when tied
   * registers have the same class.
   */
  lemma DrawingKeepsPools(descs: seq<Desc>, regs: Registers)
    requires TableOK(descs, regs)
    ensures (forall x, y, k :: Redrawn(descs, regs, x, y, k) ==> Drawn(descs, regs, y)) <==> TiesAlike(descs, regs)
  {
    if TiesAlike(descs, regs) {
      forall x, y, k | Redrawn(descs, regs, x, y, k) ensures Drawn(descs, regs, y) {
        OperandDrawn(descs, regs, x, y, k);
      }
    } else {
      var o: nat :| o < |descs| && Usable(descs[o]) && TiesRegisters(descs[o])
                    && !SameRegisters(regs(descs[o].ops[0].regClass), regs(descs[o].ops[1].regClass));
      var x, y, k := Unlike(descs, regs, o);
      assert Redrawn(descs, regs, x, y, k);
    }
  }

  /** A draw that may occur: operand k of x, within its pool. */
  ghost predicate Redrawn(descs: seq<Desc>, regs: Registers, x: Instr, y: Instr, k: int) {
    && Drawn(descs, regs, x) && WellFormed(descs, y) && OperandChanged(descs, x, y, k)
    && FromPool(regs, descs[x.opcode].ops[k], y.operands[k])
  }

  lemma Unlike(descs: seq<Desc>, regs: Registers, o: nat) returns (x: Instr, y: Instr, k: int)
    requires TableOK(descs, regs) && o < |descs| && Usable(descs[o]) && TiesRegisters(descs[o])
    requires !SameRegisters(regs(descs[o].ops[0].regClass), regs(descs[o].ops[1].regClass))
    ensures Redrawn(descs, regs, x, y, k) && !Drawn(descs, regs, y)
  {
    var d := descs[o];
    var p, q := regs(d.ops[0].regClass), regs(d.ops[1].regClass);
    x := Instr(o, PoolOperands(d, regs, p[0], q[0]));
    PoolOperandsFit(descs, regs, o, p[0], q[0]);
    var r :| (r in p && r !in q) || (r in q && r !in p);
    k := if r in p then 0 else 1;
    y := x.(operands := x.operands[0 := Reg(r, false)][1 := Reg(r, false)]);
    FitAgain(descs, x, y.operands);
    assert !FromPool(regs, d.ops[1 - k], y.operands[1 - k]);
  }

  lemma PoolOperandsFit(descs: seq<Desc>, regs: Registers, o: nat, a: int, b: int)
    requires TableOK(descs, regs) && o < |descs| && Usable(descs[o]) && TiesRegisters(descs[o])
    requires a in regs(descs[o].ops[0].regClass) && b in regs(descs[o].ops[1].regClass)
    ensures Drawn(descs, regs, Instr(o, PoolOperands(descs[o], regs, a, b)))
    ensures var ops := PoolOperands(descs[o], regs, a, b); ops[0] == Reg(a, false) && ops[1] == Reg(b, false)
  {
    var d, ops := descs[o], PoolOperands(descs[o], regs, a, b);
    assert IMMEDIATES[0] == 0;
    forall j | 0 <= j < |ops| ensures FitsOperand(d.ops[j], ops[j]) && FromPool(regs, d.ops[j], ops[j]) {
      Known(d, j);
    }
  }

  lemma NextIs(s: seq<int>, i: int)
    requires 0 <= i < |s|
    ensures NextNode(s, i) == if i + 1 < |s| then s[i + 1] else END
    ensures i + 1 < |s| ==> s[i + 1] in s
    ensures Distinct(s) ==> NextNode(s, i) != s[i] || s[i] == END
  {
  }

  lemma NoEnd(nodes: seq<int>, text: map<int, Instr>, created: int)
    requires AllIn(nodes, text) && Ids(text, created)
    ensures END !in nodes
  {
  }

  lemma TwoApart(s: seq<int>)
    requires Distinct(s) && |s| >= 2
    ensures s[0] != s[1]
  {
  }

  /** Another place than the one it left. */
  lemma OtherSpot(s: seq<int>, i: int, loc: int)
    requires Distinct(s) && 0 <= i < |s| && END !in s && loc != s[i] && loc != NextNode(s, i)
      && (loc == END || loc in s)
    ensures Spot(Drop(s, i), loc) != i
  {
    var t := Drop(s, i);
    DropFacts(s, i);
    assert i + 1 < |s| ==> t[i] == s[i + 1];
    assert loc in t || Spot(t, loc) == |t|;
    if i + 1 == |s| {
      assert loc != END && loc in t;
    }
  }

  lemma ExchangeIs<T>(s: seq<T>, i: int, j: int)
    requires 0 <= i < |s| && 0 <= j < |s|
    ensures Exchange(s, i, j) == s[i := s[j]][j := s[i]]
    ensures i == j ==> Exchange(s, i, j) == s
  {
  }

  lemma ExchangeTwice<T>(s: seq<T>, i: int, j: int)
    requires 0 <= i < |s| && 0 <= j < |s|
    ensures |Exchange(s, i, j)| == |s| && Exchange(Exchange(s, i, j), j, i) == s
  {
  }

  lemma DistinctAt(s: seq<int>, i: int, j: int)
    requires Distinct(s) && 0 <= i < |s| && 0 <= j < |s| && s[i] != s[j]
    ensures i != j
  {
  }

  /** Two new instructions are not in the block. */
  lemma Unused(s: seq<int>, text: map<int, Instr>, created: int, aa: int, bb: int, i: int)
    requires AllIn(s, text) && Ids(text, created) && aa > created && bb > created && aa != bb && 0 <= i < |s|
    ensures aa !in s && bb !in s && aa !in s[i := bb]
  {
  }

  lemma AppendIs(s: seq<int>, x: int)
    ensures END !in s ==> Insert(s, END, x) == s + [x]
  {
  }

  /** Each clone says what the other's original said. */
  lemma Swapped(n0: seq<int>, t: map<int, Instr>, t': map<int, Instr>, i: int, j: int, aa: int, bb: int, c0: seq<Instr>)
    requires Distinct(n0) && 0 <= i < |n0| && 0 <= j < |n0| && i != j && AllIn(n0, t) && c0 == Texts(n0, t)
    requires aa in t && bb in t && t[aa] == t[n0[i]] && t[bb] == t[n0[j]] && aa !in n0 && bb !in n0 && aa != bb
    requires t' == t - {n0[i]} - {n0[j]}
    ensures var n2 := n0[i := bb][j := aa]; AllIn(n2, t') && Distinct(n2) && Texts(n2, t') == Exchange(c0, i, j)
    ensures var n2 := n0[i := bb][j := aa]; aa in n2 && bb in n2 && At(n2, aa) == j && At(n2, bb) == i
  {
    hide Texts, At;
    TextsAre(n0, t);
    var n2 := n0[i := bb][j := aa];
    PutFacts(n0, i, bb);
    PutFacts(n0[i := bb], j, aa);
    assert n2[i] == bb && n2[j] == aa;
    AtUnique(n2, i);
    AtUnique(n2, j);
    forall k | 0 <= k < |n2| ensures n2[k] in t' && t'[n2[k]] == Exchange(c0, i, j)[k] {
      TextsAre(n0, t);
      assert n0[k] in n0;
    }
    TextsAre(n2, t');
    assert |Texts(n2, t')| == |Exchange(c0, i, j)|;
  }

  /** The same operands, and an opcode of the same class. */
  predicate SameClass(leader: map<nat, nat>, x: Instr, y: Instr) {
    x.operands == y.operands && x.opcode in leader && y.opcode in leader && leader[x.opcode] == leader[y.opcode]
  }

  lemma SameClassIs(leader: map<nat, nat>, x: Instr, y: Instr)
    ensures SameClass(leader, x, y) <==>
      x.operands == y.operands && x.opcode in leader && y.opcode in leader && leader[x.opcode] == leader[y.opcode]
  {
  }

  lemma AllFitAt(descs: seq<Desc>, c: seq<Instr>, i: int)
    requires AllFit(descs, c) && 0 <= i < |c|
    ensures WellFormed(descs, c[i])
  {
  }

  lemma InText(nodes: seq<int>, text: map<int, Instr>, i: int)
    requires AllIn(nodes, text) && 0 <= i < |nodes|
    ensures nodes[i] in text
  {
  }

  lemma PutIs<T>(s: seq<T>, i: int, x: T)
    requires 0 <= i < |s|
    ensures Put(s, i, x) == s[i := x]
  {
  }

  lemma PutTwice(s: seq<Instr>, i: int, x: Instr, y: Instr)
    requires 0 <= i < |s| && y == s[i]
    ensures s[i := x][i := y] == s
  {
  }

  /** The place of an instruction in the block. */
  function At(s: seq<int>, x: int): (i: int)
    requires x in s
    ensures 0 <= i < |s| && s[i] == x
  {
    if s[0] == x then 0 else 1 + At(s[1..], x)
  }

  function Drop<T>(s: seq<T>, i: int): seq<T>
    requires 0 <= i < |s|
  {
    s[..i] + s[i + 1..]
  }

  function Put<T>(s: seq<T>, i: int, x: T): seq<T>
    requires 0 <= i < |s|
  {
    s[i := x]
  }

  function Exchange<T>(s: seq<T>, i: int, j: int): seq<T>
    requires 0 <= i < |s| && 0 <= j < |s|
  {
    s[i := s[j]][j := s[i]]
  }

  /** x before loc, or at the end. */
  function Insert(s: seq<int>, loc: int, x: int): seq<int> {
    if loc in s then s[..At(s, loc)] + [x] + s[At(s, loc)..] else s + [x]
  }

  // ---- the block as a sequence ----

  lemma {:induction false} AtUnique(s: seq<int>, i: int)
    requires Distinct(s) && 0 <= i < |s|
    ensures At(s, s[i]) == i
  {
    var k := At(s, s[i]);
    assert s[k] == s[i];
  }

  function Place<T>(s: seq<T>, k: int, x: T): seq<T>
    requires 0 <= k <= |s|
  {
    s[..k] + [x] + s[k..]
  }

  lemma PlaceIs<T>(s: seq<T>, k: int, x: T)
    requires 0 <= k <= |s|
    ensures |Place(s, k, x)| == |s| + 1 && Place(s, k, x)[k] == x && Drop(Place(s, k, x), k) == s
    ensures forall i :: 0 <= i < k ==> Place(s, k, x)[i] == s[i]
    ensures forall i :: k < i <= |s| ==> Place(s, k, x)[i] == s[i - 1]
  {
    assert Drop(Place(s, k, x), k) == s;
  }

  lemma PlaceDistinct(s: seq<int>, k: int, x: int)
    requires Distinct(s) && x !in s && 0 <= k <= |s|
    ensures Distinct(Place(s, k, x)) && At(Place(s, k, x), x) == k
  {
    hide Place, At;
    PlaceIs(s, k, x);
    var t := Place(s, k, x);
    forall i, j | 0 <= i < j < |t| ensures t[i] != t[j] {
      assert i != k ==> t[i] in s;
      assert j != k ==> t[j] in s;
    }
    AtUnique(t, k);
  }

  lemma PlaceMembers(s: seq<int>, k: int, x: int)
    requires 0 <= k <= |s|
    ensures x in Place(s, k, x) && forall y :: y in Place(s, k, x) <==> y in s || y == x
  {
    var t := Place(s, k, x);
    PlaceIs(s, k, x);
    assert t[k] in t;
    forall y | y in s ensures y in t {
      var i :| 0 <= i < |s| && s[i] == y;
      assert t[if i < k then i else i + 1] in t;
    }
  }

  function Spot(s: seq<int>, loc: int): (k: int)
    ensures 0 <= k <= |s|
  {
    if loc in s then At(s, loc) else |s|
  }

  lemma InsertIsPlace(s: seq<int>, loc: int, x: int)
    ensures Insert(s, loc, x) == Place(s, Spot(s, loc), x)
  {
    if loc !in s { assert s[..|s|] == s && s[|s|..] == []; }
  }

  lemma InsertFacts(s: seq<int>, loc: int, x: int)
    requires Distinct(s) && x !in s
    ensures Distinct(Insert(s, loc, x)) && x in Insert(s, loc, x) && |Insert(s, loc, x)| == |s| + 1
    ensures forall y :: y in Insert(s, loc, x) <==> y in s || y == x
    ensures Drop(Insert(s, loc, x), At(Insert(s, loc, x), x)) == s
  {
    hide *;
    var k := Spot(s, loc);
    InsertIsPlace(s, loc, x);
    PlaceIs(s, k, x);
    PlaceDistinct(s, k, x);
    PlaceMembers(s, k, x);
  }

  lemma DropFacts(s: seq<int>, i: int)
    requires Distinct(s) && 0 <= i < |s|
    ensures Distinct(Drop(s, i)) && s[i] !in Drop(s, i) && |Drop(s, i)| == |s| - 1
    ensures forall y :: y in Drop(s, i) <==> y in s && y != s[i]
  {
    var t := Drop(s, i);
    assert forall a :: 0 <= a < |t| ==> t[a] == if a < i then s[a] else s[a + 1];
    forall y | y in s && y != s[i] ensures y in t {
      var a :| 0 <= a < |s| && s[a] == y;
      assert t[if a < i then a else a - 1] == y;
    }
  }

  /** The instruction after the one at i, or the end of the block. */
  function NextNode(s: seq<int>, i: int): int
    requires 0 <= i < |s|
  {
    if i + 1 < |s| then s[i + 1] else END
  }

  /** Taken out and put before what followed it, an instruction is back where it was. */
  lemma InsertDrop(s: seq<int>, i: int)
    requires Distinct(s) && 0 <= i < |s| && END !in s
    ensures Insert(Drop(s, i), NextNode(s, i), s[i]) == s
  {
    var t := Drop(s, i);
    DropFacts(s, i);
    if i + 1 < |s| {
      assert t[i] == s[i + 1];
      AtUnique(t, i);
      assert Insert(t, s[i + 1], s[i]) == t[..i] + [s[i]] + t[i..];
    } else {
      assert t == s[..i];
    }
  }

  lemma PutFacts(s: seq<int>, k: int, n: int)
    requires Distinct(s) && 0 <= k < |s| && n !in s
    ensures s[k := n][k] == n && n in s[k := n]
    ensures Distinct(s[k := n]) && At(s[k := n], n) == k && s[k := n][k := s[k]] == s && s[k] !in s[k := n]
    ensures forall y :: y in s[k := n] <==> (y in s && y != s[k]) || y == n
  {
    hide At;
    var u := s[k := n];
    assert forall i :: 0 <= i < |s| && i != k ==> u[i] == s[i] && s[i] in s;
    assert Distinct(u);
    AtUnique(u, k);
    assert u[k] in u;
    forall y | y in s && y != s[k] ensures y in u {
      var i :| 0 <= i < |s| && s[i] == y;
      assert u[i] in u;
    }
  }

  /** replaceInst on the sequence. */
  lemma ReplaceFacts(s: seq<int>, o: int, n: int)
    requires Distinct(s) && o in s && n !in s
    ensures o in Insert(s, o, n) && Drop(Insert(s, o, n), At(Insert(s, o, n), o)) == s[At(s, o) := n]
  {
    hide *;
    var k := At(s, o);
    SpotIs(s, o);
    InsertIsPlace(s, o, n);
    PlaceIs(s, k, n);
    PlaceDistinct(s, k, n);
    PlaceMembers(s, k, n);
    AtUnique(Place(s, k, n), k + 1);
    DropAfterPlace(s, k, n);
  }

  lemma SpotIs(s: seq<int>, loc: int)
    ensures Spot(s, loc) == if loc in s then At(s, loc) else |s|
  {
  }

  lemma DropAfterPlace(s: seq<int>, k: int, n: int)
    requires 0 <= k < |s|
    ensures Drop(Place(s, k, n), k + 1) == s[k := n]
  {
    assert Place(s, k, n)[k + 2..] == s[k + 1..];
  }

  lemma TextsAre(nodes: seq<int>, text: map<int, Instr>)
    requires AllIn(nodes, text)
    ensures |Texts(nodes, text)| == |nodes| && forall i :: 0 <= i < |nodes| ==> Texts(nodes, text)[i] == text[nodes[i]]
  {
  }

  lemma TextsPut(nodes: seq<int>, text: map<int, Instr>, i: int, x: int)
    requires AllIn(nodes, text) && 0 <= i < |nodes| && x in text
    ensures AllIn(nodes[i := x], text) && Texts(nodes[i := x], text) == Put(Texts(nodes, text), i, text[x])
  {
    assert forall j :: 0 <= j < |nodes| ==> Texts(nodes[i := x], text)[j] == Put(Texts(nodes, text), i, text[x])[j];
  }

  lemma TextsSame(nodes: seq<int>, text: map<int, Instr>, text': map<int, Instr>)
    requires AllIn(nodes, text) && forall i :: 0 <= i < |nodes| ==>
                                               nodes[i] in text' && text'[nodes[i]] == text[nodes[i]]
    ensures AllIn(nodes, text') && Texts(nodes, text') == Texts(nodes, text)
  {
    assert forall j :: 0 <= j < |nodes| ==> Texts(nodes, text')[j] == Texts(nodes, text)[j];
  }

  lemma TextsDrop(nodes: seq<int>, text: map<int, Instr>, i: int)
    requires AllIn(nodes, text) && 0 <= i < |nodes|
    ensures AllIn(Drop(nodes, i), text) && Texts(Drop(nodes, i), text) == Drop(Texts(nodes, text), i)
  {
    assert forall j :: 0 <= j < |nodes| - 1 ==> Texts(Drop(nodes, i), text)[j] == Drop(Texts(nodes, text), i)[j];
  }
}

/** Which opcodes may stand for one another: the classes built one opcode at a time, and the instructions they admit. */
module OpcodeClasses {
  datatype OperandType = Unknown | Immediate | Register | MemoryRef | Pcrel | FirstTarget

  datatype OperandInfo = OperandInfo(ty: OperandType, regClass: int)

  /** What the instruction table says of an opcode. */
  datatype Desc = Desc(ops: seq<OperandInfo>, numDefs: nat, tied: bool, pseudo: bool, branch: bool, ret: bool,
                       call: bool,
                       variadic: bool, supported: bool)

  datatype Operand = Imm(value: int) | Reg(reg: int, isDef: bool)

  datatype Instr = Instr(opcode: nat, operands: seq<Operand>)

  /** isExchangeable, operand by operand. */
  method IsExchangeable(a: Desc, b: Desc) returns (yes: bool)
    ensures yes <==> Exchangeable(a, b)
  {
    if |a.ops| != |b.ops| {
      return false;
    }
    var i := 0;
    while i < |a.ops|
      invariant 0 <= i <= |a.ops| && forall j :: 0 <= j < i ==> SameOperand(a.ops[j], b.ops[j])
    {
      if a.ops[i].ty != b.ops[i].ty {
        return false;
      }
      if a.ops[i].ty.Register? && a.ops[i].regClass != b.ops[i].regClass {
        return false;
      }
      i := i + 1;
    }
    return true;
  }

  /** The same type, and for registers the same class. */
  predicate SameOperand(a: OperandInfo, b: OperandInfo) {
    a.ty == b.ty && (a.ty.Register? ==> a.regClass == b.regClass)
  }

  predicate Exchangeable(a: Desc, b: Desc) {
    |a.ops| == |b.ops| && forall j :: 0 <= j < |a.ops| ==> SameOperand(a.ops[j], b.ops[j])
  }

  predicate HasUnknown(d: Desc) {
    exists i :: 0 <= i < |d.ops| && (d.ops[i].ty.Unknown? || d.ops[i].ty.MemoryRef?)
  }

  /** The opcodes that are classed, and that random instructions are made of. */
  predicate Usable(d: Desc) {
    !HasUnknown(d) && !d.pseudo && !d.branch && !d.ret && !d.call && !d.variadic && d.supported
  }

  /** hasUnknown */
  method FindUnknown(d: Desc) returns (found: bool)
    ensures found <==> HasUnknown(d)
  {
    var i := 0;
    while i < |d.ops|
      invariant 0 <= i <= |d.ops| && forall j :: 0 <= j < i ==> !d.ops[j].ty.Unknown? && !d.ops[j].ty.MemoryRef?
    {
      if d.ops[i].ty.Unknown? || d.ops[i].ty.MemoryRef? {
        return true;
      }
      i := i + 1;
    }
    return false;
  }

  /** The leaders say exactly which usable opcodes below n are exchangeable, and each leader leads itself. */
  ghost predicate Classes(descs: seq<Desc>, n: nat, leader: map<nat, nat>)
    requires n <= |descs|
  {
    && (forall a: nat :: a in leader <==> a < n && Usable(descs[a]))
    && (forall a: nat :: a in leader ==> leader[a] in leader && leader[leader[a]] == leader[a])
    && (forall a: nat, b: nat :: a in leader && b in leader ==>
                                 (leader[a] == leader[b] <==> Exchangeable(descs[a], descs[b])))
  }

  lemma ExchangeableEquivalence(a: Desc, b: Desc, c: Desc)
    ensures Exchangeable(a, a)
    ensures Exchangeable(a, b) ==> Exchangeable(b, a)
    ensures Exchangeable(a, b) && Exchangeable(b, c) ==> Exchangeable(a, c)
  {
  }

  /** unionSets: the class of b joins that of a. */
  function Union(leader: map<nat, nat>, a: nat, b: nat): map<nat, nat>
    requires a in leader && b in leader
  {
    map x | x in leader :: if leader[x] == leader[b] then leader[a] else leader[x]
  }

  /** A new opcode in a class of its own, before any union. */
  lemma JoinClass(descs: seq<Desc>, i: nat, leader: map<nat, nat>, opc: nat)
    requires i < |descs| && Classes(descs, i, leader) && Usable(descs[i])
    requires (opc in leader && leader[opc] == opc && Exchangeable(descs[opc], descs[i])) || opc == i
    requires opc == i ==> forall a :: a in leader ==> !Exchangeable(descs[leader[a]], descs[i])
    ensures Classes(descs, i + 1, Union(leader[i := i], opc, i))
  {
    hide Exchangeable, Usable;
    var l2 := Union(leader[i := i], opc, i);
    UnionIs(leader, opc, i);
    forall a: nat | a in leader ensures Exchangeable(descs[a], descs[i]) <==> (opc != i && leader[a] == opc) {
      LeaderDecides(descs, i, leader, opc, a);
    }
    forall a: nat, b: nat | a in l2 && b in l2 ensures l2[a] == l2[b] <==> Exchangeable(descs[a], descs[b]) {
      ExchangeableEquivalence(descs[a], descs[b], descs[a]);
      ExchangeableEquivalence(descs[b], descs[a], descs[b]);
    }
  }

  lemma UnionIs(leader: map<nat, nat>, opc: nat, i: nat)
    requires i !in leader && (forall a: nat :: a in leader ==> leader[a] in leader)
      && (opc == i || (opc in leader && leader[opc] == opc))
    ensures forall x: nat :: x in Union(leader[i := i], opc, i) <==> x in leader || x == i
    ensures Union(leader[i := i], opc, i)[i] == opc
    ensures forall x: nat :: x in leader ==> Union(leader[i := i], opc, i)[x] == leader[x]
  {
  }

  /** What holds of the leader holds of the members. */
  lemma LeaderDecides(descs: seq<Desc>, i: nat, leader: map<nat, nat>, opc: nat, a: nat)
    requires i < |descs| && Classes(descs, i, leader) && a in leader
    requires (opc in leader && leader[opc] == opc && Exchangeable(descs[opc], descs[i])) || opc == i
    requires opc == i ==> !Exchangeable(descs[leader[a]], descs[i])
    ensures Exchangeable(descs[a], descs[i]) <==> (opc != i && leader[a] == opc)
  {
    hide Exchangeable, Usable;
    var l := leader[a];
    assert Exchangeable(descs[l], descs[a]);
    if opc == i {
      ExchangeableEquivalence(descs[l], descs[a], descs[i]);
    } else {
      ExchangeableEquivalence(descs[a], descs[opc], descs[i]);
      ExchangeableEquivalence(descs[opc], descs[i], descs[opc]);
      ExchangeableEquivalence(descs[a], descs[i], descs[opc]);
    }
  }

  /**
   * A new opcode joins the first class, in opcode order, whose leader it may be exchanged with; at the latest its own.
   */
  method JoinFirst(descs: seq<Desc>, i: nat, leader0: map<nat, nat>) returns (leader: map<nat, nat>)
    requires i < |descs| && Classes(descs, i, leader0) && Usable(descs[i])
    ensures Classes(descs, i + 1, leader)
  {
    hide Usable, Exchangeable;
    leader := leader0[i := i];
    var itr := 0;
    while true
      invariant 0 <= itr <= i && leader == leader0[i := i]
      invariant forall a: nat :: a in leader0 && a < itr ==> !Exchangeable(descs[leader0[a]], descs[i])
      decreases i - itr
    {
      if itr in leader {
        var opc := leader[itr];
        var yes := IsExchangeable(descs[opc], descs[i]);
        if yes {
          JoinClass(descs, i, leader0, opc);
          leader := Union(leader, opc, i);
          return;
        }
      }
      ExchangeableEquivalence(descs[i], descs[i], descs[i]);
      itr := itr + 1;
    }
  }

  /** buildOpcodeClasses: each opcode joins the first class, in opcode order, whose leader it may be exchanged with. */
  method BuildOpcodeClasses(descs: seq<Desc>) returns (leader: map<nat, nat>)
    ensures Classes(descs, |descs|, leader)
  {
    leader := map[];
    var i := 0;
    while i < |descs|
      invariant 0 <= i <= |descs| && Classes(descs, i, leader)
    {
      var d := descs[i];
      var unknown := FindUnknown(d);
      if !(unknown || d.pseudo || d.branch || d.ret || d.call || d.variadic || !d.supported) {
        leader := JoinFirst(descs, i, leader);
      } else {
        assert Classes(descs, i + 1, leader);
      }
      i := i + 1;
    }
  }

  // ---- instructions that fit their descriptor ----

  predicate FitsOperand(info: OperandInfo, op: Operand) {
    if info.ty.Register? then op.Reg? else (info.ty.Immediate? || info.ty.Pcrel? || info.ty.FirstTarget?) && op.Imm?
  }

  /** The opcode is classed, and the operands match its descriptor in number and kind. */
  predicate WellFormed(descs: seq<Desc>, x: Instr) {
    x.opcode < |descs| && Usable(descs[x.opcode]) && |x.operands| == |descs[x.opcode].ops|
    && forall j :: 0 <= j < |x.operands| ==> FitsOperand(descs[x.opcode].ops[j], x.operands[j])
  }

  /**
   * Any member of the class of a well-formed instruction's opcode, of which there is at least one, fits its operands.
   */
  lemma ClassmatesFit(descs: seq<Desc>, leader: map<nat, nat>, x: Instr, opcode: nat)
    requires Classes(descs, |descs|, leader) && WellFormed(descs, x)
    ensures x.opcode in leader
    ensures opcode in leader && leader[opcode] == leader[x.opcode] ==> WellFormed(descs, x.(opcode := opcode))
  {
    if opcode in leader && leader[opcode] == leader[x.opcode] {
      assert Exchangeable(descs[x.opcode], descs[opcode]);
      forall j | 0 <= j < |x.operands| ensures FitsOperand(descs[opcode].ops[j], x.operands[j]) {
        assert SameOperand(descs[x.opcode].ops[j], descs[opcode].ops[j]);
      }
    }
  }
}

/** The layout of the register buffer: output registers first, then all registers of their classes. */
module RegLayout {
  import opened Distances
  import Words

  /** A register class: its identity, the size and alignment of its registers, and its members. */
  datatype RegClass = RegClass(id: nat, size: nat, alignment: nat, members: seq<nat>)

  /** The largest legal class of each register. */
  type Target = nat -> RegClass

  /** A class is known by its identity, and no register is aligned to nothing. */
  ghost predicate TargetOK(tri: Target) {
    (forall a, b :: tri(a).id == tri(b).id ==> tri(a).size == tri(b).size) && forall a :: tri(a).alignment > 0
  }

  /** The least multiple of the alignment that is not below the address. */
  method Align(addr: nat, alignment: nat) returns (aligned: nat)
    requires alignment > 0
    ensures aligned % alignment == 0 && addr <= aligned < addr + alignment
    ensures forall x: nat :: x % alignment == 0 && x >= addr ==> aligned <= x
  {
    aligned := (addr + alignment - 1) / alignment * alignment;
    var q := (addr + alignment - 1) / alignment;
    MultipleMod(q, alignment);
    assert addr + alignment - 1 == alignment * q + (addr + alignment - 1) % alignment;
    forall x: nat | x % alignment == 0 && x >= addr ensures aligned <= x {
      var p := x / alignment;
      assert x == alignment * p;
      if p < q { MulStep(alignment, p, q); }
      MulMono(alignment, q, p);
    }
  }

  lemma MultipleMod(q: nat, d: nat)
    requires d > 0
    ensures q * d % d == 0 && q * d == d * q
  {
    Words.DivUnique(q * d, d, q, 0);
  }

  lemma MulStep(d: nat, p: nat, q: nat)
    requires p < q && d > 0
    ensures d * p + d <= d * q
  {
    assert d * q - d * p == d * (q - p);
    Words.MulAtLeast(d, q - p);
  }

  lemma MulMono(d: nat, q: nat, p: nat)
    ensures q <= p ==> d * q <= d * p
  {
    if q <= p { assert d * p - d * q == d * (p - q); assert d * (p - q) >= 0; }
  }

  predicate Ascending(s: seq<nat>) {
    forall i, j :: 0 <= i < j < |s| ==> s[i] < s[j]
  }

  /** Insertion into a sorted set. */
  method InsertSorted(s: seq<nat>, x: nat) returns (t: seq<nat>)
    requires Ascending(s)
    ensures Ascending(t) && forall y :: y in t <==> y in s || y == x
  {
    var k := 0;
    while k < |s| && s[k] < x
      invariant 0 <= k <= |s| && forall i :: 0 <= i < k ==> s[i] < x
    {
      k := k + 1;
    }
    if k < |s| && s[k] == x {
      return s;
    }
    t := s[..k] + [x] + s[k..];
    assert forall y :: y in s <==> y in s[..k] || y in s[k..] by {
      forall y | y in s ensures y in s[..k] || y in s[k..] {
        var i :| 0 <= i < |s| && s[i] == y;
        if i < k { assert s[..k][i] == y; } else { assert s[k..][i - k] == y; }
      }
    }
  }

  /** A register of the class of some output register, not itself an output. */
  ghost predicate Equivalent(tri: Target, outputs: seq<nat>, r: nat) {
    r !in outputs && exists o :: o in outputs && r in tri(o).members
  }

  /** The registers beyond the outputs, in ascending order. */
  method EquivalentRegs(tri: Target, outputs: seq<nat>) returns (rest: seq<nat>)
    ensures Ascending(rest) && forall r :: r in rest <==> Equivalent(tri, outputs, r)
  {
    rest := [];
    var i := 0;
    while i < |outputs|
      invariant 0 <= i <= |outputs| && Ascending(rest)
      invariant forall r :: r in rest <==> r !in outputs && exists k :: 0 <= k < i && r in tri(outputs[k]).members
    {
      var ms := tri(outputs[i]).members;
      var j := 0;
      while j < |ms|
        invariant 0 <= j <= |ms| && Ascending(rest)
        invariant forall r :: r in rest <==>
          r !in outputs && ((exists k :: 0 <= k < i && r in tri(outputs[k]).members) || r in ms[..j])
      {
        assert ms[..j + 1] == ms[..j] + [ms[j]];
        if ms[j] !in outputs {
          rest := InsertSorted(rest, ms[j]);
        }
        j := j + 1;
      }
      assert ms[..|ms|] == ms;
      i := i + 1;
    }
    forall r ensures r in rest <==> Equivalent(tri, outputs, r) {
      if Equivalent(tri, outputs, r) {
        var o :| o in outputs && r in tri(o).members;
        var k :| 0 <= k < |outputs| && outputs[k] == o;
      }
    }
  }

  /** Where slot i could begin at the earliest. */
  function Behind(info: seq<RegInfo>, i: nat): nat
    requires i <= |info|
  {
    if i == 0 then 0 else info[i - 1].offset + info[i - 1].size
  }

  ghost predicate SlotFor(rc: RegClass, info: seq<RegInfo>, i: nat)
    requires i < |info|
  {
    && info[i].size == rc.size && info[i].regclass == rc.id && rc.alignment > 0 && info[i].offset % rc.alignment == 0
    && Behind(info, i) <= info[i].offset < Behind(info, i) + rc.alignment
  }

  /**
   * Slots one behind the other, each at the first offset that is aligned for its register, in a buffer that ends with
   * the last.
   */
  ghost predicate LaidOut(tri: Target, regs: seq<nat>, info: seq<RegInfo>, total: nat) {
    && |info| == |regs|
    && (forall i :: 0 <= i < |regs| ==> SlotFor(tri(regs[i]), info, i))
    && (forall i, j :: 0 <= i < j < |info| ==> info[i].offset + info[i].size <= info[j].offset)
    && total == (if info == [] then 0 else info[|info| - 1].offset + info[|info| - 1].size)
  }

  /** calculateRegBufferLayout */
  method CalculateRegBufferLayout(tri: Target, outputs: seq<nat>)
      returns (regs: seq<nat>, info: seq<RegInfo>, total: nat)
    requires TargetOK(tri)
    ensures |outputs| <= |regs| && regs[..|outputs|] == outputs && Ascending(regs[|outputs|..])
    ensures forall r :: r in regs[|outputs|..] <==> Equivalent(tri, outputs, r)
    ensures LaidOut(tri, regs, info, total)
  {
    hide LaidOut, Equivalent;
    var rest := EquivalentRegs(tri, outputs);
    regs := outputs + rest;
    assert regs[|outputs|..] == rest;
    info := [];
    var curOffset: nat := 0;
    NothingLaidOut(tri);
    var i := 0;
    while i < |regs|
      invariant 0 <= i <= |regs| && LaidOut(tri, regs[..i], info, curOffset)
    {
      var rc := tri(regs[i]);
      var at := Align(curOffset, rc.alignment);
      ghost var before := info;
      info := info + [RegInfo(at, rc.size, rc.id)];
      LaidOneMore(tri, regs[..i], before, curOffset, regs[i], at);
      assert regs[..i + 1] == regs[..i] + [regs[i]];
      curOffset := at + rc.size;
      i := i + 1;
    }
    assert regs[..|regs|] == regs;
    total := curOffset;
  }

  lemma NothingLaidOut(tri: Target)
    ensures LaidOut(tri, [], [], 0)
  {
  }

  lemma LaidOneMore(tri: Target, regs: seq<nat>, info: seq<RegInfo>, total: nat, r: nat, at: nat)
    requires LaidOut(tri, regs, info, total) && tri(r).alignment > 0 && at % tri(r).alignment == 0
    requires total <= at < total + tri(r).alignment
    ensures LaidOut(tri, regs + [r], info + [RegInfo(at, tri(r).size, tri(r).id)], at + tri(r).size)
  {
    var regs', info' := regs + [r], info + [RegInfo(at, tri(r).size, tri(r).id)];
    forall i, j | 0 <= i < j < |info'| ensures info'[i].offset + info'[i].size <= info'[j].offset {
      if j == |info| && i < |info| - 1 { assert info[i].offset + info[i].size <= info[|info| - 1].offset; }
    }
    forall i | 0 <= i < |regs'| ensures SlotFor(tri(regs'[i]), info', i) {
      if i < |info| { assert SlotFor(tri(regs[i]), info, i); }
    }
  }

  /** The layout is what the distance code relies on: slots inside the buffer, in order, and one size for each class. */
  lemma LayoutServesDistances(tri: Target, regs: seq<nat>, info: seq<RegInfo>, total: nat)
    requires TargetOK(tri) && LaidOut(tri, regs, info, total)
    ensures LayoutFits(info, total) && InOrder(info)
  {
    forall i | 0 <= i < |info| ensures info[i].offset + info[i].size <= total {
      if i < |info| - 1 { assert info[i].offset + info[i].size <= info[|info| - 1].offset; }
    }
    forall i, j | 0 <= i < |info| && 0 <= j < |info| && info[i].regclass == info[j].regclass
      ensures info[i].size == info[j].size
    {
      assert SlotFor(tri(regs[i]), info, i) && SlotFor(tri(regs[j]), info, j);
      assert tri(regs[i]).id == tri(regs[j]).id;
    }
  }
}

/** The builders of adreno_a3xx_ringbuffer.c: each writes packets word by word into a buffer, from `at` on, and
    returns the next free position. `pre` is what the buffer held before the stream, `sofar` the stream so far. */
module A3xxBuild {
  import opened FstTypes
  import opened Pm4
  import opened A3xxGpu
  import opened A3xxStream

  /** Up to `at` the buffer holds `pre` and then the packets `ps`. */
  ghost predicate Built(a: array<Word>, at: nat, pre: seq<Word>, ps: seq<Packet>)
    reads a
  {
    at <= a.Length && a[..at] == pre + EncodeAll(ps)
  }

  ghost predicate SameFrom(a: array<Word>, was: seq<Word>, from: nat)
    reads a
  {
    |was| == a.Length && forall k | from <= k < a.Length :: a[k] == was[k]
  }

  /** `cmds[index++] = w` for each word. */
  method Put(a: array<Word>, at: nat, ws: seq<Word>) returns (next: nat)
    requires at + |ws| <= a.Length
    modifies a
    ensures next == at + |ws| && a[..next] == old(a[..at]) + ws && SameFrom(a, old(a[..]), next)
  {
    next := at;
    var k := 0;
    while k < |ws|
      invariant 0 <= k <= |ws| && next == at + k
      invariant a[..at] == old(a[..at]) && a[at..next] == ws[..k]
      invariant SameFrom(a, old(a[..]), next)
    {
      a[next] := ws[k];
      next := next + 1;
      k := k + 1;
    }
    assert ws[..k] == ws;
  }

  /** One packet, given as its header and operands. */
  method Emit(a: array<Word>, at: nat, ws: seq<Word>, ghost pre: seq<Word>, ghost sofar: seq<Packet>, ghost p: Packet)
    returns (next: nat)
    requires Built(a, at, pre, sofar) && ws == Encode(p) && at + |ws| <= a.Length
    modifies a
    ensures Built(a, next, pre, sofar + [p]) && next == at + |ws| && SameFrom(a, old(a[..]), next)
  {
    next := Put(a, at, ws);
    EncodeSnoc(sofar, p);
    Associative(pre, EncodeAll(sofar), ws);
  }

  /** memcpy of a stream that was built elsewhere. */
  method Copy(a: array<Word>, at: nat, ws: seq<Word>, ghost pre: seq<Word>, ghost sofar: seq<Packet>, ghost ps: seq<Packet>)
    returns (next: nat)
    requires Built(a, at, pre, sofar) && ws == EncodeAll(ps) && at + |ws| <= a.Length
    modifies a
    ensures Built(a, next, pre, sofar + ps) && next == at + |ws| && SameFrom(a, old(a[..]), next)
  {
    next := Put(a, at, ws);
    EncodeConcat(sofar, ps);
    Associative(pre, EncodeAll(sofar), ws);
  }

  /** a3xx_wait_reg */
  method EmitWaitReg(a: array<Word>, at: nat, reg: Word, val: Word, mask: Word, interval: Word,
                     ghost pre: seq<Word>, ghost sofar: seq<Packet>)
    returns (next: nat)
    requires Built(a, at, pre, sofar) && at + 5 <= a.Length
    modifies a
    ensures Built(a, next, pre, sofar + [WaitReg(reg, val, mask, interval)]) && next == at + 5
    ensures SameFrom(a, old(a[..]), next)
  {
    hide Built, EncodeAll;
    next := Emit(a, at, [Type3(CP_WAIT_REG_EQ, 4), reg, val, mask, interval], pre, sofar, WaitReg(reg, val, mask, interval));
  }

  /** a3xx_vbif_lock */
  method EmitVbifLock(a: array<Word>, at: nat, ghost pre: seq<Word>, ghost sofar: seq<Packet>) returns (next: nat)
    requires Built(a, at, pre, sofar) && at + 14 <= a.Length
    modifies a
    ensures Built(a, next, pre, sofar + VBIF_LOCK) && next == at + 14 && SameFrom(a, old(a[..]), next)
  {
    hide Built, EncodeAll;
    ghost var l := VBIF_LOCK;
    next := EmitWaitReg(a, at, A3XX_CP_WFI_PEND_CTR, 1, 0xFFFF_FFFF, 0xF, pre, sofar);
    next := Emit(a, next, [Type3(CP_REG_RMW, 3), HALT_CTRL0, 0xFFFF_FFFF - VBIF_RECOVERABLE_HALT_CTRL, 1],
                 pre, sofar + [l[0]], l[1]);
    next := EmitWaitReg(a, next, HALT_CTRL1, 1, 0xFFFF_FFFF, 0xF, pre, sofar + [l[0]] + [l[1]]);
    assert sofar + [l[0]] + [l[1]] + [l[2]] == sofar + l;
  }

  /** a3xx_vbif_unlock */
  method EmitVbifUnlock(a: array<Word>, at: nat, ghost pre: seq<Word>, ghost sofar: seq<Packet>) returns (next: nat)
    requires Built(a, at, pre, sofar) && at + 6 <= a.Length
    modifies a
    ensures Built(a, next, pre, sofar + VBIF_UNLOCK) && next == at + 6 && SameFrom(a, old(a[..]), next)
  {
    hide Built, EncodeAll;
    ghost var l := VBIF_UNLOCK;
    next := Emit(a, at, [Type3(CP_REG_RMW, 3), HALT_CTRL0, 0xFFFF_FFFF - VBIF_RECOVERABLE_HALT_CTRL, 0], pre, sofar, l[0]);
    next := Emit(a, next, [Type3(CP_WAIT_FOR_ME, 1), 0], pre, sofar + [l[0]], l[1]);
    assert sofar + [l[0]] + [l[1]] == sofar + l;
  }

  /** a3xx_tlbiall */
  method EmitTlbiall(a: array<Word>, at: nat, ghost pre: seq<Word>, ghost sofar: seq<Packet>) returns (next: nat)
    requires Built(a, at, pre, sofar) && at + 11 <= a.Length
    modifies a
    ensures Built(a, next, pre, sofar + TLBIALL) && next == at + 11 && SameFrom(a, old(a[..]), next)
  {
    hide Built, EncodeAll;
    ghost var l := TLBIALL;
    next := Emit(a, at, [Type3(CP_REG_WR_NO_CTXT, 1 + 1), SmmuReg(KGSL_IOMMU_CTX_TLBIALL), 1], pre, sofar, l[0]);
    next := Emit(a, next, [Type3(CP_REG_WR_NO_CTXT, 1 + 1), SmmuReg(KGSL_IOMMU_CTX_TLBSYNC), 0], pre, sofar + [l[0]], l[1]);
    next := EmitWaitReg(a, next, SmmuReg(KGSL_IOMMU_CTX_TLBSTATUS), 0, KGSL_IOMMU_CTX_TLBSTATUS_SACTIVE, 0xF,
                        pre, sofar + [l[0]] + [l[1]]);
    assert sofar + [l[0]] + [l[1]] + [l[2]] == sofar + l;
  }

  /** Stalls the prefetch of the command processor with an indirect buffer. */
  method EmitStall(a: array<Word>, at: nat, ghost pre: seq<Word>, ghost sofar: seq<Packet>, dev: Device) returns (next: nat)
    requires Built(a, at, pre, sofar) && at + 9 <= a.Length
    modifies a
    ensures Built(a, next, pre, sofar + StallPrefetch(dev)) && next == at + 9 && SameFrom(a, old(a[..]), next)
  {
    hide Built, EncodeAll;
    ghost var l := StallPrefetch(dev);
    next := Emit(a, at, [Type3(CP_WAIT_FOR_ME, 1), 0], pre, sofar, l[0]);
    next := Emit(a, next, [Type3(CP_INDIRECT_BUFFER_PFE, 2), Lower32(dev.setstate), 2], pre, sofar + [l[0]], l[1]);
    next := Emit(a, next, [Type3(CP_WAIT_FOR_IDLE, 1), 0], pre, sofar + [l[0]] + [l[1]], l[2]);
    next := Emit(a, next, [Type3(CP_WAIT_FOR_ME, 1), 0], pre, sofar + [l[0]] + [l[1]] + [l[2]], l[3]);
    assert sofar + [l[0]] + [l[1]] + [l[2]] + [l[3]] == sofar + l;
  }

  /** Waits for the switch to settle and invalidates the state. */
  method EmitSettle(a: array<Word>, at: nat, ghost pre: seq<Word>, ghost sofar: seq<Packet>) returns (next: nat)
    requires Built(a, at, pre, sofar) && at + 6 <= a.Length
    modifies a
    ensures Built(a, next, pre, sofar + SETTLE) && next == at + 6 && SameFrom(a, old(a[..]), next)
  {
    hide Built, EncodeAll;
    ghost var l := SETTLE;
    next := Emit(a, at, [Type3(CP_WAIT_FOR_ME, 1), 0], pre, sofar, l[0]);
    next := Emit(a, next, [Type3(CP_WAIT_FOR_IDLE, 1), 0], pre, sofar + [l[0]], l[1]);
    next := Emit(a, next, [Type3(CP_INVALIDATE_STATE, 1), ALL_STATE], pre, sofar + [l[0]] + [l[1]], l[2]);
    assert sofar + [l[0]] + [l[1]] + [l[2]] == sofar + l;
  }

  /** a3xx_cp_smmu_reg for the two halves of TTBR0 */
  method EmitTtbr0(a: array<Word>, at: nat, ghost pre: seq<Word>, ghost sofar: seq<Packet>, ttbr0: nat) returns (next: nat)
    requires Built(a, at, pre, sofar) && at + 4 <= a.Length
    modifies a
    ensures Built(a, next, pre, sofar + [WriteTtbr0(ttbr0)]) && next == at + 4 && SameFrom(a, old(a[..]), next)
  {
    hide Built, EncodeAll;
    next := Emit(a, at, [Type3(CP_REG_WR_NO_CTXT, 2 + 1), SmmuReg(KGSL_IOMMU_CTX_TTBR0), Lower32(ttbr0), Upper32(ttbr0)],
                 pre, sofar, WriteTtbr0(ttbr0));
  }

  /** a3xx_rb_pagetable_switch */
  method EmitPagetableSwitch(a: array<Word>, at: nat, ghost pre: seq<Word>, ghost sofar: seq<Packet>, dev: Device, ttbr0: nat) returns (next: nat)
    requires Built(a, at, pre, sofar) && at + 50 <= a.Length
    modifies a
    ensures Built(a, next, pre, sofar + PagetableSwitch(dev, ttbr0)) && next == at + 50 && SameFrom(a, old(a[..]), next)
  {
    hide Built, EncodeAll;
    hide StallPrefetch, WriteTtbr0;
    ghost var s, w := StallPrefetch(dev), WriteTtbr0(ttbr0);
    next := EmitStall(a, at, pre, sofar, dev);
    next := EmitVbifLock(a, next, pre, sofar + s);
    next := EmitTtbr0(a, next, pre, sofar + s + VBIF_LOCK, ttbr0);
    next := EmitVbifUnlock(a, next, pre, sofar + s + VBIF_LOCK + [w]);
    next := EmitTlbiall(a, next, pre, sofar + s + VBIF_LOCK + [w] + VBIF_UNLOCK);
    next := EmitSettle(a, next, pre, sofar + s + VBIF_LOCK + [w] + VBIF_UNLOCK + TLBIALL);
    assert sofar + s + VBIF_LOCK + [w] + VBIF_UNLOCK + TLBIALL + SETTLE == sofar + PagetableSwitch(dev, ttbr0);
  }

  /** The second part of a3xx_rb_context_switch: stores the context id twice and invalidates the UCHE. */
  method EmitNameContext(a: array<Word>, at: nat, ghost pre: seq<Word>, ghost sofar: seq<Packet>, dev: Device, id: Word) returns (next: nat)
    requires Built(a, at, pre, sofar) && at + 11 <= a.Length
    modifies a
    ensures Built(a, next, pre, sofar + NameContext(dev, id)) && next == at + 11 && SameFrom(a, old(a[..]), next)
  {
    hide Built, EncodeAll;
    ghost var l := NameContext(dev, id);
    next := Emit(a, at, [Type3(CP_NOP, 1), CONTEXT_TO_MEM_IDENTIFIER], pre, sofar, l[0]);
    next := Emit(a, next, [Type3(CP_MEM_WRITE, 2), dev.RbAddr(CURRENT_CONTEXT), id], pre, sofar + [l[0]], l[1]);
    next := Emit(a, next, [Type3(CP_MEM_WRITE, 2), dev.IdAddr(KGSL_MEMSTORE_GLOBAL, CURRENT_CONTEXT), id],
                 pre, sofar + [l[0]] + [l[1]], l[2]);
    next := Emit(a, next, [Type0(A3XX_UCHE_CACHE_INVALIDATE0_REG, 2), 0, 0x9000_0000],
                 pre, sofar + [l[0]] + [l[1]] + [l[2]], l[3]);
    assert sofar + [l[0]] + [l[1]] + [l[2]] + [l[3]] == sofar + l;
  }

  /** The stream of a3xx_rb_context_switch, in a buffer of its own. */
  method BuildSwitch(dev: Device, active: Option<Context>, next: Context) returns (cmds: array<Word>, count: nat)
    ensures fresh(cmds) && count <= cmds.Length && cmds[..count] == EncodeAll(SwitchCommands(dev, active, next))
  {
    hide PagetableSwitch, NameContext;
    cmds := new Word[64];
    count := 0;
    ghost var sofar: seq<Packet> := [];
    assert cmds[..0] == [] + EncodeAll([]);
    if active.None? || active.value.pagetable != next.pagetable {
      count := EmitPagetableSwitch(cmds, count, [], sofar, dev, next.pagetable.ttbr0);
      sofar := [] + PagetableSwitch(dev, next.pagetable.ttbr0);
    }
    count := EmitNameContext(cmds, count, [], sofar, dev, next.id);
    assert sofar + NameContext(dev, next.id) == SwitchCommands(dev, active, next);
    assert [] + EncodeAll(SwitchCommands(dev, active, next)) == EncodeAll(SwitchCommands(dev, active, next));
  }

  /** The stream of a3xx_ringbuffer_submitcmd, in a buffer of 4 + 4n words. */
  method BuildIbs(ibs: seq<IbEntry>, flags: Flags) returns (cmds: array<Word>, index: nat)
    ensures fresh(cmds) && index <= cmds.Length && cmds[..index] == EncodeAll(IbCommands(ibs, flags))
  {
    hide IbPacket;
    var list := if flags.skip then [] else ibs;
    cmds := new Word[4 + 4 * |list|];
    ghost var start: Packet, end: Packet := Pkt3(CP_NOP, [START_IB_IDENTIFIER]), Pkt3(CP_NOP, [END_IB_IDENTIFIER]);
    assert cmds[..0] == [] + EncodeAll([]);
    index := Emit(cmds, 0, [Type3(CP_NOP, 1), START_IB_IDENTIFIER], [], [], start);
    ghost var sofar: seq<Packet> := [start];
    assert [] + [start] == sofar;
    var k := 0;
    while k < |list|
      invariant 0 <= k <= |list| && index <= 2 + 4 * k
      invariant Built(cmds, index, [], sofar) && sofar == [start] + IbPackets(list[..k], flags)
    {
      index := EmitIb(cmds, index, [], sofar, list[k], flags);
      sofar := sofar + [IbPacket(list[k], flags)];
      IbPacketsSnoc(list, k, flags);
      k := k + 1;
    }
    assert list[..k] == list;
    index := Emit(cmds, index, [Type3(CP_NOP, 1), END_IB_IDENTIFIER], [], sofar, end);
    assert [] + EncodeAll(IbCommands(ibs, flags)) == EncodeAll(IbCommands(ibs, flags));
  }

  lemma {:induction false} IbPacketsSnoc(ibs: seq<IbEntry>, k: nat, flags: Flags)
    requires k < |ibs|
    ensures IbPackets(ibs[..k + 1], flags) == IbPackets(ibs[..k], flags) + [IbPacket(ibs[k], flags)]
    decreases k
  {
    hide IbPacket;
    if k > 0 {
      IbPacketsSnoc(ibs[1..], k - 1, flags);
      assert ibs[..k + 1][1..] == ibs[1..][..k] && ibs[..k][1..] == ibs[1..][..k - 1];
    } else {
      assert ibs[..1] == [ibs[0]] && ibs[..0] == [];
    }
  }

  /** One indirect buffer; the header of a NOP in front of it hides it. */
  method EmitIb(a: array<Word>, at: nat, ghost pre: seq<Word>, ghost sofar: seq<Packet>, ib: IbEntry, flags: Flags)
    returns (next: nat)
    requires Built(a, at, pre, sofar) && at + 4 <= a.Length
    modifies a
    ensures Built(a, next, pre, sofar + [IbPacket(ib, flags)]) && at <= next <= at + 4
    ensures SameFrom(a, old(a[..]), next)
  {
    hide Built, EncodeAll;
    var hidden := if Suppressed(ib, flags) then [Type3(CP_NOP, 3)] else [];
    var run: seq<Word> := [Type3(CP_INDIRECT_BUFFER_PFE, 2), Lower32(ib.gpuaddr), Lower32(ib.size / 4)];
    assert hidden + run == Encode(IbPacket(ib, flags));
    next := Emit(a, at, hidden + run, pre, sofar, IbPacket(ib, flags));
  }

  // ---------------------------------------------------------------- the parts of a3xx_ringbuffer_addcmds

  method EmitFixup(a: array<Word>, at: nat, ghost pre: seq<Word>, ghost sofar: seq<Packet>, dev: Device, flags: Flags)
    returns (next: nat)
    requires Built(a, at, pre, sofar) && at + 9 <= a.Length
    modifies a
    ensures Built(a, next, pre, sofar + FixupPackets(dev, flags)) && at <= next <= at + 9
    ensures SameFrom(a, old(a[..]), next)
  {
    hide Built, EncodeAll;
    next := at;
    ghost var l := FixupPackets(dev, flags);
    if flags.fixup {
      next := Emit(a, next, [Type3(CP_SET_PROTECTED_MODE, 1), 0], pre, sofar, l[0]);
      next := Emit(a, next, [Type3(CP_NOP, 1), PWRON_FIXUP_IDENTIFIER], pre, sofar + [l[0]], l[1]);
      next := Emit(a, next, [Type3(CP_INDIRECT_BUFFER_PFE, 2), Lower32(dev.fixupAddr), dev.fixupDwords],
                   pre, sofar + [l[0]] + [l[1]], l[2]);
      next := Emit(a, next, [Type3(CP_SET_PROTECTED_MODE, 1), 0], pre, sofar + [l[0]] + [l[1]] + [l[2]], l[3]);
      assert sofar + [l[0]] + [l[1]] + [l[2]] + [l[3]] == sofar + l;
    } else {
      assert sofar + l == sofar;
      Untouched(a);
    }
  }

  lemma {:induction false} Untouched(a: array<Word>)
    ensures forall k: nat :: SameFrom(a, a[..], k)
  {
  }

  method EmitProfile(a: array<Word>, at: nat, ghost pre: seq<Word>, ghost sofar: seq<Packet>, ib: Option<ProfileIb>)
    returns (next: nat)
    requires Built(a, at, pre, sofar) && at + 3 <= a.Length
    modifies a
    ensures Built(a, next, pre, sofar + ProfilePackets(ib)) && at <= next <= at + 3
    ensures SameFrom(a, old(a[..]), next)
  {
    hide Built, EncodeAll;
    next := at;
    if ib.Some? {
      next := Emit(a, next, [Type3(CP_INDIRECT_BUFFER_PFE, 2), Lower32(ib.value.addr), ib.value.dwords],
                   pre, sofar, Ib(ib.value.addr, ib.value.dwords));
    } else {
      assert sofar + ProfilePackets(ib) == sofar;
      Untouched(a);
    }
  }

  method EmitSop(a: array<Word>, at: nat, ghost pre: seq<Word>, ghost sofar: seq<Packet>, dev: Device, call: Call, ts: Word)
    returns (next: nat)
    requires Built(a, at, pre, sofar) && at + 6 <= a.Length
    modifies a
    ensures Built(a, next, pre, sofar + SopPackets(dev, call, ts)) && at <= next <= at + 6
    ensures SameFrom(a, old(a[..]), next)
  {
    hide Built, EncodeAll;
    next := at;
    ghost var l, done := SopPackets(dev, call, ts), sofar;
    if call.ctx.Some? {
      next := Emit(a, next, [Type3(CP_MEM_WRITE, 2), dev.IdAddr(call.ctx.value.id, SOPTIMESTAMP), call.timestamp],
                   pre, sofar, l[0]);
      done := sofar + [l[0]];
    }
    next := Emit(a, next, [Type3(CP_MEM_WRITE, 2), dev.RbAddr(SOPTIMESTAMP), ts], pre, done, l[|l| - 1]);
    assert done + [l[|l| - 1]] == sofar + l;
  }

  method EmitProtect(a: array<Word>, at: nat, ghost pre: seq<Word>, ghost sofar: seq<Packet>, flags: Flags, on: Word)
    returns (next: nat)
    requires Built(a, at, pre, sofar) && at + 2 <= a.Length
    modifies a
    ensures Built(a, next, pre, sofar + ProtectPackets(flags, on)) && at <= next <= at + 2
    ensures SameFrom(a, old(a[..]), next)
  {
    hide Built, EncodeAll;
    next := at;
    if flags.notProtected {
      next := Emit(a, next, [Type3(CP_SET_PROTECTED_MODE, 1), on], pre, sofar, Protect(on));
    } else {
      assert sofar + ProtectPackets(flags, on) == sofar;
      Untouched(a);
    }
  }

  /** What precedes the caller's commands. */
  method EmitPrologue(a: array<Word>, at: nat, ghost pre: seq<Word>, dev: Device, call: Call, ts: Word)
    returns (next: nat)
    requires Built(a, at, pre, []) && at + 22 <= a.Length
    modifies a
    ensures Built(a, next, pre, Prologue(dev, call, ts)) && at <= next <= at + 22
    ensures SameFrom(a, old(a[..]), next)
  {
    hide Built, EncodeAll, FixupPackets, ProfilePackets, SopPackets, ProtectPackets;
    var id := if call.ctx.Some? then CMD_IDENTIFIER else CMD_INTERNAL_IDENTIFIER;
    ghost var b, c, d, e :=
      FixupPackets(dev, call.flags), ProfilePackets(call.pre), SopPackets(dev, call, ts), ProtectPackets(call.flags, 0);
    next := Emit(a, at, [Type3(CP_NOP, 1), id], pre, [], Pkt3(CP_NOP, [id]));
    ghost var h: seq<Packet> := [Pkt3(CP_NOP, [id])];
    assert [] + h == h;
    next := EmitFixup(a, next, pre, h, dev, call.flags);
    next := EmitProfile(a, next, pre, h + b, call.pre);
    next := EmitSop(a, next, pre, h + b + c, dev, call, ts);
    next := EmitProtect(a, next, pre, h + b + c + d, call.flags, 0);
    assert h + b + c + d + e == Prologue(dev, call, ts);
  }

  method EmitFlush(a: array<Word>, at: nat, ghost pre: seq<Word>, ghost sofar: seq<Packet>) returns (next: nat)
    requires Built(a, at, pre, sofar) && at + 4 <= a.Length
    modifies a
    ensures Built(a, next, pre, sofar + FLUSH) && next == at + 4 && SameFrom(a, old(a[..]), next)
  {
    hide Built, EncodeAll;
    next := Emit(a, at, [Type3(CP_EVENT_WRITE, 1), HLSQ_FLUSH], pre, sofar, FLUSH[0]);
    next := Emit(a, next, [Type3(CP_WAIT_FOR_IDLE, 1), 0], pre, sofar + [FLUSH[0]], FLUSH[1]);
    assert sofar + [FLUSH[0]] + [FLUSH[1]] == sofar + FLUSH;
  }

  method EmitEop(a: array<Word>, at: nat, ghost pre: seq<Word>, ghost sofar: seq<Packet>, dev: Device, call: Call, ts: Word)
    returns (next: nat)
    requires Built(a, at, pre, sofar) && at + 8 <= a.Length
    modifies a
    ensures Built(a, next, pre, sofar + EopPackets(dev, call, ts)) && at <= next <= at + 8
    ensures SameFrom(a, old(a[..]), next)
  {
    hide Built, EncodeAll;
    ghost var l := EopPackets(dev, call, ts);
    if call.ctx.None? {
      next := Emit(a, at, [Type3(CP_EVENT_WRITE, 3), CACHE_FLUSH_TS + EVENT_INTERRUPT, dev.RbAddr(EOPTIMESTAMP), ts],
                   pre, sofar, l[0]);
      assert sofar + [l[0]] == sofar + l;
    } else {
      next := Emit(a, at, [Type3(CP_EVENT_WRITE, 3), CACHE_FLUSH_TS + EVENT_INTERRUPT,
                           dev.IdAddr(call.ctx.value.id, EOPTIMESTAMP), call.timestamp], pre, sofar, l[0]);
      next := Emit(a, next, [Type3(CP_EVENT_WRITE, 3), CACHE_FLUSH_TS, dev.RbAddr(EOPTIMESTAMP), ts],
                   pre, sofar + [l[0]], l[1]);
      assert sofar + [l[0]] + [l[1]] == sofar + l;
    }
  }

  method EmitRollover(a: array<Word>, at: nat, ghost pre: seq<Word>, ghost sofar: seq<Packet>, flags: Flags)
    returns (next: nat)
    requires Built(a, at, pre, sofar) && at + 5 <= a.Length
    modifies a
    ensures Built(a, next, pre, sofar + Rollover(flags)) && at <= next <= at + 5
    ensures SameFrom(a, old(a[..]), next)
  {
    hide Built, EncodeAll;
    ghost var l := Rollover(flags);
    next := Emit(a, at, [Type3(CP_SET_CONSTANT, 2), ROLLOVER, 0],
                 pre, sofar, l[0]);
    if flags.wfi {
      next := Emit(a, next, [Type3(CP_WAIT_FOR_IDLE, 1), 0], pre, sofar + [l[0]], l[1]);
      assert sofar + [l[0]] + [l[1]] == sofar + l;
    } else {
      assert sofar + [l[0]] == sofar + l;
    }
  }

  /** What follows the caller's commands. */
  method EmitEpilogue(a: array<Word>, at: nat, ghost pre: seq<Word>, ghost sofar: seq<Packet>, dev: Device, call: Call, ts: Word)
    returns (next: nat)
    requires Built(a, at, pre, sofar) && at + 22 <= a.Length
    modifies a
    ensures Built(a, next, pre, sofar + Epilogue(dev, call, ts)) && at <= next <= at + 22
    ensures SameFrom(a, old(a[..]), next)
  {
    hide Built, EncodeAll, ProfilePackets, EopPackets, ProtectPackets, Rollover;
    ghost var b, c, d, e :=
      ProtectPackets(call.flags, 1), ProfilePackets(call.post), EopPackets(dev, call, ts), Rollover(call.flags);
    next := EmitProtect(a, at, pre, sofar, call.flags, 1);
    next := EmitFlush(a, next, pre, sofar + b);
    next := EmitProfile(a, next, pre, sofar + b + FLUSH, call.post);
    next := EmitEop(a, next, pre, sofar + b + FLUSH + c, dev, call, ts);
    next := EmitRollover(a, next, pre, sofar + b + FLUSH + c + d, call.flags);
    assert sofar + b + FLUSH + c + d + e == sofar + Epilogue(dev, call, ts);
  }
}

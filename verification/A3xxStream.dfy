/** The packets adreno_a3xx_ringbuffer.c emits, and what they mean to the GPU. The methods of module A3xxRing are
    proved to write exactly these packets. */
module A3xxStream {
  import opened FstTypes
  import opened Pm4
  import opened A3xxGpu

  const CONTEXT_TO_MEM_IDENTIFIER := 0x2EADBEEF
  const CMD_IDENTIFIER := 0x2EEDFACE
  const CMD_INTERNAL_IDENTIFIER := 0x2EEDD00D
  const START_IB_IDENTIFIER := 0x2EADEABE
  const END_IB_IDENTIFIER := 0x2ABEDEAD
  const PWRON_FIXUP_IDENTIFIER := 0x2AFAFAFA

  // struct kgsl_devmemstore: its size, the offsets of the fields written, and the number of entries for contexts
  const MEMSTORE_STRIDE := 40
  const SOPTIMESTAMP := 0
  const EOPTIMESTAMP := 8
  const CURRENT_CONTEXT := 32
  const KGSL_MEMSTORE_GLOBAL := 0
  const KGSL_MEMSTORE_MAX := 813        // 8 pages / 40 - 2 - 4

  /** A page table object; different objects may hold the same table address. */
  datatype PageTable = PageTable(name: nat, ttbr0: nat) {
    predicate Valid() { ttbr0 < 0x1_0000_0000_0000_0000 }
  }

  datatype Context = Context(id: Word, pagetable: PageTable) {
    predicate Valid() { 0 < id < KGSL_MEMSTORE_MAX && pagetable.Valid() }
  }

  /** What a ring needs to know of its device: where the shared memory lives, the setstate buffer and the
      power-on fixup. */
  datatype Device = Device(memstore: nat, rbId: nat, setstate: nat, fixupAddr: nat, fixupDwords: Word) {
    predicate Valid() {
      rbId < 4 && memstore + (KGSL_MEMSTORE_MAX + 6) * MEMSTORE_STRIDE <= 0x1_0000_0000
    }

    /** MEMSTORE_ID_GPU_ADDR, as its lower half. */
    function IdAddr(id: nat, field: nat): Word {
      Lower32(memstore + id * MEMSTORE_STRIDE + field)
    }

    /** MEMSTORE_RB_GPU_ADDR */
    function RbAddr(field: nat): Word {
      IdAddr(rbId + KGSL_MEMSTORE_MAX, field)
    }

    /** The word that tells the ring's current context. */
    function Cur(): Word {
      RbAddr(CURRENT_CONTEXT)
    }
  }

  /** Fields of different entries, and different fields of one, do not overlap. */
  lemma {:induction false} FieldsApart(dev: Device, id: nat, f: nat, id': nat, f': nat)
    requires dev.Valid() && id < KGSL_MEMSTORE_MAX + 5 && id' < KGSL_MEMSTORE_MAX + 5
    requires f < MEMSTORE_STRIDE && f' < MEMSTORE_STRIDE
    ensures dev.IdAddr(id, f) == dev.IdAddr(id', f') <==> id == id' && f == f'
  {
    assert dev.IdAddr(id, f) == dev.memstore + id * MEMSTORE_STRIDE + f;
    assert dev.IdAddr(id', f') == dev.memstore + id' * MEMSTORE_STRIDE + f';
  }

  // ---------------------------------------------------------------- the page-table switch

  function Ib(addr: nat, dwords: Word): Packet {
    Pkt3(CP_INDIRECT_BUFFER_PFE, [Lower32(addr), dwords])
  }

  function WaitReg(reg: Word, val: Word, mask: Word, interval: Word): Packet {
    Pkt3(CP_WAIT_REG_EQ, [reg, val, mask, interval])
  }

  /** a3xx_vbif_lock */
  const VBIF_LOCK: seq<Packet> := [
    WaitReg(A3XX_CP_WFI_PEND_CTR, 1, 0xFFFF_FFFF, POLL_INTERVAL),
    Pkt3(CP_REG_RMW, [HALT_CTRL0, 0xFFFF_FFFF - VBIF_RECOVERABLE_HALT_CTRL, 1]),
    WaitReg(HALT_CTRL1, 1, 0xFFFF_FFFF, POLL_INTERVAL)]

  /** a3xx_vbif_unlock */
  const VBIF_UNLOCK: seq<Packet> := [
    Pkt3(CP_REG_RMW, [HALT_CTRL0, 0xFFFF_FFFF - VBIF_RECOVERABLE_HALT_CTRL, 0]),
    Pkt3(CP_WAIT_FOR_ME, [0])]

  /** a3xx_tlbiall */
  const TLBIALL: seq<Packet> := [
    Pkt3(CP_REG_WR_NO_CTXT, [SmmuReg(KGSL_IOMMU_CTX_TLBIALL), 1]),
    Pkt3(CP_REG_WR_NO_CTXT, [SmmuReg(KGSL_IOMMU_CTX_TLBSYNC), 0]),
    WaitReg(SmmuReg(KGSL_IOMMU_CTX_TLBSTATUS), 0, KGSL_IOMMU_CTX_TLBSTATUS_SACTIVE, POLL_INTERVAL)]

  function StallPrefetch(dev: Device): seq<Packet> {
    [Pkt3(CP_WAIT_FOR_ME, [0]), Ib(dev.setstate, 2), Pkt3(CP_WAIT_FOR_IDLE, [0]), Pkt3(CP_WAIT_FOR_ME, [0])]
  }

  function WriteTtbr0(ttbr0: nat): Packet {
    Pkt3(CP_REG_WR_NO_CTXT, [SmmuReg(KGSL_IOMMU_CTX_TTBR0), Lower32(ttbr0), Upper32(ttbr0)])
  }

  const SETTLE: seq<Packet> := [
    Pkt3(CP_WAIT_FOR_ME, [0]), Pkt3(CP_WAIT_FOR_IDLE, [0]), Pkt3(CP_INVALIDATE_STATE, [ALL_STATE])]

  /** a3xx_rb_pagetable_switch */
  function PagetableSwitch(dev: Device, ttbr0: nat): seq<Packet> {
    StallPrefetch(dev) + VBIF_LOCK + [WriteTtbr0(ttbr0)] + VBIF_UNLOCK + TLBIALL + SETTLE
  }

  lemma {:induction false} LockHalts(g: Gpu, cur: Word)
    requires g.bus == Running
    ensures Exec(g, VBIF_LOCK, cur) == Some(g.(bus := Halted))
  {
    var g2 := g.(bus := Requested);
    assert Do(g, VBIF_LOCK[0], cur) == Some(g);
    assert Do(g, VBIF_LOCK[1], cur) == Some(g2);
    assert Do(g2, VBIF_LOCK[2], cur) == Some(g.(bus := Halted));
    Exec3(g, g, g2, VBIF_LOCK, cur);
  }

  lemma {:induction false} Exec3(g: Gpu, g1: Gpu, g2: Gpu, ps: seq<Packet>, cur: Word)
    requires |ps| == 3 && Do(g, ps[0], cur) == Some(g1) && Do(g1, ps[1], cur) == Some(g2)
    ensures Exec(g, ps, cur) == Do(g2, ps[2], cur)
  {
    hide Do;
    ExecConcat(g, ps[..2], ps[2..], cur);
    ExecConcat(g, ps[..1], ps[1..2], cur);
    assert ps[..2] + ps[2..] == ps && ps[..1] + ps[1..2] == ps[..2];
    assert ps[..1] == [ps[0]] && ps[1..2] == [ps[1]] && ps[2..] == [ps[2]];
    ExecOne(g, ps[0], cur);
    ExecOne(g1, ps[1], cur);
    ExecOne(g2, ps[2], cur);
  }

  lemma {:induction false} UnlockReleases(g: Gpu, cur: Word)
    ensures Exec(g, VBIF_UNLOCK, cur) == Some(g.(bus := Running))
  {
    ExecConcat(g, [VBIF_UNLOCK[0]], [VBIF_UNLOCK[1]], cur);
    ExecOne(g, VBIF_UNLOCK[0], cur);
    ExecOne(g.(bus := Running), VBIF_UNLOCK[1], cur);
    assert VBIF_UNLOCK == [VBIF_UNLOCK[0]] + [VBIF_UNLOCK[1]];
  }

  lemma {:induction false} TlbiallCleans(g: Gpu, cur: Word)
    ensures Exec(g, TLBIALL, cur) == Some(g.(tlb := Clean))
  {
    var g1, g2 := g.(tlb := Issued), g.(tlb := Synced);
    assert Do(g, TLBIALL[0], cur) == Some(g1);
    assert Do(g1, TLBIALL[1], cur) == Some(g2);
    assert Do(g2, TLBIALL[2], cur) == Some(g.(tlb := Clean));
    Exec3(g, g1, g2, TLBIALL, cur);
  }

  /** `g` ran an indirect buffer. */
  function RanIb(g: Gpu, addr: nat, dwords: Word, cur: Word): Gpu {
    g.(pipe := BUSY, seen := g.seen + [Ran(Lower32(addr), dwords, g.ttbr0, g.Read(cur), g.Ready(), g.isProtected)])
  }

  lemma {:induction false} ExecIb(g: Gpu, addr: nat, dwords: Word, cur: Word)
    ensures Exec(g, [Ib(addr, dwords)], cur) == Some(RanIb(g, addr, dwords, cur))
  {
    ExecOne(g, Ib(addr, dwords), cur);
  }

  lemma {:induction false} StallRuns(dev: Device, g: Gpu, cur: Word)
    ensures Exec(g, StallPrefetch(dev), cur) == Some(RanIb(g, dev.setstate, 2, cur).(pipe := BUSY.(idle := true)))
  {
    var ps := StallPrefetch(dev);
    var g1 := RanIb(g, dev.setstate, 2, cur);
    ExecConcat(g, ps[..1], ps[1..], cur);
    assert ps[..1] == [ps[0]] && ps[..1] + ps[1..] == ps;
    ExecOne(g, ps[0], cur);
    Exec3(g, g1, g1.(pipe := BUSY.(idle := true)), ps[1..], cur);
  }

  lemma {:induction false} Settles(g: Gpu, cur: Word)
    ensures Exec(g, SETTLE, cur) == Some(g.(pipe := g.pipe.(idle := true), stale := false))
  {
    Exec3(g, g, g.(pipe := g.pipe.(idle := true)), SETTLE, cur);
  }

  lemma {:induction false} Ttbr0Written(g: Gpu, ttbr0: nat, cur: Word)
    requires ttbr0 < 0x1_0000_0000_0000_0000
    ensures Exec(g, [WriteTtbr0(ttbr0)], cur) ==
            Some(g.(ttbr0 := ttbr0, tlb := Stale, stale := true,
                    seen := g.seen + [TableSwitched(ttbr0, g.bus, g.isProtected, g.pipe.idle)]))
  {
    HalvesOf64Bits(ttbr0);
    ExecOne(g, WriteTtbr0(ttbr0), cur);
  }

  /** The page-table switch terminates, writes the whole TTBR0 while the bus is halted and the pipeline idle, and leaves
      the bus running and the TLB and the cached state invalidated. */
  lemma {:induction false} PagetableSwitchMeans(dev: Device, g: Gpu, ttbr0: nat, cur: Word)
    requires g.bus == Running && ttbr0 < 0x1_0000_0000_0000_0000
    ensures var s := RanIb(g, dev.setstate, 2, cur).seen;
      Exec(g, PagetableSwitch(dev, ttbr0), cur) ==
      Some(g.(ttbr0 := ttbr0, tlb := Clean, stale := false, pipe := BUSY.(idle := true),
              seen := s + [TableSwitched(ttbr0, Halted, g.isProtected, true)]))
  {
    hide Exec, StallPrefetch, WriteTtbr0;
    var g1 := RanIb(g, dev.setstate, 2, cur).(pipe := BUSY.(idle := true));
    var g2 := g1.(bus := Halted);
    var g3 := g2.(ttbr0 := ttbr0, tlb := Stale, stale := true,
                  seen := g1.seen + [TableSwitched(ttbr0, Halted, g.isProtected, true)]);
    var g4 := g3.(bus := Running);
    var g5 := g4.(tlb := Clean);
    StallRuns(dev, g, cur);
    LockHalts(g1, cur);
    Ttbr0Written(g2, ttbr0, cur);
    UnlockReleases(g3, cur);
    TlbiallCleans(g4, cur);
    Settles(g5, cur);
    ExecConcat(g, StallPrefetch(dev), VBIF_LOCK, cur);
    ExecConcat(g, StallPrefetch(dev) + VBIF_LOCK, [WriteTtbr0(ttbr0)], cur);
    ExecConcat(g, StallPrefetch(dev) + VBIF_LOCK + [WriteTtbr0(ttbr0)], VBIF_UNLOCK, cur);
    ExecConcat(g, StallPrefetch(dev) + VBIF_LOCK + [WriteTtbr0(ttbr0)] + VBIF_UNLOCK, TLBIALL, cur);
    ExecConcat(g, StallPrefetch(dev) + VBIF_LOCK + [WriteTtbr0(ttbr0)] + VBIF_UNLOCK + TLBIALL, SETTLE, cur);
  }

  // ---------------------------------------------------------------- the context switch

  function MemWrite(addr: Word, value: Word): Packet {
    Pkt3(CP_MEM_WRITE, [addr, value])
  }

  /** The rest of a3xx_rb_context_switch. */
  function NameContext(dev: Device, id: Word): seq<Packet> {
    [Pkt3(CP_NOP, [CONTEXT_TO_MEM_IDENTIFIER]),
     MemWrite(dev.Cur(), id),
     MemWrite(dev.IdAddr(KGSL_MEMSTORE_GLOBAL, CURRENT_CONTEXT), id),
     Pkt0(A3XX_UCHE_CACHE_INVALIDATE0_REG, UCHE_INVALIDATE)]
  }

  /** The commands of a3xx_rb_context_switch from the active context to `next`. */
  function SwitchCommands(dev: Device, active: Option<Context>, next: Context): seq<Packet> {
    (if active.Some? && active.value.pagetable == next.pagetable then [] else PagetableSwitch(dev, next.pagetable.ttbr0))
    + NameContext(dev, next.id)
  }

  function Named(dev: Device, g: Gpu, id: Word): Gpu {
    g.Store(dev.Cur(), id).Store(dev.IdAddr(KGSL_MEMSTORE_GLOBAL, CURRENT_CONTEXT), id)
  }

  lemma {:induction false} NameContextMeans(dev: Device, g: Gpu, id: Word)
    ensures Exec(g, NameContext(dev, id), dev.Cur()) == Some(Named(dev, g, id))
  {
    var ps, cur := NameContext(dev, id), dev.Cur();
    var g1 := g.Store(dev.Cur(), id);
    ExecConcat(g, ps[..1], ps[1..], cur);
    assert ps[..1] == [ps[0]] && ps[..1] + ps[1..] == ps;
    ExecOne(g, ps[0], cur);
    Exec3(g, g1, Named(dev, g, id), ps[1..], cur);
  }

  /** What the context switch does to a GPU whose table is the active context's. */
  function Switched(dev: Device, g: Gpu, active: Option<Context>, next: Context): Gpu {
    var g1 := if active.Some? && active.value.pagetable == next.pagetable then g
              else g.(ttbr0 := next.pagetable.ttbr0, tlb := Clean, stale := false, pipe := BUSY.(idle := true),
                      seen := RanIb(g, dev.setstate, 2, dev.Cur()).seen +
                              [TableSwitched(next.pagetable.ttbr0, Halted, g.isProtected, true)]);
    Named(dev, g1, next.id)
  }

  lemma {:induction false} SwitchMeans(dev: Device, g: Gpu, active: Option<Context>, next: Context)
    requires dev.Valid() && next.Valid() && g.bus == Running
    ensures Exec(g, SwitchCommands(dev, active, next), dev.Cur()) == Some(Switched(dev, g, active, next))
  {
    hide Exec, PagetableSwitch, NameContext, Named;
    var cur := dev.Cur();
    var pre := if active.Some? && active.value.pagetable == next.pagetable then []
               else PagetableSwitch(dev, next.pagetable.ttbr0);
    if pre == [] {
      ExecNothing(g, cur);
    }
    PagetableSwitchMeans(dev, g, next.pagetable.ttbr0, cur);
    ExecConcat(g, pre, NameContext(dev, next.id), cur);
    NameContextMeans(dev, if Exec(g, pre, cur).Some? then Exec(g, pre, cur).value else g, next.id);
  }

  lemma {:induction false} ExecNothing(g: Gpu, cur: Word)
    ensures Exec(g, [], cur) == Some(g)
  {
  }

  // ---------------------------------------------------------------- the commands of a submission

  /** An indirect buffer of a command object: MEMOBJ_SKIP and KGSL_CMDLIST_CTXTSWITCH_PREAMBLE are its marks. */
  datatype IbEntry = IbEntry(gpuaddr: nat, size: nat, skip: bool, preamble: bool)

  /** F_NOTPROTECTED, F_WFI, F_PWRON_FIXUP, F_SKIP, F_PREAMBLE */
  datatype Flags = Flags(notProtected: bool, wfi: bool, fixup: bool, skip: bool, preamble: bool)

  predicate Suppressed(ib: IbEntry, flags: Flags) {
    ib.skip || (ib.preamble && !flags.preamble)
  }

  function IbOperands(ib: IbEntry): seq<Word> {
    [Lower32(ib.gpuaddr), Lower32(ib.size / 4)]
  }

  /** A suppressed buffer is hidden in the operands of a NOP: header, address and size. */
  function IbPacket(ib: IbEntry, flags: Flags): Packet {
    if Suppressed(ib, flags) then Pkt3(CP_NOP, [Type3(CP_INDIRECT_BUFFER_PFE, 2)] + IbOperands(ib))
    else Pkt3(CP_INDIRECT_BUFFER_PFE, IbOperands(ib))
  }

  function IbPackets(ibs: seq<IbEntry>, flags: Flags): seq<Packet> {
    if ibs == [] then [] else [IbPacket(ibs[0], flags)] + IbPackets(ibs[1..], flags)
  }

  /** The stream built by a3xx_ringbuffer_submitcmd. */
  function IbCommands(ibs: seq<IbEntry>, flags: Flags): seq<Packet> {
    [Pkt3(CP_NOP, [START_IB_IDENTIFIER])] + IbPackets(if flags.skip then [] else ibs, flags)
    + [Pkt3(CP_NOP, [END_IB_IDENTIFIER])]
  }

  /** The buffers that are to run. */
  function Wanted(ibs: seq<IbEntry>, flags: Flags): seq<IbEntry> {
    if flags.skip || ibs == [] then []
    else (if Suppressed(ibs[0], flags) then [] else [ibs[0]]) + Wanted(ibs[1..], flags)
  }

  /** What is seen of buffers that run on `g`. */
  function Runs(g: Gpu, ibs: seq<IbEntry>, cur: Word): seq<Seen> {
    seq(|ibs|, k requires 0 <= k < |ibs| =>
      Ran(Lower32(ibs[k].gpuaddr), Lower32(ibs[k].size / 4), g.ttbr0, g.Read(cur), g.Ready(), g.isProtected))
  }

  /** `g` ran them. */
  function RanAll(g: Gpu, ibs: seq<IbEntry>, cur: Word): Gpu {
    g.(pipe := if ibs == [] then g.pipe else BUSY, seen := g.seen + Runs(g, ibs, cur))
  }

  lemma {:induction false} IbPacketMeans(g: Gpu, ib: IbEntry, flags: Flags, cur: Word)
    ensures Exec(g, [IbPacket(ib, flags)], cur) == Some(RanAll(g, if Suppressed(ib, flags) then [] else [ib], cur))
  {
    hide Exec;
    ExecOne(g, IbPacket(ib, flags), cur);
    if Suppressed(ib, flags) {
      assert g.seen + Runs(g, [], cur) == g.seen;
    } else {
      assert Runs(g, [ib], cur) ==
        [Ran(Lower32(ib.gpuaddr), Lower32(ib.size / 4), g.ttbr0, g.Read(cur), g.Ready(), g.isProtected)];
    }
  }

  /** What a buffer sees does not depend on what was seen before. */
  lemma {:induction false} RunsAppend(g: Gpu, a: seq<IbEntry>, b: seq<IbEntry>, cur: Word)
    ensures RanAll(RanAll(g, a, cur), b, cur) == RanAll(g, a + b, cur)
  {
    var g1 := RanAll(g, a, cur);
    assert Runs(g1, b, cur) == Runs(g, b, cur);
    assert Runs(g, a + b, cur) == Runs(g, a, cur) + Runs(g, b, cur);
    Associative(g.seen, Runs(g, a, cur), Runs(g, b, cur));
  }

  lemma {:induction false} IbPacketsMean(g: Gpu, ibs: seq<IbEntry>, flags: Flags, cur: Word)
    requires !flags.skip
    ensures Exec(g, IbPackets(ibs, flags), cur) == Some(RanAll(g, Wanted(ibs, flags), cur))
    decreases |ibs|
  {
    hide Exec, Runs, RanAll, IbPacket, Suppressed;
    if ibs == [] {
      NoRuns(g, cur);
      ExecNothing(g, cur);
    } else {
      var first := if Suppressed(ibs[0], flags) then [] else [ibs[0]];
      var g1 := RanAll(g, first, cur);
      IbPacketMeans(g, ibs[0], flags, cur);
      IbPacketsMean(g1, ibs[1..], flags, cur);
      ExecConcat(g, [IbPacket(ibs[0], flags)], IbPackets(ibs[1..], flags), cur);
      RunsAppend(g, first, Wanted(ibs[1..], flags), cur);
    }
  }

  /** The stream runs exactly the buffers neither marked nor suppressed, in order and once each; none under the
      skip flag. */
  lemma {:induction false} IbCommandsMean(g: Gpu, ibs: seq<IbEntry>, flags: Flags, cur: Word)
    ensures Exec(g, IbCommands(ibs, flags), cur) == Some(RanAll(g, Wanted(ibs, flags), cur))
  {
    hide Exec, Runs;
    var start, end := Pkt3(CP_NOP, [START_IB_IDENTIFIER]), Pkt3(CP_NOP, [END_IB_IDENTIFIER]);
    var mid := IbPackets(if flags.skip then [] else ibs, flags);
    var g' := RanAll(g, Wanted(ibs, flags), cur);
    if flags.skip {
      NoRuns(g, cur);
      ExecNothing(g, cur);
      assert g' == g;
    } else {
      IbPacketsMean(g, ibs, flags, cur);
    }
    ExecOne(g, start, cur);
    ExecOne(g', end, cur);
    ExecConcat(g, [start], mid, cur);
    ExecConcat(g, [start] + mid, [end], cur);
  }

  /** `at` are, in ascending order, exactly the positions of buffers that are to run: under no skip flag, those not marked
      to be skipped and, if they are preambles, only when the submission asks for preambles. */
  ghost predicate Picks(at: seq<nat>, ibs: seq<IbEntry>, flags: Flags) {
    && (forall m, n | 0 <= m < n < |at| :: at[m] < at[n])
    && (forall n | 0 <= n < |at| :: at[n] < |ibs|)
    && forall k: nat | k < |ibs| :: k in at <==> !flags.skip && !ibs[k].skip && (ibs[k].preamble ==> flags.preamble)
  }

  function Picked(ibs: seq<IbEntry>, at: seq<nat>): seq<IbEntry>
    requires forall n | 0 <= n < |at| :: at[n] < |ibs|
  {
    seq(|at|, n requires 0 <= n < |at| => ibs[at[n]])
  }

  /** Those positions from `from` on, the skip flag aside. */
  function PositionsFrom(ibs: seq<IbEntry>, flags: Flags, from: nat): seq<nat>
    requires from <= |ibs|
    decreases |ibs| - from
  {
    if from == |ibs| then []
    else (if !ibs[from].skip && (ibs[from].preamble ==> flags.preamble) then [from] else []) + PositionsFrom(ibs, flags, from + 1)
  }

  lemma {:induction false} PositionsAre(ibs: seq<IbEntry>, flags: Flags, from: nat)
    requires from <= |ibs|
    ensures var at := PositionsFrom(ibs, flags, from);
      && (forall m, n | 0 <= m < n < |at| :: at[m] < at[n])
      && (forall n | 0 <= n < |at| :: from <= at[n] < |ibs|)
      && forall k: nat | from <= k < |ibs| :: k in at <==> !ibs[k].skip && (ibs[k].preamble ==> flags.preamble)
    decreases |ibs| - from
  {
    if from < |ibs| {
      PositionsAre(ibs, flags, from + 1);
    }
  }

  lemma {:induction false} WantedFrom(ibs: seq<IbEntry>, flags: Flags, from: nat)
    requires from <= |ibs| && !flags.skip
    requires forall n | 0 <= n < |PositionsFrom(ibs, flags, from)| :: PositionsFrom(ibs, flags, from)[n] < |ibs|
    ensures Wanted(ibs[from..], flags) == Picked(ibs, PositionsFrom(ibs, flags, from))
    decreases |ibs| - from
  {
    var at := PositionsFrom(ibs, flags, from);
    if from < |ibs| {
      PositionsAre(ibs, flags, from + 1);
      WantedFrom(ibs, flags, from + 1);
      assert ibs[from..][1..] == ibs[from + 1..];
    }
  }

  lemma {:induction false} WantedArePicked(ibs: seq<IbEntry>, flags: Flags) returns (at: seq<nat>)
    ensures Picks(at, ibs, flags) && Wanted(ibs, flags) == Picked(ibs, at)
  {
    if flags.skip {
      at := [];
    } else {
      at := PositionsFrom(ibs, flags, 0);
      PositionsAre(ibs, flags, 0);
      WantedFrom(ibs, flags, 0);
      assert ibs[0..] == ibs;
    }
  }

  /** Said without the emitter's own test: what ran are the buffers at those positions, in order and once each. */
  lemma {:induction false} IbCommandsRunThePicked(g: Gpu, ibs: seq<IbEntry>, flags: Flags, cur: Word) returns (at: seq<nat>)
    ensures Picks(at, ibs, flags)
    ensures Exec(g, IbCommands(ibs, flags), cur) ==
      Some(g.(pipe := if at == [] then g.pipe else BUSY, seen := g.seen + seq(|at|, n requires 0 <= n < |at| =>
        Ran(Lower32(ibs[at[n]].gpuaddr), Lower32(ibs[at[n]].size / 4), g.ttbr0, g.Read(cur), g.Ready(), g.isProtected))))
  {
    hide Exec, Picks;
    at := WantedArePicked(ibs, flags);
    PicksInside(at, ibs, flags);
    IbCommandsMean(g, ibs, flags, cur);
    assert Runs(g, Picked(ibs, at), cur) == seq(|at|, n requires 0 <= n < |at| =>
      Ran(Lower32(ibs[at[n]].gpuaddr), Lower32(ibs[at[n]].size / 4), g.ttbr0, g.Read(cur), g.Ready(), g.isProtected));
  }

  lemma {:induction false} PicksInside(at: seq<nat>, ibs: seq<IbEntry>, flags: Flags)
    requires Picks(at, ibs, flags)
    ensures forall n | 0 <= n < |at| :: at[n] < |ibs|
  {
  }

  lemma {:induction false} NoRuns(g: Gpu, cur: Word)
    ensures RanAll(g, [], cur) == g
  {
  }

  /** It is read back as built and fits the 4 + 4n words that were allocated for it. */
  lemma {:induction false} IbCommandsFit(ibs: seq<IbEntry>, flags: Flags)
    ensures Decode(EncodeAll(IbCommands(ibs, flags))) == Some(IbCommands(ibs, flags))
    ensures |EncodeAll(IbCommands(ibs, flags))| <= 4 + 4 * (if flags.skip then 0 else |ibs|)
  {
    hide Decode;
    var start, end := Pkt3(CP_NOP, [START_IB_IDENTIFIER]), Pkt3(CP_NOP, [END_IB_IDENTIFIER]);
    var mid := IbPackets(if flags.skip then [] else ibs, flags);
    DecodesBack(IbCommands(ibs, flags));
    IbPacketsSize(if flags.skip then [] else ibs, flags);
    EncodeSnoc([start] + mid, end);
    EncodeConcat([start], mid);
    assert [start][0] == start && [start][1..] == [];
  }

  lemma {:induction false} DecodesBack(ps: seq<Packet>)
    ensures Decode(EncodeAll(ps)) == Some(ps)
  {
    DecodeEncodeAll(ps, []);
    assert EncodeAll(ps) + [] == EncodeAll(ps) && ps + [] == ps;
  }

  lemma {:induction false} IbPacketsSize(ibs: seq<IbEntry>, flags: Flags)
    ensures |EncodeAll(IbPackets(ibs, flags))| <= 4 * |ibs|
    decreases |ibs|
  {
    if ibs != [] {
      IbPacketsSize(ibs[1..], flags);
      assert IbPackets(ibs, flags)[1..] == IbPackets(ibs[1..], flags);
    }
  }

  // ---------------------------------------------------------------- a3xx_ringbuffer_addcmds

  /** A buffer of the profiler: its address and size. */
  datatype ProfileIb = ProfileIb(addr: nat, dwords: Word)

  /** The arguments of one call; no context means an internal command. */
  datatype Call = Call(ctx: Option<Context>, flags: Flags, timestamp: Word, pre: Option<ProfileIb>, post: Option<ProfileIb>) {
    /** The profiler leaves internal commands alone. */
    predicate Valid() {
      if ctx.None? then pre.None? && post.None? else ctx.value.Valid()
    }
  }

  function Protect(on: Word): Packet {
    Pkt3(CP_SET_PROTECTED_MODE, [on])
  }

  function FixupPackets(dev: Device, flags: Flags): seq<Packet> {
    if !flags.fixup then []
    else [Protect(0), Pkt3(CP_NOP, [PWRON_FIXUP_IDENTIFIER]), Ib(dev.fixupAddr, dev.fixupDwords), Protect(0)]
  }

  function ProfilePackets(ib: Option<ProfileIb>): seq<Packet> {
    if ib.None? then [] else [Ib(ib.value.addr, ib.value.dwords)]
  }

  function SopPackets(dev: Device, call: Call, ts: Word): seq<Packet> {
    (if call.ctx.None? then [] else [MemWrite(dev.IdAddr(call.ctx.value.id, SOPTIMESTAMP), call.timestamp)])
    + [MemWrite(dev.RbAddr(SOPTIMESTAMP), ts)]
  }

  function ProtectPackets(flags: Flags, on: Word): seq<Packet> {
    if flags.notProtected then [Protect(on)] else []
  }

  function Prologue(dev: Device, call: Call, ts: Word): seq<Packet> {
    [Pkt3(CP_NOP, [if call.ctx.Some? then CMD_IDENTIFIER else CMD_INTERNAL_IDENTIFIER])]
    + FixupPackets(dev, call.flags) + ProfilePackets(call.pre) + SopPackets(dev, call, ts) + ProtectPackets(call.flags, 0)
  }

  const FLUSH: seq<Packet> := [Pkt3(CP_EVENT_WRITE, [HLSQ_FLUSH]), Pkt3(CP_WAIT_FOR_IDLE, [0])]

  function EopPackets(dev: Device, call: Call, ts: Word): seq<Packet> {
    if call.ctx.None? then
      [Pkt3(CP_EVENT_WRITE, [CACHE_FLUSH_TS + EVENT_INTERRUPT, dev.RbAddr(EOPTIMESTAMP), ts])]
    else
      [Pkt3(CP_EVENT_WRITE, [CACHE_FLUSH_TS + EVENT_INTERRUPT, dev.IdAddr(call.ctx.value.id, EOPTIMESTAMP), call.timestamp]),
       Pkt3(CP_EVENT_WRITE, [CACHE_FLUSH_TS, dev.RbAddr(EOPTIMESTAMP), ts])]
  }

  function Rollover(flags: Flags): seq<Packet> {
    [Pkt3(CP_SET_CONSTANT, [ROLLOVER, 0])]
    + (if flags.wfi then [Pkt3(CP_WAIT_FOR_IDLE, [0])] else [])
  }

  function Epilogue(dev: Device, call: Call, ts: Word): seq<Packet> {
    ProtectPackets(call.flags, 1) + FLUSH + ProfilePackets(call.post) + EopPackets(dev, call, ts) + Rollover(call.flags)
  }

  /** What the ring receives for the caller's packets `cmds`. */
  function Wrapped(dev: Device, call: Call, ts: Word, cmds: seq<Packet>): seq<Packet> {
    Prologue(dev, call, ts) + cmds + Epilogue(dev, call, ts)
  }

  // ---- what the wrapping means

  function AfterFixup(dev: Device, g: Gpu, flags: Flags): Gpu {
    if flags.fixup then RanIb(g.(isProtected := false), dev.fixupAddr, dev.fixupDwords, dev.Cur()) else g
  }

  function AfterProfile(dev: Device, g: Gpu, ib: Option<ProfileIb>): Gpu {
    if ib.Some? then RanIb(g, ib.value.addr, ib.value.dwords, dev.Cur()) else g
  }

  function SignalAt(g: Gpu, field: nat): Signal {
    if field == EOPTIMESTAMP then Interrupt(g.pipe == DONE) else NoSignal
  }

  /** The timestamps stored at `field`: the context's, then the ring's. The first one at the end interrupts. */
  function Stamped(dev: Device, g: Gpu, call: Call, ts: Word, field: nat): Gpu {
    var g1 := if call.ctx.Some? then g.Store(dev.IdAddr(call.ctx.value.id, field), call.timestamp, SignalAt(g, field)) else g;
    g1.Store(dev.RbAddr(field), ts, if call.ctx.None? then SignalAt(g, field) else NoSignal)
  }

  /** Before the caller's commands: fixup, profiling, start timestamps, protection off if asked for. */
  function Begun(dev: Device, g: Gpu, call: Call, ts: Word): Gpu {
    var g1 := Stamped(dev, AfterProfile(dev, AfterFixup(dev, g, call.flags), call.pre), call, ts, SOPTIMESTAMP);
    if call.flags.notProtected then g1.(isProtected := false) else g1
  }

  /** After them: protection on again, the pipeline drained and flushed, profiling, end timestamps with the ring's last. */
  function Ended(dev: Device, g: Gpu, call: Call, ts: Word): Gpu {
    var g1 := (if call.flags.notProtected then g.(isProtected := true) else g).(pipe := DONE);
    RolledOver(Stamped(dev, AfterProfile(dev, g1, call.post), call, ts, EOPTIMESTAMP), call.flags)
  }

  function RolledOver(g: Gpu, flags: Flags): Gpu {
    if flags.wfi then g.(pipe := g.pipe.(idle := true)) else g
  }

  lemma {:induction false} ExecTwo(g: Gpu, g1: Gpu, a: Packet, b: Packet, cur: Word)
    requires Do(g, a, cur) == Some(g1)
    ensures Exec(g, [a, b], cur) == Do(g1, b, cur)
  {
    hide Do;
    ExecConcat(g, [a], [b], cur);
    ExecOne(g, a, cur);
    ExecOne(g1, b, cur);
    assert [a, b] == [a] + [b];
  }

  lemma {:induction false} FixupMeans(dev: Device, g: Gpu, flags: Flags)
    ensures Exec(g, FixupPackets(dev, flags), dev.Cur()) == Some(AfterFixup(dev, g, flags))
  {
    var cur := dev.Cur();
    if flags.fixup {
      var ps := FixupPackets(dev, flags);
      var g1 := g.(isProtected := false);
      var g2 := RanIb(g1, dev.fixupAddr, dev.fixupDwords, cur);
      ExecConcat(g, ps[..1], ps[1..], cur);
      assert ps[..1] == [ps[0]] && ps[..1] + ps[1..] == ps;
      ExecOne(g, ps[0], cur);
      Exec3(g1, g1, g2, ps[1..], cur);
    } else {
      ExecNothing(g, cur);
    }
  }

  lemma {:induction false} ProfileMeans(dev: Device, g: Gpu, ib: Option<ProfileIb>)
    ensures Exec(g, ProfilePackets(ib), dev.Cur()) == Some(AfterProfile(dev, g, ib))
  {
    hide Exec;
    if ib.Some? {
      ExecIb(g, ib.value.addr, ib.value.dwords, dev.Cur());
    } else {
      ExecNothing(g, dev.Cur());
    }
  }

  lemma {:induction false} SopMeans(dev: Device, g: Gpu, call: Call, ts: Word)
    ensures Exec(g, SopPackets(dev, call, ts), dev.Cur()) == Some(Stamped(dev, g, call, ts, SOPTIMESTAMP))
  {
    hide Exec;
    var ps, cur := SopPackets(dev, call, ts), dev.Cur();
    if call.ctx.Some? {
      ExecTwo(g, g.Store(dev.IdAddr(call.ctx.value.id, SOPTIMESTAMP), call.timestamp), ps[0], ps[1], cur);
      assert ps == [ps[0], ps[1]];
    } else {
      ExecOne(g, ps[0], cur);
      assert ps == [ps[0]];
    }
  }

  lemma {:induction false} EopMeans(dev: Device, g: Gpu, call: Call, ts: Word)
    ensures Exec(g, EopPackets(dev, call, ts), dev.Cur()) == Some(Stamped(dev, g, call, ts, EOPTIMESTAMP))
  {
    hide Exec;
    var ps, cur := EopPackets(dev, call, ts), dev.Cur();
    if call.ctx.Some? {
      ExecTwo(g, g.Store(dev.IdAddr(call.ctx.value.id, EOPTIMESTAMP), call.timestamp, SignalAt(g, EOPTIMESTAMP)), ps[0], ps[1], cur);
      assert ps == [ps[0], ps[1]];
    } else {
      ExecOne(g, ps[0], cur);
      assert ps == [ps[0]];
    }
  }

  lemma {:induction false} ProtectMeans(g: Gpu, flags: Flags, on: Word, cur: Word)
    requires on <= 1
    ensures Exec(g, ProtectPackets(flags, on), cur) == Some(if flags.notProtected then g.(isProtected := on == 1) else g)
  {
    hide Exec;
    ExecOne(g, Protect(on), cur);
    ExecNothing(g, cur);
  }

  lemma {:induction false} FlushMeans(g: Gpu, cur: Word)
    ensures Exec(g, FLUSH, cur) == Some(g.(pipe := DONE))
  {
    hide Exec;
    ExecTwo(g, g.(pipe := Pipe(false, false)), FLUSH[0], FLUSH[1], cur);
    assert FLUSH == [FLUSH[0], FLUSH[1]];
  }

  lemma {:induction false} RolloverMeans(g: Gpu, flags: Flags, cur: Word)
    ensures Exec(g, Rollover(flags), cur) == Some(RolledOver(g, flags))
  {
    hide Exec;
    var ps := Rollover(flags);
    if flags.wfi {
      ExecTwo(g, g, ps[0], ps[1], cur);
      assert ps == [ps[0], ps[1]];
    } else {
      ExecOne(g, ps[0], cur);
      assert ps == [ps[0]];
    }
  }

  lemma {:induction false} PrologueMeans(dev: Device, g: Gpu, call: Call, ts: Word)
    ensures Exec(g, Prologue(dev, call, ts), dev.Cur()) == Some(Begun(dev, g, call, ts))
  {
    hide Exec, FixupPackets, ProfilePackets, SopPackets, ProtectPackets, AfterFixup, AfterProfile, Stamped;
    var cur := dev.Cur();
    var a, b, c, d, e := [Pkt3(CP_NOP, [if call.ctx.Some? then CMD_IDENTIFIER else CMD_INTERNAL_IDENTIFIER])],
      FixupPackets(dev, call.flags), ProfilePackets(call.pre), SopPackets(dev, call, ts), ProtectPackets(call.flags, 0);
    var g1 := AfterFixup(dev, g, call.flags);
    var g2 := AfterProfile(dev, g1, call.pre);
    var g3 := Stamped(dev, g2, call, ts, SOPTIMESTAMP);
    ExecOne(g, a[0], cur);
    FixupMeans(dev, g, call.flags);
    ProfileMeans(dev, g1, call.pre);
    SopMeans(dev, g2, call, ts);
    ProtectMeans(g3, call.flags, 0, cur);
    ExecConcat(g, a, b, cur);
    ExecConcat(g, a + b, c, cur);
    ExecConcat(g, a + b + c, d, cur);
    ExecConcat(g, a + b + c + d, e, cur);
  }

  lemma {:induction false} EpilogueMeans(dev: Device, g: Gpu, call: Call, ts: Word)
    ensures Exec(g, Epilogue(dev, call, ts), dev.Cur()) == Some(Ended(dev, g, call, ts))
  {
    hide Exec, ProfilePackets, EopPackets, ProtectPackets, Rollover, RolledOver, AfterProfile, Stamped;
    var cur := dev.Cur();
    var a, c, d, e := ProtectPackets(call.flags, 1), ProfilePackets(call.post), EopPackets(dev, call, ts), Rollover(call.flags);
    var g0 := if call.flags.notProtected then g.(isProtected := true) else g;
    var g1 := g0.(pipe := DONE);
    var g2 := AfterProfile(dev, g1, call.post);
    var g3 := Stamped(dev, g2, call, ts, EOPTIMESTAMP);
    ProtectMeans(g, call.flags, 1, cur);
    FlushMeans(g0, cur);
    RolloverMeans(g3, call.flags, cur);
    ProfileMeans(dev, g1, call.post);
    EopMeans(dev, g2, call, ts);
    ExecConcat(g, a, FLUSH, cur);
    ExecConcat(g, a + FLUSH, c, cur);
    ExecConcat(g, a + FLUSH + c, d, cur);
    ExecConcat(g, a + FLUSH + c + d, e, cur);
  }

  /** The wrapping stores the start timestamps before the caller's commands run and the end timestamps after. */
  lemma {:induction false} WrappedMeans(dev: Device, g: Gpu, call: Call, ts: Word, cmds: seq<Packet>, g': Gpu)
    requires Exec(Begun(dev, g, call, ts), cmds, dev.Cur()) == Some(g')
    ensures Exec(g, Wrapped(dev, call, ts, cmds), dev.Cur()) == Some(Ended(dev, g', call, ts))
  {
    hide Exec, Prologue, Epilogue, Begun, Ended;
    PrologueMeans(dev, g, call, ts);
    EpilogueMeans(dev, g', call, ts);
    ExecConcat(g, Prologue(dev, call, ts), cmds, dev.Cur());
    ExecConcat(g, Prologue(dev, call, ts) + cmds, Epilogue(dev, call, ts), dev.Cur());
  }

  // ---------------------------------------------------------------- sizes

  lemma {:induction false} SizeOf3(ps: seq<Packet>)
    requires |ps| == 3
    ensures Size(ps) == 3 + |ps[0].data| + |ps[1].data| + |ps[2].data|
  {
    SizeOfMore(ps[0], ps[1..]);
    SizeOfTwo(ps[1], ps[2]);
    assert ps == [ps[0]] + ps[1..] && ps[1..] == [ps[1], ps[2]];
  }

  lemma {:induction false} SizeOf4(ps: seq<Packet>)
    requires |ps| == 4
    ensures Size(ps) == 4 + |ps[0].data| + |ps[1].data| + |ps[2].data| + |ps[3].data|
  {
    SizeOfMore(ps[0], ps[1..]);
    SizeOf3(ps[1..]);
    assert ps == [ps[0]] + ps[1..];
  }

  lemma {:induction false} PagetableSwitchSize(dev: Device, ttbr0: nat)
    ensures Size(PagetableSwitch(dev, ttbr0)) == 50
  {
    hide Size;
    SizeOf4(StallPrefetch(dev));
    SizeOf3(VBIF_LOCK);
    SizeOfTwo(WriteTtbr0(ttbr0), WriteTtbr0(ttbr0));
    SizeOfTwo(VBIF_UNLOCK[0], VBIF_UNLOCK[1]);
    SizeOf3(TLBIALL);
    SizeOf3(SETTLE);
    SizeConcat(StallPrefetch(dev), VBIF_LOCK);
    SizeConcat(StallPrefetch(dev) + VBIF_LOCK, [WriteTtbr0(ttbr0)]);
    SizeConcat(StallPrefetch(dev) + VBIF_LOCK + [WriteTtbr0(ttbr0)], VBIF_UNLOCK);
    SizeConcat(StallPrefetch(dev) + VBIF_LOCK + [WriteTtbr0(ttbr0)] + VBIF_UNLOCK, TLBIALL);
    SizeConcat(StallPrefetch(dev) + VBIF_LOCK + [WriteTtbr0(ttbr0)] + VBIF_UNLOCK + TLBIALL, SETTLE);
  }

  /** The commands of a context switch fit the 64 words of their buffer: 11 words, and 50 more for a new table. */
  lemma {:induction false} SwitchCommandsFit(dev: Device, active: Option<Context>, next: Context)
    ensures Size(SwitchCommands(dev, active, next)) ==
            if active.Some? && active.value.pagetable == next.pagetable then 11 else 61
  {
    hide PagetableSwitch;
    PagetableSwitchSize(dev, next.pagetable.ttbr0);
    SizeOf4(NameContext(dev, next.id));
    SizeConcat(if active.Some? && active.value.pagetable == next.pagetable then [] else PagetableSwitch(dev, next.pagetable.ttbr0),
               NameContext(dev, next.id));
  }

  function Words(b: bool, n: nat): nat {
    if b then n else 0
  }

  lemma {:induction false} PrologueSize(dev: Device, call: Call, ts: Word)
    ensures Size(Prologue(dev, call, ts)) ==
            5 + Words(call.flags.fixup, 9) + Words(call.pre.Some?, 3) + Words(call.ctx.Some?, 3) + Words(call.flags.notProtected, 2)
  {
    hide Size;
    var a, b, c, d, e := [Pkt3(CP_NOP, [if call.ctx.Some? then CMD_IDENTIFIER else CMD_INTERNAL_IDENTIFIER])],
      FixupPackets(dev, call.flags), ProfilePackets(call.pre), SopPackets(dev, call, ts), ProtectPackets(call.flags, 0);
    SizeOfNothing();
    if call.flags.fixup {
      SizeOf4(b);
    }
    SizeOfTwo(a[0], a[0]);
    SizeOfTwo(Protect(0), Protect(0));
    if call.pre.Some? {
      SizeOfTwo(c[0], c[0]);
    }
    SizeOfTwo(d[0], d[|d| - 1]);
    assert d == if call.ctx.Some? then [d[0], d[1]] else [d[0]];
    SizeConcat(a, b);
    SizeConcat(a + b, c);
    SizeConcat(a + b + c, d);
    SizeConcat(a + b + c + d, e);
  }

  lemma {:induction false} SizeOfNothing()
    ensures Size([]) == 0
  {
  }

  lemma {:induction false} EpilogueSize(dev: Device, call: Call, ts: Word)
    ensures Size(Epilogue(dev, call, ts)) ==
            11 + Words(call.flags.notProtected, 2) + Words(call.post.Some?, 3) + Words(call.ctx.Some?, 4) + Words(call.flags.wfi, 2)
  {
    hide Size;
    var a, c, d, e := ProtectPackets(call.flags, 1), ProfilePackets(call.post), EopPackets(dev, call, ts), Rollover(call.flags);
    SizeOfNothing();
    SizeOfTwo(Protect(1), Protect(1));
    SizeOfTwo(FLUSH[0], FLUSH[1]);
    if call.post.Some? {
      SizeOfTwo(c[0], c[0]);
    }
    SizeOfTwo(d[0], d[|d| - 1]);
    SizeOfTwo(e[0], e[|e| - 1]);
    assert d == if call.ctx.Some? then [d[0], d[1]] else [d[0]];
    assert e == if call.flags.wfi then [e[0], e[1]] else [e[0]];
    SizeConcat(a, FLUSH);
    SizeConcat(a + FLUSH, c);
    SizeConcat(a + FLUSH + c, d);
    SizeConcat(a + FLUSH + c + d, e);
  }

  /** At most 44 words surround the caller's, for every flag set, with or without context and profiling; all
      options at once need them all. */
  lemma {:induction false} WrappedFits(dev: Device, call: Call, ts: Word, cmds: seq<Packet>)
    ensures Size(cmds) + 16 <= Size(Wrapped(dev, call, ts, cmds)) <= Size(cmds) + 44
    ensures Size(Wrapped(dev, call, ts, cmds)) == Size(cmds) + 44 <==>
            call.flags.fixup && call.flags.notProtected && call.flags.wfi && call.ctx.Some? && call.pre.Some? && call.post.Some?
  {
    hide Size;
    PrologueSize(dev, call, ts);
    EpilogueSize(dev, call, ts);
    SizeConcat(Prologue(dev, call, ts), cmds);
    SizeConcat(Prologue(dev, call, ts) + cmds, Epilogue(dev, call, ts));
  }
}

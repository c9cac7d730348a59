/** What an A3xx command processor does with the packets adreno_a3xx_ringbuffer.c emits, as far as page tables, the
    bus halt, the TLB, cached state, the pipeline, protected mode, memory stores and interrupts go. The contents of
    indirect buffers are opaque. */
module A3xxGpu {
  import opened FstTypes
  import opened Pm4

  const A3XX_CP_WFI_PEND_CTR := 0x01F5
  const A3XX_UCHE_CACHE_INVALIDATE0_REG := 0xEA0
  const HALT_CTRL0 := 0x3800            // A3XX_VBIF_DDR_OUTPUT_RECOVERABLE_HALT_CTRL0
  const HALT_CTRL1 := 0x3801            // A3XX_VBIF_DDR_OUTPUT_RECOVERABLE_HALT_CTRL1
  const VBIF_RECOVERABLE_HALT_CTRL := 0x1
  const HLSQ_FLUSH := 0x07
  const CACHE_FLUSH_TS := 4             // flushes the caches and then stores a timestamp
  const EVENT_INTERRUPT := 0x8000_0000  // and raises an interrupt
  const ALL_STATE := 0x7ffff
  const UCHE_INVALIDATE: seq<Word> := [0, 0x9000_0000]
  const A3XX_HLSQ_CL_KERNEL_GROUP_X_REG := 0x2215
  const ROLLOVER := 4 * 0x1_0000 + (A3XX_HLSQ_CL_KERNEL_GROUP_X_REG - 0x2000)
  const POLL_INTERVAL := 0xF
  const A3XX_GPU_OFFSET := 0xa000
  const KGSL_IOMMU_CTX_TTBR0 := 0x0020
  const KGSL_IOMMU_CTX_TLBIALL := 0x0618
  const KGSL_IOMMU_CTX_TLBSYNC := 0x07f0
  const KGSL_IOMMU_CTX_TLBSTATUS := 0x07f4
  const KGSL_IOMMU_CTX_TLBSTATUS_SACTIVE := 1

  /** The word index of an SMMU register as the command processor addresses it. */
  function SmmuReg(reg: nat): Word
    requires reg < 0x1000
  {
    (A3XX_GPU_OFFSET + reg) / 4
  }

  /** The memory interface: running, asked to halt, or halted and acknowledged. */
  datatype Bus = Running | Requested | Halted

  /** TLB entries of an older page table may be used until an invalidation was issued, synchronized and awaited. */
  datatype Tlb = Clean | Stale | Issued | Synced

  /** `idle`: every buffer and every flush that was started has completed. `lazy`: HLSQ updates of some buffer are still
      to be flushed. */
  datatype Pipe = Pipe(idle: bool, lazy: bool)

  const BUSY := Pipe(false, true)
  const DONE := Pipe(true, false)

  /** A store comes with an interrupt or not; `done` says that the pipeline was idle and nothing pending. */
  datatype Signal = NoSignal | Interrupt(done: bool)

  /** What an observer of the GPU sees, in order. `context` is the value last stored as current context of the ring;
      `ready` says that the bus runs and neither the TLB nor the cached state is that of an older page table. */
  datatype Seen =
    | Ran(addr: Word, dwords: Word, ttbr0: nat, context: Option<Word>, ready: bool, isProtected: bool)
    | TableSwitched(ttbr0: nat, bus: Bus, isProtected: bool, idle: bool)
    | Stored(addr: Word, value: Word, signal: Signal)

  datatype Gpu = Gpu(ttbr0: nat, bus: Bus, tlb: Tlb, stale: bool, pipe: Pipe, isProtected: bool, mem: map<Word, Word>,
                     seen: seq<Seen>) {
    function Read(a: Word): Option<Word> {
      if a in mem then Some(mem[a]) else None
    }

    function Store(a: Word, v: Word, signal: Signal := NoSignal): Gpu {
      this.(mem := mem[a := v], seen := seen + [Stored(a, v, signal)])
    }

    predicate Ready() { bus == Running && tlb == Clean && !stale }
  }

  /** Bit 0 of a register as the mask lets it through; no other bit of the awaited registers is ever set. */
  function MaskedBit(bit: nat, mask: Word): nat {
    if mask % 2 == 1 then bit else 0
  }

  /** CP_WAIT_REG_EQ, until the masked register has the value: None when that can never come. The halt is acknowledged
      once it is requested; the TLB is active until its synchronization is complete; waits may be pending. */
  function Wait(g: Gpu, reg: Word, val: Word, mask: Word): Option<Gpu> {
    if reg == HALT_CTRL1 then
      if val == MaskedBit(if g.bus == Halted then 1 else 0, mask) then Some(g)
      else if g.bus == Requested && val == MaskedBit(1, mask) then Some(g.(bus := Halted))
      else None
    else if reg == SmmuReg(KGSL_IOMMU_CTX_TLBSTATUS) then
      if val == 0 then Some(if mask % 2 == 1 && g.tlb == Synced then g.(tlb := Clean) else g) else None
    else if reg == A3XX_CP_WFI_PEND_CTR then
      if val == MaskedBit(1, mask) then Some(g) else None
    else None
  }

  /** CP_REG_RMW on the halt control register, all of whose other bits stay: bit 0 of (old & mask) | bits. */
  function HaltControl(g: Gpu, mask: Word, bits: Word): Gpu {
    if bits % 2 == 1 then g.(bus := if g.bus == Running then Requested else g.bus)
    else if mask % 2 == 0 then g.(bus := Running)
    else g
  }

  /** CP_REG_WR_NO_CTXT */
  function SmmuWrite(g: Gpu, reg: Word, vals: seq<Word>): Option<Gpu> {
    if reg == SmmuReg(KGSL_IOMMU_CTX_TTBR0) && |vals| == 2 then
      var t := vals[0] as nat + vals[1] as nat * 0x1_0000_0000;
      Some(g.(ttbr0 := t, tlb := Stale, stale := true, seen := g.seen + [TableSwitched(t, g.bus, g.isProtected, g.pipe.idle)]))
    else if reg == SmmuReg(KGSL_IOMMU_CTX_TLBIALL) && |vals| == 1 then Some(g.(tlb := Issued))
    else if reg == SmmuReg(KGSL_IOMMU_CTX_TLBSYNC) && |vals| == 1 then
      Some(if g.tlb == Issued then g.(tlb := Synced) else g)
    else None
  }

  /** One packet; `cur` is the address of the ring's current-context word. None: the packet is not one of those
      the driver may emit, or it waits forever. */
  function Do(g: Gpu, p: Packet, cur: Word): Option<Gpu> {
    match p
    case Pkt0(reg, data) => if reg == A3XX_UCHE_CACHE_INVALIDATE0_REG && data == UCHE_INVALIDATE then Some(g) else None
    case Pkt3(op, data) =>
      if op == CP_NOP || (op == CP_WAIT_FOR_ME && data == [0]) || (op == CP_SET_CONSTANT && data == [ROLLOVER, 0]) then Some(g)
      else if op == CP_WAIT_FOR_IDLE && data == [0] then Some(g.(pipe := g.pipe.(idle := true)))
      else if op == CP_INVALIDATE_STATE && data == [ALL_STATE] then Some(g.(stale := false))
      else if op == CP_WAIT_REG_EQ && |data| == 4 && data[3] == POLL_INTERVAL then Wait(g, data[0], data[1], data[2])
      else if op == CP_REG_RMW && |data| == 3 && data[0] == HALT_CTRL0 && data[1] / 2 == 0x7FFF_FFFF && data[2] <= 1 then
        Some(HaltControl(g, data[1], data[2]))
      else if op == CP_REG_WR_NO_CTXT then SmmuWrite(g, data[0], data[1..])
      else if op == CP_MEM_WRITE && |data| == 2 then Some(g.Store(data[0], data[1]))
      else if op == CP_EVENT_WRITE && data == [HLSQ_FLUSH] then Some(g.(pipe := Pipe(false, false)))
      else if op == CP_EVENT_WRITE && |data| == 3 && data[0] % EVENT_INTERRUPT == CACHE_FLUSH_TS then
        Some(g.Store(data[1], data[2], if data[0] >= EVENT_INTERRUPT then Interrupt(g.pipe == DONE) else NoSignal))
      else if op == CP_SET_PROTECTED_MODE && |data| == 1 then Some(g.(isProtected := data[0] != 0))
      else if op == CP_INDIRECT_BUFFER_PFE && |data| == 2 then
        Some(g.(pipe := BUSY, seen := g.seen + [Ran(data[0], data[1], g.ttbr0, g.Read(cur), g.Ready(), g.isProtected)]))
      else None
  }

  function Exec(g: Gpu, ps: seq<Packet>, cur: Word): Option<Gpu>
    decreases |ps|
  {
    if ps == [] then Some(g)
    else
      var g' := Do(g, ps[0], cur);
      if g'.None? then None else Exec(g'.value, ps[1..], cur)
  }

  lemma {:induction false} ExecConcat(g: Gpu, a: seq<Packet>, b: seq<Packet>, cur: Word)
    ensures Exec(g, a + b, cur) ==
            if Exec(g, a, cur).None? then None else Exec(Exec(g, a, cur).value, b, cur)
    decreases |a|
  {
    hide Do;
    if a == [] {
      assert a + b == b;
    } else {
      assert (a + b)[1..] == a[1..] + b;
      if Do(g, a[0], cur).Some? {
        ExecConcat(Do(g, a[0], cur).value, a[1..], b, cur);
      }
    }
  }

  lemma {:induction false} ExecOne(g: Gpu, p: Packet, cur: Word)
    ensures Exec(g, [p], cur) == Do(g, p, cur)
  {
    hide Do;
    if Do(g, p, cur).Some? {
      assert Exec(Do(g, p, cur).value, [], cur) == Do(g, p, cur);
    }
  }
}

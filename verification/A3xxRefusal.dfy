/** When a ring refuses a context switch and then takes the command it was for, so that
    adreno_a3xx_ringbuffer.c runs the buffers of one context as another. */
module A3xxRefusal {
  import opened FstTypes
  import opened Pm4
  import opened A3xxGpu
  import opened A3xxStream
  import opened A3xxRuns
  import opened A3xxRing

  // ---------------------------------------------------------------- for which sizes

  predicate Pointers(rptr: nat, wptr: nat) {
    rptr < KGSL_RB_DWORDS && wptr <= KGSL_RB_DWORDS - 2
  }

  /** At these pointers the ring refuses `refused` words and has room for `taken` words. */
  predicate Prefers(rptr: nat, wptr: nat, refused: nat, taken: nat) {
    Pointers(rptr, wptr) && !Room(rptr, wptr, refused) && Room(rptr, wptr, taken)
  }

  /** With a GPU that fetches nothing in between it can happen exactly to a command that is smaller than its context
      switch, and fits an empty ring. */
  lemma {:induction false} RefusedThenTakenIff(dev: Device, active: Option<Context>, s: Submission)
    ensures (exists rptr, wptr :: Prefers(rptr, wptr, Reserve(SwitchCommands(dev, active, s.ctx)), Reserve(IbCommands(s.ibs, s.flags))))
            <==> Size(IbCommands(s.ibs, s.flags)) < Size(SwitchCommands(dev, active, s.ctx))
                 && Reserve(IbCommands(s.ibs, s.flags)) <= KGSL_RB_DWORDS - 2
  {
    hide Size, IbCommands, SwitchCommands;
    var a, b := Reserve(SwitchCommands(dev, active, s.ctx)), Reserve(IbCommands(s.ibs, s.flags));
    if b < a && b <= KGSL_RB_DWORDS - 2 {
      assert Prefers(b + 1, 0, a, b);
    }
  }

  /** With one that does, to every command that fits an empty ring. */
  lemma {:induction false} RefusedThenTakenLater(dev: Device, active: Option<Context>, s: Submission)
    ensures (exists rptr, later, wptr :: Pointers(rptr, wptr) && Pointers(later, wptr)
               && !Room(rptr, wptr, Reserve(SwitchCommands(dev, active, s.ctx)))
               && Room(later, wptr, Reserve(IbCommands(s.ibs, s.flags))))
            <==> Reserve(IbCommands(s.ibs, s.flags)) <= KGSL_RB_DWORDS - 2
  {
    hide Size, IbCommands, SwitchCommands;
    var a, b := Reserve(SwitchCommands(dev, active, s.ctx)), Reserve(IbCommands(s.ibs, s.flags));
    if b <= KGSL_RB_DWORDS - 2 {
      assert Pointers(1, 0) && Pointers(0, 0) && !Room(1, 0, a) && Room(0, 0, b);
    }
  }

  // ---------------------------------------------------------------- a ring that gets there

  /** What a new ring does with submissions while the GPU fetches nothing: the drivers and write pointers of
      A3xxRing.Ring.SubmitCmd, whose answers about room are the ring's own. */
  ghost predicate IdleRun(dev: Device, evs: seq<Event>, ds: seq<Driver>, ptrs: seq<nat>) {
    && DriverRun(dev, evs, ds) && |ptrs| == |evs| + 1 && ds[0] == Driver(None, 0) && ptrs[0] == 0
    && forall k | 0 <= k < |evs| :: IdleStep(dev, ds[k], ptrs[k], evs[k], ptrs[k + 1])
  }

  predicate IdleStep(dev: Device, d: Driver, ptr: nat, ev: Event, ptr': nat) {
    && ev.Submitted? && ev.w == WithRoom(dev, d, ev.s, ev.w, 0, 0, ptr)
    && ptr' == MovedBySubmit(dev, d, ev.s, ev.w, 0, 0, ptr)
  }

  /** One more submission, with the ring's answers. */
  lemma {:induction false} IdleMore(dev: Device, evs: seq<Event>, ds: seq<Driver>, ptrs: seq<nat>, s: Submission, w: Answers)
    requires IdleRun(dev, evs, ds, ptrs) && w == WithRoom(dev, ds[|evs|], s, w, 0, 0, ptrs[|evs|])
    ensures var d, p := ds[|evs|], ptrs[|evs|];
      IdleRun(dev, evs + [Submitted(s, w)], ds + [Submit(dev, d, s, w).driver], ptrs + [MovedBySubmit(dev, d, s, w, 0, 0, p)])
  {
    hide Submit, WithRoom, MovedBySubmit;
    var n, evs' := |evs|, evs + [Submitted(s, w)];
    var d, p := ds[n], ptrs[n];
    var ds', ptrs' := ds + [Submit(dev, d, s, w).driver], ptrs + [MovedBySubmit(dev, d, s, w, 0, 0, p)];
    forall k | 0 <= k < |evs'| ensures IdleStep(dev, ds'[k], ptrs'[k], evs'[k], ptrs'[k + 1]) {
      if k < n {
        assert IdleStep(dev, ds[k], ptrs[k], evs[k], ptrs[k + 1]);
      }
    }
  }

  lemma {:induction false} OneBufferSize(ctx: Context, ib: IbEntry)
    requires !ib.skip && !ib.preamble
    ensures Size(IbCommands(OneBuffer(ctx, ib).ibs, OneBuffer(ctx, ib).flags)) == 7
  {
    hide Size;
    var flags := OneBuffer(ctx, ib).flags;
    var ps := IbCommands([ib], flags);
    assert [ib][1..] == [];
    assert IbPackets([ib], flags) == [IbPacket(ib, flags)] + IbPackets([], flags);
    assert ps == [ps[0], ps[1], ps[2]] && ps[1] == IbPacket(ib, flags);
    SizeOf3(ps);
  }

  /** A submission of the active context: it moves the write pointer by at most 51 words. */
  lemma {:induction false} FillStep(dev: Device, d: Driver, c: Context, ib: IbEntry, ptr: nat)
    requires d.active == Some(c) && ptr + 62 <= KGSL_RB_DWORDS - 2 && !ib.skip && !ib.preamble
    ensures var s := OneBuffer(c, ib); var w := WithRoom(dev, d, s, Yes(true), 0, 0, ptr);
      && w == Yes(w.switchRoom) && w == WithRoom(dev, d, s, w, 0, 0, ptr)
      && Submit(dev, d, s, w).driver.active == Some(c)
      && ptr < MovedBySubmit(dev, d, s, w, 0, 0, ptr) <= ptr + 51
  {
    hide Wrapped, IbCommands, SwitchCommands, Size;
    var s := OneBuffer(c, ib);
    var w := WithRoom(dev, d, s, Yes(true), 0, 0, ptr);
    OneBufferSize(c, ib);
    WrappedFits(dev, CommandCall(s, w), NextTimestamp(d.timestamp), IbCommands(s.ibs, s.flags));
  }

  /** The first submission, with its context switch. */
  lemma {:induction false} FirstStep(dev: Device, c: Context, ib: IbEntry)
    requires !ib.skip && !ib.preamble
    ensures var d, s := Driver(None, 0), OneBuffer(c, ib); var w := WithRoom(dev, d, s, Yes(true), 0, 0, 0);
      && w == Yes(true) && w == WithRoom(dev, d, s, w, 0, 0, 0)
      && Submit(dev, d, s, w).driver.active == Some(c)
      && MovedBySubmit(dev, d, s, w, 0, 0, 0) <= 156
  {
    hide Wrapped, IbCommands, SwitchCommands, Size;
    var d, s := Driver(None, 0), OneBuffer(c, ib);
    var w := WithRoom(dev, d, s, Yes(true), 0, 0, 0);
    SwitchCommandsFit(dev, None, c);
    OneBufferSize(c, ib);
    WrappedFits(dev, SWITCH_CALL, NextTimestamp(0), SwitchCommands(dev, None, c));
    WrappedFits(dev, CommandCall(s, w), NextTimestamp(NextTimestamp(0)), IbCommands(s.ibs, s.flags));
  }

  /** All submissions so far are of `c`, and nothing but its first context switch was attempted. */
  ghost predicate AllOf(evs: seq<Event>, ds: seq<Driver>, c: Context, ib: IbEntry)
    requires |evs| <= |ds|
  {
    forall k | 0 <= k < |evs| ::
      && evs[k].Submitted? && evs[k].s == OneBuffer(c, ib) && evs[k].w == Yes(evs[k].w.switchRoom)
      && (ds[k].active == Some(c) || evs[k].w.switchRoom)
  }

  /** Submissions of `c`, one by one, until the tail of the ring is too short for a context switch that changes the
      table, and no shorter than a command needs. */
  lemma {:induction false} Fill(dev: Device, c: Context, ib: IbEntry, evs: seq<Event>, ds: seq<Driver>, ptrs: seq<nat>)
    returns (evs': seq<Event>, ds': seq<Driver>, ptrs': seq<nat>)
    requires IdleRun(dev, evs, ds, ptrs) && AllOf(evs, ds, c, ib) && ds[|evs|].active == Some(c)
    requires ptrs[|evs|] <= 8128 && !ib.skip && !ib.preamble
    ensures IdleRun(dev, evs', ds', ptrs') && AllOf(evs', ds', c, ib) && ds'[|evs'|].active == Some(c)
    ensures 8074 < ptrs'[|evs'|] <= 8128
    decreases 8128 - ptrs[|evs|]
  {
    hide Submit, WithRoom, MovedBySubmit;
    var d, p := ds[|evs|], ptrs[|evs|];
    if p > 8074 {
      evs', ds', ptrs' := evs, ds, ptrs;
    } else {
      var s := OneBuffer(c, ib);
      var w := WithRoom(dev, d, s, Yes(true), 0, 0, p);
      FillStep(dev, d, c, ib, p);
      IdleMore(dev, evs, ds, ptrs, s, w);
      evs', ds', ptrs' := Fill(dev, c, ib, evs + [Submitted(s, w)], ds + [Submit(dev, d, s, w).driver],
                               ptrs + [MovedBySubmit(dev, d, s, w, 0, 0, p)]);
    }
  }

  /** There the switch to a context with another table is refused and its command taken. */
  lemma {:induction false} LastStep(dev: Device, d: Driver, c1: Context, c2: Context, ib: IbEntry, ptr: nat)
    requires d.active == Some(c1) && c1.pagetable != c2.pagetable && 8074 < ptr <= 8128 && !ib.skip && !ib.preamble
    ensures var s := OneBuffer(c2, ib);
      WithRoom(dev, d, s, Yes(false), 0, 0, ptr) == Yes(false)
  {
    hide Wrapped, IbCommands, SwitchCommands, Size;
    SwitchCommandsFit(dev, d.active, c2);
    OneBufferSize(c2, ib);
  }

  /** Whatever the two contexts, if their page tables differ, and the buffer: a new ring whose GPU is slow gets there,
      by submissions of `c1` and then one of `c2`, with no fault and no context detached. The buffer of `c2` then runs
      with the page table of `c1`, as `c1`. */
  lemma {:induction false} RefusalIsReached(dev: Device, c1: Context, c2: Context, ib: IbEntry, g: Gpu)
    returns (evs: seq<Event>, ds: seq<Driver>, ptrs: seq<nat>, gs: seq<Gpu>)
    requires dev.Valid() && c1.Valid() && c2.Valid() && c1.pagetable != c2.pagetable && g.bus == Running && g.seen == []
    requires !ib.skip && !ib.preamble
    ensures |evs| > 0 && IdleRun(dev, evs, ds, ptrs) && Run(dev, evs, ds, gs) && gs[0] == g
    ensures var n := |evs| - 1;
      && AllOf(evs[..n], ds, c1, ib) && evs[n] == Submitted(OneBuffer(c2, ib), Yes(false))
      && gs[n].seen <= gs[n + 1].seen && OnlyRanAs(gs[n + 1].seen[|gs[n].seen|..], ib, c1)
  {
    hide Submit, WithRoom, MovedBySubmit, Run, OnlyRanAs;
    var s1, s2 := OneBuffer(c1, ib), OneBuffer(c2, ib);
    var d0 := Driver(None, 0);
    FirstStep(dev, c1, ib);
    assert IdleRun(dev, [], [d0], [0]);
    IdleMore(dev, [], [d0], [0], s1, Yes(true));
    assert [] + [Submitted(s1, Yes(true))] == [Submitted(s1, Yes(true))];
    var fill, drivers, pointers := Fill(dev, c1, ib, [] + [Submitted(s1, Yes(true))], [d0] + [Submit(dev, d0, s1, Yes(true)).driver],
                                        [0] + [MovedBySubmit(dev, d0, s1, Yes(true), 0, 0, 0)]);
    var n := |fill|;
    LastStep(dev, drivers[n], c1, c2, ib, pointers[n]);
    IdleMore(dev, fill, drivers, pointers, s2, Yes(false));
    evs := fill + [Submitted(s2, Yes(false))];
    ds := drivers + [Submit(dev, drivers[n], s2, Yes(false)).driver];
    ptrs := pointers + [MovedBySubmit(dev, drivers[n], s2, Yes(false), 0, 0, pointers[n])];
    gs := StreamMakesARun(dev, evs, ds, g);
    SetUpFor(dev, evs, ds, gs, n, c1, ib);
    Misattributed(dev, evs, ds, gs, n, c1, c2, ib);
    assert evs[..n] == fill;
  }

  lemma {:induction false} SetUpFor(dev: Device, evs: seq<Event>, ds: seq<Driver>, gs: seq<Gpu>, n: nat, c: Context, ib: IbEntry)
    requires Run(dev, evs, ds, gs) && n <= |evs| && AllOf(evs[..n], ds, c, ib) && ds[n].active == Some(c)
    ensures UnderOf(dev, gs[n]) == Proper(c)
  {
    hide RunStep;
    assert forall k | 0 <= k < n :: evs[..n][k] == evs[k];
    ActiveContextIsSetUp(dev, evs, ds, gs, n);
  }
}

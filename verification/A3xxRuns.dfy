/** Sequences of submissions to one A3xx ring: the exact trace of the GPU, which context and page table every
    indirect buffer meets, what a refused context switch does, and the order of the timestamps. */
module A3xxRuns {
  import opened FstTypes
  import opened Pm4
  import opened A3xxGpu
  import opened A3xxStream

  /** Of struct adreno_ringbuffer: the active context and the last timestamp. */
  datatype Driver = Driver(active: Option<Context>, timestamp: Word)

  datatype Submission = Submission(ctx: Context, ibs: seq<IbEntry>, flags: Flags, timestamp: Word)

  /** What is found while one submission is handled: whether the context is detached or cannot be referenced, and
      for each of the two calls that add commands, whether it is turned away and whether the ring has room. */
  datatype Answers = Answers(detached: bool, referenced: bool, switchFault: bool, switchRoom: bool,
                             commandRefused: bool, commandRoom: bool, pre: Option<ProfileIb>, post: Option<ProfileIb>)

  function NextTimestamp(ts: Word): Word {
    (ts + 1) % 0x1_0000_0000
  }

  /** a3xx_ringbuffer_addcmds: the new timestamp and, unless an error is returned, what the ring receives. The
      timestamp advances even when the ring turns out to be full. */
  function AddCmds(dev: Device, ts: Word, call: Call, cmds: seq<Packet>, refused: bool, room: bool)
    : (Word, Option<seq<Packet>>)
  {
    if refused then (ts, None)
    else
      var ts' := NextTimestamp(ts);
      (ts', if room then Some(Wrapped(dev, call, ts', cmds)) else None)
  }

  const SWITCH_CALL := Call(None, Flags(true, false, false, false, false), 0, None, None)

  /** a3xx_drawctxt_switch: the driver afterwards, what was emitted, and whether it succeeded. The active context
      changes even if the ring refused the commands of the switch. */
  function Switch(dev: Device, d: Driver, ctx: Context, w: Answers): (Driver, Option<seq<Packet>>, bool) {
    if d.active == Some(ctx) then (d, Some([]), true)
    else if w.detached || !w.referenced then (d, None, false)
    else
      var (ts, out) := AddCmds(dev, d.timestamp, SWITCH_CALL, SwitchCommands(dev, d.active, ctx), w.switchFault, w.switchRoom);
      (Driver(Some(ctx), ts), out, true)
  }

  function CommandCall(s: Submission, w: Answers): Call {
    Call(Some(s.ctx), s.flags, s.timestamp, w.pre, w.post)
  }

  /** What one a3xx_ringbuffer_submitcmd leaves: the driver, and the packets of its two calls. */
  datatype Effect = Effect(driver: Driver, switch: Option<seq<Packet>>, command: Option<seq<Packet>>) {
    function Issued(): seq<Packet> {
      (if switch.Some? then switch.value else []) + (if command.Some? then command.value else [])
    }
  }

  function Submit(dev: Device, d: Driver, s: Submission, w: Answers): Effect {
    var (d1, out, ok) := Switch(dev, d, s.ctx, w);
    if !ok then Effect(d, Some([]), None)
    else
      var (ts, cmd) := AddCmds(dev, d1.timestamp, CommandCall(s, w), IbCommands(s.ibs, s.flags), w.commandRefused, w.commandRoom);
      Effect(d1.(timestamp := ts), out, cmd)
  }

  // ---------------------------------------------------------------- table switches in a trace

  /** Page tables were switched only while the bus was halted, protection off and the pipeline idle. */
  ghost predicate WellSwitched(seen: seq<Seen>) {
    forall k | 0 <= k < |seen| && seen[k].TableSwitched? :: SwitchedWell(seen[k])
  }

  predicate SwitchedWell(e: Seen)
    requires e.TableSwitched?
  {
    e.bus == Halted && !e.isProtected && e.idle
  }

  lemma {:induction false} WellSwitchedConcat(a: seq<Seen>, b: seq<Seen>)
    ensures WellSwitched(a + b) <==> WellSwitched(a) && WellSwitched(b)
  {
    if WellSwitched(a + b) {
      forall k | 0 <= k < |a| && a[k].TableSwitched? ensures SwitchedWell(a[k]) {
        assert (a + b)[k] == a[k];
      }
      forall k | 0 <= k < |b| && b[k].TableSwitched? ensures SwitchedWell(b[k]) {
        assert (a + b)[|a| + k] == b[k];
      }
    }
  }

  // ---------------------------------------------------------------- what buffers meet

  /** The circumstances an indirect buffer runs under. */
  datatype Under = Under(ttbr0: nat, context: Option<Word>, ready: bool)

  function UnderOf(dev: Device, g: Gpu): Under {
    Under(g.ttbr0, g.Read(dev.Cur()), g.Ready())
  }

  /** Those a buffer of `ctx` must meet: its page table, itself as current context, a running bus, a clean TLB. */
  function Proper(ctx: Context): Under {
    Under(ctx.pagetable.ttbr0, Some(ctx.id), true)
  }

  function SeenIb(addr: nat, dwords: Word, u: Under, isProtected: bool): Seen {
    Ran(Lower32(addr), dwords, u.ttbr0, u.context, u.ready, isProtected)
  }

  /** From `g` to `g'` exactly `t` was seen; table, bus, TLB, cached state and current context are the same. */
  ghost predicate Extends(dev: Device, g: Gpu, g': Gpu, t: seq<Seen>) {
    && g'.ttbr0 == g.ttbr0 && g'.bus == g.bus && g'.tlb == g.tlb && g'.stale == g.stale && g'.Read(dev.Cur()) == g.Read(dev.Cur())
    && g'.seen == g.seen + t
  }

  lemma {:induction false} ExtendsTrans(dev: Device, a: Gpu, b: Gpu, c: Gpu, t: seq<Seen>, t': seq<Seen>)
    requires Extends(dev, a, b, t) && Extends(dev, b, c, t')
    ensures Extends(dev, a, c, t + t')
  {
    Associative(a.seen, t, t');
  }

  lemma {:induction false} ExtendsUnder(dev: Device, g: Gpu, g': Gpu, t: seq<Seen>)
    requires Extends(dev, g, g', t)
    ensures UnderOf(dev, g') == UnderOf(dev, g) && g'.bus == g.bus && g'.seen == g.seen + t
  {
  }

  lemma {:induction false} ProtectionExtends(dev: Device, g: Gpu, on: bool)
    ensures Extends(dev, g, g.(isProtected := on), [])
  {
  }

  lemma {:induction false} PipeExtends(dev: Device, g: Gpu, on: bool, pipe: Pipe)
    ensures Extends(dev, g, g.(isProtected := on, pipe := pipe), [])
  {
  }

  lemma {:induction false} ProfiledPipe(dev: Device, g: Gpu, ib: Option<ProfileIb>)
    requires g.pipe == DONE
    ensures AfterProfile(dev, g, ib).pipe == if ib.None? then DONE else BUSY
  {
  }

  lemma {:induction false} SameExtends(dev: Device, g: Gpu)
    ensures Extends(dev, g, g, [])
  {
  }

  lemma {:induction false} IbExtends(dev: Device, g: Gpu, addr: nat, dwords: Word)
    ensures Extends(dev, g, RanIb(g, addr, dwords, dev.Cur()), [SeenIb(addr, dwords, UnderOf(dev, g), g.isProtected)])
  {
  }

  lemma {:induction false} StoreExtends(dev: Device, g: Gpu, id: nat, field: nat, v: Word, signal: Signal)
    requires dev.Valid() && id < KGSL_MEMSTORE_MAX + 5
    requires field == SOPTIMESTAMP || field == EOPTIMESTAMP
    ensures Extends(dev, g, g.Store(dev.IdAddr(id, field), v, signal), [Stored(dev.IdAddr(id, field), v, signal)])
  {
    FieldsApart(dev, id, field, dev.rbId + KGSL_MEMSTORE_MAX, CURRENT_CONTEXT);
  }

  /** The timestamps of a call as they are stored; the first one with `signal`. */
  function StampTrace(dev: Device, call: Call, ts: Word, field: nat, signal: Signal): seq<Seen> {
    (if call.ctx.Some? then [Stored(dev.IdAddr(call.ctx.value.id, field), call.timestamp, signal)] else [])
    + [Stored(dev.RbAddr(field), ts, if call.ctx.None? then signal else NoSignal)]
  }

  lemma {:induction false} StampedExtends(dev: Device, g: Gpu, call: Call, ts: Word, field: nat)
    requires dev.Valid() && call.Valid() && (field == SOPTIMESTAMP || field == EOPTIMESTAMP)
    ensures Extends(dev, g, Stamped(dev, g, call, ts, field), StampTrace(dev, call, ts, field, SignalAt(g, field)))
  {
    hide Extends;
    SameExtends(dev, g);
    var signal := SignalAt(g, field);
    var last := if call.ctx.None? then signal else NoSignal;
    var g1 := if call.ctx.Some? then g.Store(dev.IdAddr(call.ctx.value.id, field), call.timestamp, signal) else g;
    var t := if call.ctx.Some? then [Stored(dev.IdAddr(call.ctx.value.id, field), call.timestamp, signal)] else [];
    if call.ctx.Some? {
      StoreExtends(dev, g, call.ctx.value.id, field, call.timestamp, signal);
    }
    StoreExtends(dev, g1, dev.rbId + KGSL_MEMSTORE_MAX, field, ts, last);
    ExtendsTrans(dev, g, g1, Stamped(dev, g, call, ts, field), t, [Stored(dev.RbAddr(field), ts, last)]);
  }

  function ProfileTrace(ib: Option<ProfileIb>, u: Under, isProtected: bool): seq<Seen> {
    if ib.None? then [] else [SeenIb(ib.value.addr, ib.value.dwords, u, isProtected)]
  }

  lemma {:induction false} ProfileExtends(dev: Device, g: Gpu, ib: Option<ProfileIb>)
    ensures Extends(dev, g, AfterProfile(dev, g, ib), ProfileTrace(ib, UnderOf(dev, g), g.isProtected))
    ensures AfterProfile(dev, g, ib).isProtected == g.isProtected
  {
    hide Extends;
    SameExtends(dev, g);
    if ib.Some? {
      IbExtends(dev, g, ib.value.addr, ib.value.dwords);
    }
  }

  function FixupTrace(dev: Device, flags: Flags, u: Under): seq<Seen> {
    if flags.fixup then [SeenIb(dev.fixupAddr, dev.fixupDwords, u, false)] else []
  }

  lemma {:induction false} FixupExtends(dev: Device, g: Gpu, flags: Flags)
    ensures Extends(dev, g, AfterFixup(dev, g, flags), FixupTrace(dev, flags, UnderOf(dev, g)))
    ensures AfterFixup(dev, g, flags).isProtected == (g.isProtected && !flags.fixup)
  {
    hide Extends;
    SameExtends(dev, g);
    ProtectionExtends(dev, g, false);
    var g1 := g.(isProtected := false);
    IbExtends(dev, g1, dev.fixupAddr, dev.fixupDwords);
    ExtendsUnder(dev, g, g1, []);
    var t := [SeenIb(dev.fixupAddr, dev.fixupDwords, UnderOf(dev, g1), false)];
    ExtendsTrans(dev, g, g1, RanIb(g1, dev.fixupAddr, dev.fixupDwords, dev.Cur()), [], t);
    assert [] + t == t;
  }

  /** What is seen before the caller's commands. */
  function PrologueTrace(dev: Device, call: Call, ts: Word, u: Under, isProtected: bool): seq<Seen> {
    FixupTrace(dev, call.flags, u) + ProfileTrace(call.pre, u, isProtected && !call.flags.fixup)
    + StampTrace(dev, call, ts, SOPTIMESTAMP, NoSignal)
  }

  /** And after them. The interrupt comes when all has completed, unless a buffer of the profiler was just started. */
  function EpilogueTrace(dev: Device, call: Call, ts: Word, u: Under, isProtected: bool): seq<Seen> {
    ProfileTrace(call.post, u, isProtected || call.flags.notProtected)
    + StampTrace(dev, call, ts, EOPTIMESTAMP, Interrupt(call.post.None?))
  }

  lemma {:induction false} BegunExtends(dev: Device, g: Gpu, call: Call, ts: Word)
    requires dev.Valid() && call.Valid()
    ensures Extends(dev, g, Begun(dev, g, call, ts), PrologueTrace(dev, call, ts, UnderOf(dev, g), g.isProtected))
    ensures Begun(dev, g, call, ts).isProtected == (g.isProtected && !call.flags.fixup && !call.flags.notProtected)
  {
    hide Extends, AfterFixup, AfterProfile, FixupTrace, ProfileTrace, StampTrace;
    var u := UnderOf(dev, g);
    var g1 := AfterFixup(dev, g, call.flags);
    var g2 := AfterProfile(dev, g1, call.pre);
    var g3 := Stamped(dev, g2, call, ts, SOPTIMESTAMP);
    var a, b, c := FixupTrace(dev, call.flags, u), ProfileTrace(call.pre, u, g1.isProtected), StampTrace(dev, call, ts, SOPTIMESTAMP, NoSignal);
    FixupExtends(dev, g, call.flags);
    ExtendsUnder(dev, g, g1, a);
    ProfileExtends(dev, g1, call.pre);
    StampedExtends(dev, g2, call, ts, SOPTIMESTAMP);
    ExtendsTrans(dev, g, g1, g2, a, b);
    ExtendsTrans(dev, g, g2, g3, a + b, c);
    ProtectionExtends(dev, g3, false);
    ExtendsTrans(dev, g, g3, g3.(isProtected := false), a + b + c, []);
    assert a + b + c + [] == a + b + c;
  }

  lemma {:induction false} EndedExtends(dev: Device, g: Gpu, call: Call, ts: Word)
    requires dev.Valid() && call.Valid()
    ensures Extends(dev, g, Ended(dev, g, call, ts), EpilogueTrace(dev, call, ts, UnderOf(dev, g), g.isProtected))
    ensures Ended(dev, g, call, ts).isProtected == (g.isProtected || call.flags.notProtected)
  {
    hide Extends, AfterProfile, ProfileTrace, StampTrace;
    var u := UnderOf(dev, g);
    var g1 := (if call.flags.notProtected then g.(isProtected := true) else g).(pipe := DONE);
    var g2 := AfterProfile(dev, g1, call.post);
    var g3 := Stamped(dev, g2, call, ts, EOPTIMESTAMP);
    var b := ProfileTrace(call.post, u, g1.isProtected);
    var c := StampTrace(dev, call, ts, EOPTIMESTAMP, Interrupt(call.post.None?));
    PipeExtends(dev, g, g1.isProtected, DONE);
    ProfiledPipe(dev, g1, call.post);
    ExtendsUnder(dev, g, g1, []);
    ProfileExtends(dev, g1, call.post);
    StampedExtends(dev, g2, call, ts, EOPTIMESTAMP);
    ExtendsTrans(dev, g, g1, g2, [], b);
    assert [] + b == b;
    ExtendsTrans(dev, g, g2, g3, b, c);
    PipeExtends(dev, g3, g3.isProtected, RolledOver(g3, call.flags).pipe);
    ExtendsTrans(dev, g, g3, Ended(dev, g, call, ts), b + c, []);
    assert b + c + [] == b + c;
  }

  // ---------------------------------------------------------------- the trace of a command

  /** Buffers seen one after the other. */
  function BufferTrace(ibs: seq<IbEntry>, u: Under, isProtected: bool): seq<Seen> {
    seq(|ibs|, k requires 0 <= k < |ibs| => SeenIb(ibs[k].gpuaddr, Lower32(ibs[k].size / 4), u, isProtected))
  }

  /** Protection is on for the buffers if it was on before and the submission does not ask for it to be off. */
  predicate Protection(isProtected: bool, flags: Flags) {
    isProtected && !flags.fixup && !flags.notProtected
  }

  /** All that is seen of a command: prologue, its wanted buffers, epilogue. */
  function CommandTrace(dev: Device, s: Submission, w: Answers, ts: Word, u: Under, isProtected: bool): seq<Seen> {
    PrologueTrace(dev, CommandCall(s, w), ts, u, isProtected)
    + BufferTrace(Wanted(s.ibs, s.flags), u, Protection(isProtected, s.flags))
    + EpilogueTrace(dev, CommandCall(s, w), ts, u, Protection(isProtected, s.flags))
  }

  lemma {:induction false} RunsExtend(dev: Device, g: Gpu, ibs: seq<IbEntry>)
    ensures Runs(g, ibs, dev.Cur()) == BufferTrace(ibs, UnderOf(dev, g), g.isProtected)
    ensures Extends(dev, g, RanAll(g, ibs, dev.Cur()), BufferTrace(ibs, UnderOf(dev, g), g.isProtected))
    ensures RanAll(g, ibs, dev.Cur()).isProtected == g.isProtected
  {
    assert Runs(g, ibs, dev.Cur()) == BufferTrace(ibs, UnderOf(dev, g), g.isProtected);
  }

  function AfterCommand(dev: Device, g: Gpu, s: Submission, w: Answers, ts: Word): Gpu {
    var g1 := Begun(dev, g, CommandCall(s, w), ts);
    Ended(dev, RanAll(g1, Wanted(s.ibs, s.flags), dev.Cur()), CommandCall(s, w), ts)
  }

  /** Whatever state the GPU is in: a command the ring takes executes to its end and leaves exactly that trace. */
  lemma {:induction false} CommandMeans(dev: Device, g: Gpu, s: Submission, w: Answers, ts: Word)
    requires dev.Valid() && s.ctx.Valid()
    ensures var g' := AfterCommand(dev, g, s, w, ts);
      && Exec(g, Wrapped(dev, CommandCall(s, w), ts, IbCommands(s.ibs, s.flags)), dev.Cur()) == Some(g')
      && Extends(dev, g, g', CommandTrace(dev, s, w, ts, UnderOf(dev, g), g.isProtected))
  {
    hide Exec, Wrapped, IbCommands, Begun, Ended, RanAll, Runs, BufferTrace, Extends, PrologueTrace, EpilogueTrace, Wanted;
    var call, ibs, u := CommandCall(s, w), Wanted(s.ibs, s.flags), UnderOf(dev, g);
    var g1 := Begun(dev, g, call, ts);
    var g2 := RanAll(g1, ibs, dev.Cur());
    var a := PrologueTrace(dev, call, ts, u, g.isProtected);
    var b := BufferTrace(ibs, u, g1.isProtected);
    IbCommandsMean(g1, s.ibs, s.flags, dev.Cur());
    WrappedMeans(dev, g, call, ts, IbCommands(s.ibs, s.flags), g2);
    BegunExtends(dev, g, call, ts);
    ExtendsUnder(dev, g, g1, a);
    RunsExtend(dev, g1, ibs);
    ExtendsUnder(dev, g1, g2, b);
    EndedExtends(dev, g2, call, ts);
    ExtendsTrans(dev, g, g1, g2, a, b);
    ExtendsTrans(dev, g, g2, AfterCommand(dev, g, s, w, ts), a + b, EpilogueTrace(dev, call, ts, u, g1.isProtected));
  }

  // ---------------------------------------------------------------- the trace of a context switch

  predicate SameTable(active: Option<Context>, next: Context) {
    active.Some? && active.value.pagetable == next.pagetable
  }

  /** All that is seen of the context switch: the NOP buffer that stalls the prefetch and the new table, unless
      that stays; the context id, twice. */
  function SwitchedTrace(dev: Device, active: Option<Context>, next: Context, u: Under): seq<Seen> {
    (if SameTable(active, next) then [] else [SeenIb(dev.setstate, 2, u, false), TableSwitched(next.pagetable.ttbr0, Halted, false, true)])
    + [Stored(dev.Cur(), next.id, NoSignal), Stored(dev.IdAddr(KGSL_MEMSTORE_GLOBAL, CURRENT_CONTEXT), next.id, NoSignal)]
  }

  function SwitchTrace(dev: Device, active: Option<Context>, next: Context, ts: Word, u: Under): seq<Seen> {
    StampTrace(dev, SWITCH_CALL, ts, SOPTIMESTAMP, NoSignal) + SwitchedTrace(dev, active, next, u)
    + StampTrace(dev, SWITCH_CALL, ts, EOPTIMESTAMP, Interrupt(true))
  }

  /** What buffers meet after the switch. */
  function UnderAfterSwitch(u: Under, active: Option<Context>, next: Context): Under {
    if SameTable(active, next) then u.(context := Some(next.id)) else Proper(next)
  }

  lemma {:induction false} SwitchedLeaves(dev: Device, g: Gpu, active: Option<Context>, next: Context)
    requires dev.Valid() && next.Valid() && g.bus == Running && !g.isProtected
    ensures var g' := Switched(dev, g, active, next);
      && g'.seen == g.seen + SwitchedTrace(dev, active, next, UnderOf(dev, g)) && g'.bus == Running && !g'.isProtected
      && UnderOf(dev, g') == UnderAfterSwitch(UnderOf(dev, g), active, next)
  {
    FieldsApart(dev, dev.rbId + KGSL_MEMSTORE_MAX, CURRENT_CONTEXT, KGSL_MEMSTORE_GLOBAL, CURRENT_CONTEXT);
  }

  /** On a running bus a switch the ring takes executes to its end, leaves exactly that trace, and protection on. */
  lemma {:induction false} SwitchMeansTrace(dev: Device, g: Gpu, active: Option<Context>, next: Context, ts: Word)
    requires dev.Valid() && next.Valid() && g.bus == Running
    ensures var r := Exec(g, Wrapped(dev, SWITCH_CALL, ts, SwitchCommands(dev, active, next)), dev.Cur());
      && r.Some? && r.value.bus == Running && r.value.isProtected
      && r.value.seen == g.seen + SwitchTrace(dev, active, next, ts, UnderOf(dev, g))
      && UnderOf(dev, r.value) == UnderAfterSwitch(UnderOf(dev, g), active, next)
  {
    hide Exec, Wrapped, SwitchCommands, Switched, Begun, Ended, Extends, SwitchedTrace, StampTrace;
    var g1 := Begun(dev, g, SWITCH_CALL, ts);
    var g2 := Switched(dev, g1, active, next);
    var g3 := Ended(dev, g2, SWITCH_CALL, ts);
    var a, b, c := StampTrace(dev, SWITCH_CALL, ts, SOPTIMESTAMP, NoSignal), SwitchedTrace(dev, active, next, UnderOf(dev, g)),
      StampTrace(dev, SWITCH_CALL, ts, EOPTIMESTAMP, Interrupt(true));
    BegunExtends(dev, g, SWITCH_CALL, ts);
    assert PrologueTrace(dev, SWITCH_CALL, ts, UnderOf(dev, g), g.isProtected) == a;
    ExtendsUnder(dev, g, g1, a);
    SwitchMeans(dev, g1, active, next);
    SwitchedLeaves(dev, g1, active, next);
    WrappedMeans(dev, g, SWITCH_CALL, ts, SwitchCommands(dev, active, next), g2);
    EndedExtends(dev, g2, SWITCH_CALL, ts);
    assert EpilogueTrace(dev, SWITCH_CALL, ts, UnderOf(dev, g2), g2.isProtected) == c;
    ExtendsUnder(dev, g2, g3, c);
    Associative(g.seen, a, b);
    Associative(g.seen, a + b, c);
  }

  // ---------------------------------------------------------------- the trace of a submission

  /** The command reaches the ring: its context is active or can be made so. */
  predicate Reached(d: Driver, s: Submission, w: Answers) {
    d.active == Some(s.ctx) || (!w.detached && w.referenced)
  }

  predicate Attempted(d: Driver, s: Submission, w: Answers) {
    d.active != Some(s.ctx) && !w.detached && w.referenced
  }

  /** The ring takes the commands of the context switch. */
  predicate SwitchTaken(w: Answers) {
    !w.switchFault && w.switchRoom
  }

  predicate CommandTaken(d: Driver, s: Submission, w: Answers) {
    Reached(d, s, w) && !w.commandRefused && w.commandRoom
  }

  /** What the buffers of the command meet, if `u` is what buffers met before the submission. */
  function Met(d: Driver, s: Submission, w: Answers, u: Under): Under {
    if Attempted(d, s, w) && SwitchTaken(w) then UnderAfterSwitch(u, d.active, s.ctx) else u
  }

  predicate ProtectedThen(d: Driver, s: Submission, w: Answers, isProtected: bool) {
    isProtected || (Attempted(d, s, w) && SwitchTaken(w))
  }

  /** All that is seen of a submission. */
  function SubmissionTrace(dev: Device, d: Driver, s: Submission, w: Answers, u: Under, isProtected: bool): seq<Seen> {
    (if Attempted(d, s, w) && SwitchTaken(w) then SwitchTrace(dev, d.active, s.ctx, NextTimestamp(d.timestamp), u) else [])
    + (if CommandTaken(d, s, w)
       then CommandTrace(dev, s, w, Submit(dev, d, s, w).driver.timestamp, Met(d, s, w, u), ProtectedThen(d, s, w, isProtected))
       else [])
  }

  lemma {:induction false} SwitchPart(dev: Device, g: Gpu, d: Driver, s: Submission, w: Answers)
    requires dev.Valid() && s.ctx.Valid() && g.bus == Running
    ensures var e := Submit(dev, d, s, w); var r := Exec(g, if e.switch.Some? then e.switch.value else [], dev.Cur());
      && r.Some? && r.value.bus == Running && UnderOf(dev, r.value) == Met(d, s, w, UnderOf(dev, g))
      && r.value.isProtected == ProtectedThen(d, s, w, g.isProtected)
      && r.value.seen == g.seen + (if Attempted(d, s, w) && SwitchTaken(w)
                                   then SwitchTrace(dev, d.active, s.ctx, NextTimestamp(d.timestamp), UnderOf(dev, g)) else [])
  {
    hide Exec, Wrapped, IbCommands, SwitchCommands, SwitchTrace;
    ExecNothing(g, dev.Cur());
    assert g.seen + [] == g.seen;
    SwitchMeansTrace(dev, g, d.active, s.ctx, NextTimestamp(d.timestamp));
  }

  lemma {:induction false} CommandPart(dev: Device, d: Driver, s: Submission, w: Answers)
    ensures var e := Submit(dev, d, s, w);
      && (e.command.Some? <==> CommandTaken(d, s, w))
      && (e.command.Some? ==> e.command.value == Wrapped(dev, CommandCall(s, w), e.driver.timestamp, IbCommands(s.ibs, s.flags)))
  {
    hide Wrapped, IbCommands, SwitchCommands;
  }

  /** Whatever is refused: what the ring received executes to its end and leaves exactly the trace of the submission. */
  lemma {:induction false} SubmissionMeans(dev: Device, g: Gpu, d: Driver, s: Submission, w: Answers)
    requires dev.Valid() && s.ctx.Valid() && g.bus == Running
    ensures var r := Exec(g, Submit(dev, d, s, w).Issued(), dev.Cur());
      && r.Some? && r.value.bus == Running && UnderOf(dev, r.value) == Met(d, s, w, UnderOf(dev, g))
      && r.value.seen == g.seen + SubmissionTrace(dev, d, s, w, UnderOf(dev, g), g.isProtected)
  {
    hide Exec, Submit, Wrapped, IbCommands, SwitchTrace, CommandTrace, Met, ProtectedThen, Attempted, CommandTaken, Extends, AfterCommand;
    var e, cur := Submit(dev, d, s, w), dev.Cur();
    var sw, cmd := if e.switch.Some? then e.switch.value else [], if e.command.Some? then e.command.value else [];
    SwitchPart(dev, g, d, s, w);
    CommandPart(dev, d, s, w);
    var g1 := Exec(g, sw, cur).value;
    ExecConcat(g, sw, cmd, cur);
    ExecNothing(g1, cur);
    var a := if Attempted(d, s, w) && SwitchTaken(w)
             then SwitchTrace(dev, d.active, s.ctx, NextTimestamp(d.timestamp), UnderOf(dev, g)) else [];
    if e.command.Some? {
      var ts := e.driver.timestamp;
      var b := CommandTrace(dev, s, w, ts, UnderOf(dev, g1), g1.isProtected);
      CommandMeans(dev, g1, s, w, ts);
      ExtendsUnder(dev, g1, AfterCommand(dev, g1, s, w, ts), b);
      Associative(g.seen, a, b);
    } else {
      assert a + [] == a;
    }
  }

  // ---------------------------------------------------------------- every run

  /** Events of a run. A reset forgets the active context (adreno_set_active_ctxs_null); the GPU comes back in any
      state with its bus running. */
  datatype Event = Submitted(s: Submission, w: Answers) | Reset(g: Gpu)

  ghost predicate RunStep(dev: Device, d: Driver, g: Gpu, ev: Event, d': Driver, g': Gpu) {
    match ev
    case Submitted(s, w) =>
      var e := Submit(dev, d, s, w);
      s.ctx.Valid() && d' == e.driver && Exec(g, e.Issued(), dev.Cur()) == Some(g')
    case Reset(r) =>
      d' == d.(active := None) && g' == r && r.bus == Running && r.seen == g.seen
  }

  /** A run, whatever is refused in it, the GPU keeping up with what is issued. */
  ghost predicate Run(dev: Device, evs: seq<Event>, ds: seq<Driver>, gs: seq<Gpu>) {
    && dev.Valid() && |ds| == |gs| == |evs| + 1
    && ds[0].active.None? && gs[0].bus == Running && gs[0].seen == []
    && forall k | 0 <= k < |evs| :: RunStep(dev, ds[k], gs[k], evs[k], ds[k + 1], gs[k + 1])
  }

  lemma {:induction false} RunKeepsBus(dev: Device, evs: seq<Event>, ds: seq<Driver>, gs: seq<Gpu>, n: nat)
    requires Run(dev, evs, ds, gs) && n < |gs|
    ensures gs[n].bus == Running
  {
    hide Submit, Exec, SubmissionTrace, Met;
    if n > 0 {
      RunKeepsBus(dev, evs, ds, gs, n - 1);
      assert RunStep(dev, ds[n - 1], gs[n - 1], evs[n - 1], ds[n - 1 + 1], gs[n - 1 + 1]);
      match evs[n - 1]
      case Submitted(s, w) => SubmissionMeans(dev, gs[n - 1], ds[n - 1], s, w);
      case Reset(_) =>
    }
  }

  /** Progress: in every state of a run, every submission executes to its end, waiting for nothing that cannot come. */
  lemma {:induction false} SubmissionsTerminate(dev: Device, evs: seq<Event>, ds: seq<Driver>, gs: seq<Gpu>, n: nat,
                                                s: Submission, w: Answers)
    requires Run(dev, evs, ds, gs) && n < |gs| && s.ctx.Valid()
    ensures Exec(gs[n], Submit(dev, ds[n], s, w).Issued(), dev.Cur()).Some?
  {
    hide Submit, Exec, SubmissionTrace, Met;
    RunKeepsBus(dev, evs, ds, gs, n);
    SubmissionMeans(dev, gs[n], ds[n], s, w);
  }

  /** The exact trace of every run, whatever is refused. */
  lemma {:induction false} TraceOverRuns(dev: Device, evs: seq<Event>, ds: seq<Driver>, gs: seq<Gpu>, n: nat)
    requires Run(dev, evs, ds, gs) && n < |evs|
    ensures match evs[n]
      case Submitted(s, w) =>
        && gs[n + 1].seen == gs[n].seen + SubmissionTrace(dev, ds[n], s, w, UnderOf(dev, gs[n]), gs[n].isProtected)
        && UnderOf(dev, gs[n + 1]) == Met(ds[n], s, w, UnderOf(dev, gs[n]))
      case Reset(_) => gs[n + 1].seen == gs[n].seen
  {
    hide Submit, Exec, SubmissionTrace, Met;
    RunKeepsBus(dev, evs, ds, gs, n);
    assert RunStep(dev, ds[n], gs[n], evs[n], ds[n + 1], gs[n + 1]);
    match evs[n]
    case Submitted(s, w) => SubmissionMeans(dev, gs[n], ds[n], s, w);
    case Reset(_) =>
  }

  // ---------------------------------------------------------------- page tables are switched safely

  lemma {:induction false} NoSwitchInCommand(dev: Device, s: Submission, w: Answers, ts: Word, u: Under, isProtected: bool)
    ensures WellSwitched(CommandTrace(dev, s, w, ts, u, isProtected))
  {
    hide Wanted, SwitchedWell, Device.IdAddr, Device.RbAddr;
    var call, p := CommandCall(s, w), Protection(isProtected, s.flags);
    var a, b := PrologueTrace(dev, call, ts, u, isProtected), BufferTrace(Wanted(s.ibs, s.flags), u, p);
    assert WellSwitched(a) && WellSwitched(b);
    WellSwitchedConcat(a, b);
    WellSwitchedConcat(a + b, EpilogueTrace(dev, call, ts, u, p));
  }

  lemma {:induction false} SubmissionSwitchesWell(dev: Device, d: Driver, s: Submission, w: Answers, u: Under, isProtected: bool)
    ensures WellSwitched(SubmissionTrace(dev, d, s, w, u, isProtected))
  {
    hide CommandTrace, Submit;
    var a := if Attempted(d, s, w) && SwitchTaken(w) then SwitchTrace(dev, d.active, s.ctx, NextTimestamp(d.timestamp), u) else [];
    var ts := Submit(dev, d, s, w).driver.timestamp;
    var b := if CommandTaken(d, s, w) then CommandTrace(dev, s, w, ts, Met(d, s, w, u), ProtectedThen(d, s, w, isProtected)) else [];
    NoSwitchInCommand(dev, s, w, ts, Met(d, s, w, u), ProtectedThen(d, s, w, isProtected));
    WellSwitchedConcat(a, b);
  }

  /** Over every run page tables are only ever switched with the bus halted, protection off and the pipeline idle. */
  lemma {:induction false} TablesSwitchedSafely(dev: Device, evs: seq<Event>, ds: seq<Driver>, gs: seq<Gpu>, n: nat)
    requires Run(dev, evs, ds, gs) && n < |gs|
    ensures WellSwitched(gs[n].seen)
  {
    hide RunStep, SubmissionTrace, Met;
    if n > 0 {
      TablesSwitchedSafely(dev, evs, ds, gs, n - 1);
      TraceOverRuns(dev, evs, ds, gs, n - 1);
      match evs[n - 1]
      case Submitted(s, w) =>
        SubmissionSwitchesWell(dev, ds[n - 1], s, w, UnderOf(dev, gs[n - 1]), gs[n - 1].isProtected);
        WellSwitchedConcat(gs[n - 1].seen, SubmissionTrace(dev, ds[n - 1], s, w, UnderOf(dev, gs[n - 1]), gs[n - 1].isProtected));
      case Reset(_) =>
    }
  }

  // ---------------------------------------------------------------- runs whose context switches are taken

  /** Every context switch the first `n` submissions attempted was taken by the ring. */
  ghost predicate SwitchesTaken(evs: seq<Event>, ds: seq<Driver>, n: nat)
    requires n <= |evs| <= |ds|
  {
    forall k | 0 <= k < n && evs[k].Submitted? && Attempted(ds[k], evs[k].s, evs[k].w) :: SwitchTaken(evs[k].w)
  }

  lemma {:induction false} SwitchesTakenBefore(evs: seq<Event>, ds: seq<Driver>, m: nat, n: nat)
    requires m <= n <= |evs| <= |ds| && SwitchesTaken(evs, ds, n)
    ensures SwitchesTaken(evs, ds, m)
  {
  }

  /** Then the GPU is always set up for the active context. */
  lemma {:induction false} ActiveContextIsSetUp(dev: Device, evs: seq<Event>, ds: seq<Driver>, gs: seq<Gpu>, n: nat)
    requires Run(dev, evs, ds, gs) && n <= |evs| && SwitchesTaken(evs, ds, n)
    ensures ds[n].active.Some? ==> UnderOf(dev, gs[n]) == Proper(ds[n].active.value)
  {
    hide Exec, Wrapped, IbCommands, SwitchCommands, SubmissionTrace;
    if n > 0 {
      SwitchesTakenBefore(evs, ds, n - 1, n);
      ActiveContextIsSetUp(dev, evs, ds, gs, n - 1);
      TraceOverRuns(dev, evs, ds, gs, n - 1);
      assert RunStep(dev, ds[n - 1], gs[n - 1], evs[n - 1], ds[n - 1 + 1], gs[n - 1 + 1]);
    }
  }

  /** The trace a submission must leave: the switch if its context was not active, then its command under its own
      page table, as its own context, on a running bus and with a clean TLB. */
  function ProperTrace(dev: Device, d: Driver, s: Submission, w: Answers, u: Under, isProtected: bool): seq<Seen> {
    (if Attempted(d, s, w) then SwitchTrace(dev, d.active, s.ctx, NextTimestamp(d.timestamp), u) else [])
    + (if CommandTaken(d, s, w)
       then CommandTrace(dev, s, w, Submit(dev, d, s, w).driver.timestamp, Proper(s.ctx), ProtectedThen(d, s, w, isProtected))
       else [])
  }

  /** Over every run whose context switches are taken, each submission leaves exactly the trace it must: its wanted
      buffers, which are those `Picks` describes, run in order and once each, and besides them only the buffers of the
      prologue and the epilogue. */
  lemma {:induction false} BuffersRunProperly(dev: Device, evs: seq<Event>, ds: seq<Driver>, gs: seq<Gpu>, n: nat)
    requires Run(dev, evs, ds, gs) && n < |evs| && SwitchesTaken(evs, ds, n + 1) && evs[n].Submitted?
    ensures gs[n + 1].seen == gs[n].seen + ProperTrace(dev, ds[n], evs[n].s, evs[n].w, UnderOf(dev, gs[n]), gs[n].isProtected)
    ensures exists at: seq<nat> :: Picks(at, evs[n].s.ibs, evs[n].s.flags) && Wanted(evs[n].s.ibs, evs[n].s.flags) == Picked(evs[n].s.ibs, at)
  {
    hide RunStep, Submit, SwitchTrace, CommandTrace, Picks, Wanted;
    var at := WantedArePicked(evs[n].s.ibs, evs[n].s.flags);
    SwitchesTakenBefore(evs, ds, n, n + 1);
    ActiveContextIsSetUp(dev, evs, ds, gs, n);
    TraceOverRuns(dev, evs, ds, gs, n);
  }

  /** `e` is the NOP buffer that stalls the prefetch before a page-table switch. */
  predicate IsStall(dev: Device, e: Seen) {
    e.Ran? && e.addr == Lower32(dev.setstate) && e.dwords == 2
  }

  /** `e` is a buffer of the submission `s`: one of its wanted buffers, the fixup if it asks for it, or one of the
      profiler's; and it met what a buffer of `s` must meet. */
  predicate BufferOf(dev: Device, s: Submission, w: Answers, e: Seen) {
    && e.Ran? && Under(e.ttbr0, e.context, e.ready) == Proper(s.ctx)
    && (|| (exists ib | ib in Wanted(s.ibs, s.flags) :: e.addr == Lower32(ib.gpuaddr) && e.dwords == Lower32(ib.size / 4))
        || (s.flags.fixup && e.addr == Lower32(dev.fixupAddr) && e.dwords == dev.fixupDwords)
        || (w.pre.Some? && e.addr == Lower32(w.pre.value.addr) && e.dwords == w.pre.value.dwords)
        || (w.post.Some? && e.addr == Lower32(w.post.value.addr) && e.dwords == w.post.value.dwords))
  }

  lemma {:induction false} CommandRunsItsOwn(dev: Device, s: Submission, w: Answers, ts: Word, isProtected: bool, e: Seen)
    requires e in CommandTrace(dev, s, w, ts, Proper(s.ctx), isProtected) && e.Ran?
    ensures BufferOf(dev, s, w, e)
  {
    hide Wanted;
    var ibs := Wanted(s.ibs, s.flags);
    var b := BufferTrace(ibs, Proper(s.ctx), Protection(isProtected, s.flags));
    if e in b {
      var k :| 0 <= k < |b| && b[k] == e;
      assert ibs[k] in ibs;
    }
  }

  lemma {:induction false} ProperTraceRunsItsOwn(dev: Device, d: Driver, s: Submission, w: Answers, u: Under, isProtected: bool, e: Seen)
    requires e in ProperTrace(dev, d, s, w, u, isProtected) && e.Ran?
    ensures IsStall(dev, e) || BufferOf(dev, s, w, e)
  {
    hide CommandTrace, Submit, BufferOf;
    var ts, p := Submit(dev, d, s, w).driver.timestamp, ProtectedThen(d, s, w, isProtected);
    if e in CommandTrace(dev, s, w, ts, Proper(s.ctx), p) {
      CommandRunsItsOwn(dev, s, w, ts, p, e);
    }
  }

  /** Safety over every run whose context switches are taken: apart from the stalling NOP, whatever ran is a buffer
      of some submission, and ran with the page table of its context, as that context, with the bus released and
      the TLB invalidated. */
  lemma {:induction false} WhateverRanWasProper(dev: Device, evs: seq<Event>, ds: seq<Driver>, gs: seq<Gpu>, n: nat, e: Seen)
    requires Run(dev, evs, ds, gs) && n <= |evs| && SwitchesTaken(evs, ds, n)
    requires e in gs[n].seen && e.Ran?
    ensures IsStall(dev, e) || exists k | 0 <= k < n && evs[k].Submitted? :: BufferOf(dev, evs[k].s, evs[k].w, e)
  {
    hide RunStep, BufferOf, IsStall, SwitchesTaken;
    if n > 0 {
      SwitchesTakenBefore(evs, ds, n - 1, n);
      if e in gs[n - 1].seen {
        WhateverRanWasProper(dev, evs, ds, gs, n - 1, e);
      } else {
        EventRanProperly(dev, evs, ds, gs, n - 1, e);
      }
    }
  }

  lemma {:induction false} EventRanProperly(dev: Device, evs: seq<Event>, ds: seq<Driver>, gs: seq<Gpu>, n: nat, e: Seen)
    requires Run(dev, evs, ds, gs) && n < |evs| && SwitchesTaken(evs, ds, n + 1)
    requires e in gs[n + 1].seen && e !in gs[n].seen && e.Ran?
    ensures evs[n].Submitted? && (IsStall(dev, e) || BufferOf(dev, evs[n].s, evs[n].w, e))
  {
    hide RunStep, SubmissionTrace, Met, ProperTrace, BufferOf, IsStall, SwitchesTaken;
    TraceOverRuns(dev, evs, ds, gs, n);
    match evs[n]
    case Submitted(s, w) =>
      BuffersRunProperly(dev, evs, ds, gs, n);
      ProperTraceRunsItsOwn(dev, ds[n], s, w, UnderOf(dev, gs[n]), gs[n].isProtected, e);
    case Reset(_) =>
  }

  // ---------------------------------------------------------------- a refused switch

  /** Two traces of the same buffers are equal exactly when the buffers met the same, or there are none. */
  lemma {:induction false} BufferTracesDiffer(ibs: seq<IbEntry>, u: Under, v: Under, isProtected: bool)
    ensures BufferTrace(ibs, u, isProtected) == BufferTrace(ibs, v, isProtected) <==> u == v || ibs == []
  {
    var a, b := BufferTrace(ibs, u, isProtected), BufferTrace(ibs, v, isProtected);
    if a == b && ibs != [] {
      assert a[0] == b[0];
    }
  }

  /** Two traces of the same command, which wants a buffer, are equal exactly when it met the same. */
  lemma {:induction false} CommandTracesDiffer(dev: Device, s: Submission, w: Answers, ts: Word, u: Under, v: Under, isProtected: bool)
    requires Wanted(s.ibs, s.flags) != []
    ensures CommandTrace(dev, s, w, ts, u, isProtected) == CommandTrace(dev, s, w, ts, v, isProtected) <==> u == v
  {
    hide PrologueTrace, EpilogueTrace, BufferTrace, Wanted;
    var ibs, p := Wanted(s.ibs, s.flags), Protection(isProtected, s.flags);
    var call := CommandCall(s, w);
    PrologueLength(dev, call, ts, u, v, isProtected);
    BufferTracesDiffer(ibs, u, v, p);
    var a, a' := PrologueTrace(dev, call, ts, u, isProtected), PrologueTrace(dev, call, ts, v, isProtected);
    var b, b' := BufferTrace(ibs, u, p), BufferTrace(ibs, v, p);
    var c, c' := EpilogueTrace(dev, call, ts, u, p), EpilogueTrace(dev, call, ts, v, p);
    BufferLength(ibs, u, p);
    BufferLength(ibs, v, p);
    if a + b + c == a' + b' + c' {
      assert b == (a + b + c)[|a|..|a| + |b|] && b' == (a' + b' + c')[|a|..|a| + |b|];
    }
  }

  lemma {:induction false} BufferLength(ibs: seq<IbEntry>, u: Under, isProtected: bool)
    ensures |BufferTrace(ibs, u, isProtected)| == |ibs|
  {
  }

  lemma {:induction false} PrologueLength(dev: Device, call: Call, ts: Word, u: Under, v: Under, isProtected: bool)
    ensures |PrologueTrace(dev, call, ts, u, isProtected)| == |PrologueTrace(dev, call, ts, v, isProtected)|
  {
  }

  /** The exact condition for the command of `s` to meet what it must, when `u` is what commands met before. If the
      switch was made, its new page table must have been written, or be there already with a clean TLB; if not, the
      GPU must be set up for the context already, whether or not it is the active one. */
  predicate MeetsItsOwn(d: Driver, s: Submission, w: Answers, u: Under) {
    if Attempted(d, s, w) && SwitchTaken(w)
    then !SameTable(d.active, s.ctx) || (u.ttbr0 == s.ctx.pagetable.ttbr0 && u.ready)
    else u == Proper(s.ctx)
  }

  /** From any state whatever: the wanted buffers meet what they must if and only if that holds, or there are none. */
  lemma {:induction false} ProperIffSwitchTaken(d: Driver, s: Submission, w: Answers, u: Under, isProtected: bool)
    ensures Met(d, s, w, u) == Proper(s.ctx) <==> MeetsItsOwn(d, s, w, u)
    ensures BufferTrace(Wanted(s.ibs, s.flags), Met(d, s, w, u), isProtected)
              == BufferTrace(Wanted(s.ibs, s.flags), Proper(s.ctx), isProtected)
            <==> MeetsItsOwn(d, s, w, u) || Wanted(s.ibs, s.flags) == []
  {
    hide BufferTrace, Wanted;
    BufferTracesDiffer(Wanted(s.ibs, s.flags), Met(d, s, w, u), Proper(s.ctx), isProtected);
  }

  /** What commands meet after `n` events: computed from what the driver was answered, the state the GPU had at first
      and the states it came back in from resets. */
  function UnderAt(dev: Device, evs: seq<Event>, ds: seq<Driver>, start: Under, n: nat): Under
    requires n <= |evs| <= |ds|
  {
    if n == 0 then start
    else match evs[n - 1]
      case Submitted(s, w) => Met(ds[n - 1], s, w, UnderAt(dev, evs, ds, start, n - 1))
      case Reset(g) => UnderOf(dev, g)
  }

  lemma {:induction false} UnderOverRuns(dev: Device, evs: seq<Event>, ds: seq<Driver>, gs: seq<Gpu>, n: nat)
    requires Run(dev, evs, ds, gs) && n <= |evs|
    ensures UnderOf(dev, gs[n]) == UnderAt(dev, evs, ds, UnderOf(dev, gs[0]), n)
  {
    hide Submit, Exec, SubmissionTrace, Met;
    if n > 0 {
      UnderOverRuns(dev, evs, ds, gs, n - 1);
      TraceOverRuns(dev, evs, ds, gs, n - 1);
      assert RunStep(dev, ds[n - 1], gs[n - 1], evs[n - 1], ds[n - 1 + 1], gs[n - 1 + 1]);
    }
  }

  /** What is seen of a submission before its command. */
  function SwitchSeen(dev: Device, d: Driver, s: Submission, w: Answers, u: Under): seq<Seen> {
    if Attempted(d, s, w) && SwitchTaken(w) then SwitchTrace(dev, d.active, s.ctx, NextTimestamp(d.timestamp), u) else []
  }

  /** Over every run, whatever is refused: a command the ring takes leaves the trace it must, its wanted buffers with
      its own page table and as its own context, if and only if `MeetsItsOwn`, which the driver's answers since the
      last reset decide. */
  lemma {:induction false} RunsAsItMustIff(dev: Device, evs: seq<Event>, ds: seq<Driver>, gs: seq<Gpu>, n: nat)
    requires Run(dev, evs, ds, gs) && n < |evs| && evs[n].Submitted? && CommandTaken(ds[n], evs[n].s, evs[n].w)
    requires Wanted(evs[n].s.ibs, evs[n].s.flags) != []
    ensures var d, s, w, u := ds[n], evs[n].s, evs[n].w, UnderAt(dev, evs, ds, UnderOf(dev, gs[0]), n);
      gs[n + 1].seen == gs[n].seen + SwitchSeen(dev, d, s, w, u)
                        + CommandTrace(dev, s, w, ds[n + 1].timestamp, Proper(s.ctx), ProtectedThen(d, s, w, gs[n].isProtected))
      <==> MeetsItsOwn(d, s, w, u)
  {
    hide RunStep, Submit, SwitchTrace, CommandTrace, Met, Wanted, MeetsItsOwn;
    var d, s, w, u := ds[n], evs[n].s, evs[n].w, UnderAt(dev, evs, ds, UnderOf(dev, gs[0]), n);
    RunTimestamp(dev, evs, ds, gs, n);
    UnderOverRuns(dev, evs, ds, gs, n);
    TraceOverRuns(dev, evs, ds, gs, n);
    ProperIffSwitchTaken(d, s, w, u, false);
    var ts, p := ds[n + 1].timestamp, ProtectedThen(d, s, w, gs[n].isProtected);
    CommandTracesDiffer(dev, s, w, ts, Met(d, s, w, u), Proper(s.ctx), p);
    SuffixesDiffer(gs[n].seen, SwitchSeen(dev, d, s, w, u), CommandTrace(dev, s, w, ts, Met(d, s, w, u), p),
                   CommandTrace(dev, s, w, ts, Proper(s.ctx), p));
  }

  lemma {:induction false} RunTimestamp(dev: Device, evs: seq<Event>, ds: seq<Driver>, gs: seq<Gpu>, n: nat)
    requires Run(dev, evs, ds, gs) && n < |evs| && evs[n].Submitted?
    ensures ds[n + 1] == Submit(dev, ds[n], evs[n].s, evs[n].w).driver
  {
    hide Submit, Exec;
    assert RunStep(dev, ds[n], gs[n], evs[n], ds[n + 1], gs[n + 1]);
  }

  lemma {:induction false} SuffixesDiffer(a: seq<Seen>, b: seq<Seen>, c: seq<Seen>, c': seq<Seen>)
    ensures a + (b + c) == a + b + c
    ensures a + b + c == a + b + c' <==> c == c'
  {
    if a + b + c == a + b + c' {
      assert c == (a + b + c)[|a + b|..] && c' == (a + b + c')[|a + b|..];
    }
  }

  /** Answers that refuse nothing but, perhaps, the room for the context switch. */
  function Yes(switchRoom: bool): Answers {
    Answers(false, true, false, switchRoom, false, true, None, None)
  }

  /** The submission of one buffer, without flags. */
  function OneBuffer(ctx: Context, ib: IbEntry): Submission {
    Submission(ctx, [ib], Flags(false, false, false, false, false), 0)
  }

  lemma {:induction false} OneIsWanted(ctx: Context, ib: IbEntry)
    requires !ib.skip && !ib.preamble
    ensures Wanted(OneBuffer(ctx, ib).ibs, OneBuffer(ctx, ib).flags) == [ib]
  {
    assert [ib][1..] == [];
    assert [ib] + Wanted([], OneBuffer(ctx, ib).flags) == [ib];
  }

  /** `e` is the run of `ib` with the page table of `c`, as `c`, on a running bus and with a clean TLB. */
  predicate RanAs(e: Seen, ib: IbEntry, c: Context) {
    && e.Ran? && e.addr == Lower32(ib.gpuaddr) && e.dwords == Lower32(ib.size / 4)
    && Under(e.ttbr0, e.context, e.ready) == Proper(c)
  }

  /** `ib` ran as `c`, and nothing ran otherwise. */
  ghost predicate OnlyRanAs(t: seq<Seen>, ib: IbEntry, c: Context) {
    (exists e | e in t :: RanAs(e, ib, c)) && forall e | e in t && e.Ran? :: RanAs(e, ib, c)
  }

  lemma {:induction false} OneBufferRan(dev: Device, ctx: Context, ib: IbEntry, room: bool, ts: Word, c: Context, isProtected: bool)
    requires !ib.skip && !ib.preamble
    ensures OnlyRanAs(CommandTrace(dev, OneBuffer(ctx, ib), Yes(room), ts, Proper(c), isProtected), ib, c)
  {
    hide Wanted;
    var s := OneBuffer(ctx, ib);
    OneIsWanted(ctx, ib);
    var b := BufferTrace([ib], Proper(c), Protection(isProtected, s.flags));
    assert RanAs(b[0], ib, c) && forall e | e in b :: e == b[0];
    assert b[0] in CommandTrace(dev, s, Yes(room), ts, Proper(c), isProtected);
  }

  lemma {:induction false} ActiveAfter(dev: Device, d: Driver, s: Submission, w: Answers)
    requires !w.detached && w.referenced
    ensures Submit(dev, d, s, w).driver.active == Some(s.ctx)
  {
    hide Wrapped, IbCommands, SwitchCommands;
  }

  /** The run that shows it, for any two contexts, buffer and state of the GPU: `c1` is switched to; the ring refuses
      the switch to `c2` but takes its command; `c2` submits again. Both times its buffer runs with the table of `c1`
      and as `c1`: the second time no switch is even attempted. */
  lemma {:induction false} RefusedSwitchMisattributes(dev: Device, c1: Context, c2: Context, ib: IbEntry, g: Gpu)
    returns (ds: seq<Driver>, gs: seq<Gpu>)
    requires dev.Valid() && c1.Valid() && c2.Valid() && c1 != c2 && g.bus == Running && g.seen == []
    requires !ib.skip && !ib.preamble
    ensures Run(dev, [Submitted(OneBuffer(c1, ib), Yes(true)), Submitted(OneBuffer(c2, ib), Yes(false)),
                      Submitted(OneBuffer(c2, ib), Yes(true))], ds, gs) && gs[0] == g
    ensures gs[1].seen <= gs[2].seen && OnlyRanAs(gs[2].seen[|gs[1].seen|..], ib, c1)
    ensures gs[2].seen <= gs[3].seen && OnlyRanAs(gs[3].seen[|gs[2].seen|..], ib, c1)
  {
    hide Exec, Submit, CommandTrace, Run, Wanted, OnlyRanAs;
    var s1, s2 := OneBuffer(c1, ib), OneBuffer(c2, ib);
    var evs := [Submitted(s1, Yes(true)), Submitted(s2, Yes(false)), Submitted(s2, Yes(true))];
    var d1 := Submit(dev, Driver(None, 0), s1, Yes(true)).driver;
    var d2 := Submit(dev, d1, s2, Yes(false)).driver;
    var d3 := Submit(dev, d2, s2, Yes(true)).driver;
    ds := [Driver(None, 0), d1, d2, d3];
    gs := StreamMakesARun(dev, evs, ds, g);
    ActiveAfter(dev, ds[0], s1, Yes(true));
    ActiveAfter(dev, ds[1], s2, Yes(false));
    TraceOverRuns(dev, evs, ds, gs, 0);
    assert UnderOf(dev, gs[1]) == Proper(c1);
    Misattributed(dev, evs, ds, gs, 1, c1, c2, ib);
    Misattributed(dev, evs, ds, gs, 2, c1, c2, ib);
  }

  /** A submission of `c2` whose switch is refused or not attempted, on a GPU set up for `c1`. */
  lemma {:induction false} Misattributed(dev: Device, evs: seq<Event>, ds: seq<Driver>, gs: seq<Gpu>, n: nat,
                                         c1: Context, c2: Context, ib: IbEntry)
    requires Run(dev, evs, ds, gs) && n < |evs| && !ib.skip && !ib.preamble
    requires exists room :: evs[n] == Submitted(OneBuffer(c2, ib), Yes(room)) && (room ==> ds[n].active == Some(c2))
    requires UnderOf(dev, gs[n]) == Proper(c1)
    ensures gs[n].seen <= gs[n + 1].seen && OnlyRanAs(gs[n + 1].seen[|gs[n].seen|..], ib, c1)
    ensures UnderOf(dev, gs[n + 1]) == Proper(c1)
  {
    hide RunStep, Submit, CommandTrace, Wanted, OnlyRanAs;
    var s, w := evs[n].s, evs[n].w;
    TraceOverRuns(dev, evs, ds, gs, n);
    var p := ProtectedThen(ds[n], s, w, gs[n].isProtected);
    var ts := Submit(dev, ds[n], s, w).driver.timestamp;
    var t := CommandTrace(dev, s, w, ts, Proper(c1), p);
    OneBufferRan(dev, c2, ib, w.switchRoom, ts, c1, p);
    assert [] + t == t;
    assert (gs[n].seen + t)[|gs[n].seen|..] == t;
  }

  // ---------------------------------------------------------------- timestamps

  /** The driver's side of a run: no GPU, and anything may be refused. */
  ghost predicate DriverRun(dev: Device, evs: seq<Event>, ds: seq<Driver>) {
    && |ds| == |evs| + 1
    && forall k | 0 <= k < |evs| ::
         ds[k + 1] == (if evs[k].Submitted? then Submit(dev, ds[k], evs[k].s, evs[k].w).driver else ds[k].(active := None))
  }

  /** All packets issued by the first `n` events of a run. */
  function AllIssued(dev: Device, evs: seq<Event>, ds: seq<Driver>, n: nat): seq<Packet>
    requires n <= |evs| <= |ds|
  {
    if n == 0 then []
    else AllIssued(dev, evs, ds, n - 1)
         + (if evs[n - 1].Submitted? then Submit(dev, ds[n - 1], evs[n - 1].s, evs[n - 1].w).Issued() else [])
  }

  lemma {:induction false} AllIssuedPrefix(dev: Device, evs: seq<Event>, ds: seq<Driver>, evs': seq<Event>, ds': seq<Driver>, n: nat)
    requires n <= |evs| <= |ds| && |evs'| <= |ds'| && evs <= evs' && ds <= ds'
    ensures AllIssued(dev, evs', ds', n) == AllIssued(dev, evs, ds, n)
  {
    hide Submit;
    if n > 0 {
      AllIssuedPrefix(dev, evs, ds, evs', ds', n - 1);
      assert evs'[n - 1] == evs[n - 1] && ds'[n - 1] == ds[n - 1];
    }
  }

  lemma {:induction false} AllIssuedSnoc(dev: Device, evs: seq<Event>, ds: seq<Driver>, s: Submission, w: Answers)
    requires DriverRun(dev, evs, ds)
    ensures var e := Submit(dev, ds[|evs|], s, w); var evs', ds' := evs + [Submitted(s, w)], ds + [e.driver];
      && DriverRun(dev, evs', ds') && |ds| == |evs| + 1
      && AllIssued(dev, evs', ds', |evs'|) == AllIssued(dev, evs, ds, |evs|) + e.Issued()
  {
    hide Submit, Effect.Issued;
    AllIssuedPrefix(dev, evs, ds, evs + [Submitted(s, w)], ds + [Submit(dev, ds[|evs|], s, w).driver], |evs|);
  }

  lemma {:induction false} EmptyRun(dev: Device, ds: seq<Driver>, g: Gpu)
    requires dev.Valid() && |ds| == 1 && ds[0].active.None? && g.bus == Running && g.seen == []
    ensures Run(dev, [], ds, [g])
  {
  }

  lemma {:induction false} RunSnoc(dev: Device, evs: seq<Event>, ds: seq<Driver>, gs: seq<Gpu>, n: nat, g': Gpu)
    requires n + 1 == |evs| == |gs| && |ds| == n + 2 && Run(dev, evs[..n], ds[..n + 1], gs)
    requires RunStep(dev, ds[n], gs[n], evs[n], ds[n + 1], g')
    ensures Run(dev, evs, ds, gs + [g'])
  {
    hide RunStep;
    var gs' := gs + [g'];
    forall k | 0 <= k < |evs| ensures RunStep(dev, ds[k], gs'[k], evs[k], ds[k + 1], gs'[k + 1]) {
      if k < n {
        assert RunStep(dev, ds[..n + 1][k], gs[k], evs[..n][k], ds[..n + 1][k + 1], gs[k + 1]);
      }
    }
  }

  /** Any submissions whatever: executing what they issue, in one stream, is a run. */
  lemma {:induction false} StreamMakesARun(dev: Device, evs: seq<Event>, ds: seq<Driver>, g: Gpu) returns (gs: seq<Gpu>)
    requires dev.Valid() && DriverRun(dev, evs, ds) && ds[0].active.None? && g.bus == Running && g.seen == []
    requires forall k | 0 <= k < |evs| :: evs[k].Submitted? && evs[k].s.ctx.Valid()
    ensures Run(dev, evs, ds, gs) && |gs| == |evs| + 1 && gs[0] == g
    ensures Exec(g, AllIssued(dev, evs, ds, |evs|), dev.Cur()) == Some(gs[|evs|])
    decreases |evs|
  {
    hide Submit, Exec, SubmissionTrace, Met, Run, Effect.Issued;
    if evs == [] {
      gs := [g];
      ExecNothing(g, dev.Cur());
      EmptyRun(dev, ds, g);
    } else {
      var n := |evs| - 1;
      var before := StreamMakesARun(dev, evs[..n], ds[..n + 1], g);
      RunKeepsBus(dev, evs[..n], ds[..n + 1], before, n);
      assert evs[n].Submitted?;
      var s, w := evs[n].s, evs[n].w;
      SubmissionMeans(dev, before[n], ds[n], s, w);
      AllIssuedPrefix(dev, evs[..n], ds[..n + 1], evs, ds, n);
      ExecConcat(g, AllIssued(dev, evs, ds, n), Submit(dev, ds[n], s, w).Issued(), dev.Cur());
      var g' := Exec(before[n], Submit(dev, ds[n], s, w).Issued(), dev.Cur()).value;
      RunSnoc(dev, evs, ds, before, n, g');
      gs := before + [g'];
    }
  }

  /** The ring timestamps a submission stores, in order: the switch's, then the command's. */
  function RingStamps(dev: Device, d: Driver, s: Submission, w: Answers): seq<Word> {
    (if Attempted(d, s, w) && SwitchTaken(w) then [NextTimestamp(d.timestamp)] else [])
    + (if CommandTaken(d, s, w) then [Submit(dev, d, s, w).driver.timestamp] else [])
  }

  /** Those of the first `n` events of a run. */
  function AllStamps(dev: Device, evs: seq<Event>, ds: seq<Driver>, n: nat): seq<Word>
    requires n <= |evs| <= |ds|
  {
    if n == 0 then []
    else AllStamps(dev, evs, ds, n - 1)
         + (if evs[n - 1].Submitted? then RingStamps(dev, ds[n - 1], evs[n - 1].s, evs[n - 1].w) else [])
  }

  ghost predicate Ascending(ts: seq<Word>) {
    forall i, j | 0 <= i < j < |ts| :: ts[i] < ts[j]
  }

  /** The timestamps of one submission: the switch's is below the command's, and both are new. */
  lemma {:induction false} StampsOfOne(dev: Device, d: Driver, s: Submission, w: Answers)
    requires d.timestamp + 2 < 0x1_0000_0000
    ensures var e := Submit(dev, d, s, w); var ts := RingStamps(dev, d, s, w);
      && d.timestamp <= e.driver.timestamp <= d.timestamp + 2
      && Ascending(ts) && forall k | 0 <= k < |ts| :: d.timestamp < ts[k] <= e.driver.timestamp
  {
    hide Wrapped, IbCommands, SwitchCommands;
  }

  /** Ring timestamps grow strictly over a run, whatever is refused, until the 32-bit counter wraps. */
  lemma {:induction false} TimestampsIncrease(dev: Device, evs: seq<Event>, ds: seq<Driver>, n: nat)
    requires DriverRun(dev, evs, ds) && n <= |evs| && ds[0].timestamp + 2 * |evs| < 0x1_0000_0000
    ensures ds[0].timestamp <= ds[n].timestamp <= ds[0].timestamp + 2 * n
    ensures var ts := AllStamps(dev, evs, ds, n);
      Ascending(ts) && forall k | 0 <= k < |ts| :: ds[0].timestamp < ts[k] <= ds[n].timestamp
  {
    hide Submit, RingStamps;
    if n > 0 {
      TimestampsIncrease(dev, evs, ds, n - 1);
      if evs[n - 1].Submitted? {
        StampsOfOne(dev, ds[n - 1], evs[n - 1].s, evs[n - 1].w);
      }
    }
  }

  /** The values stored in the ring's end-timestamp word, in order. */
  function EndStamps(dev: Device, t: seq<Seen>): seq<Word> {
    if t == [] then [] else EndStamp(dev, t[0]) + EndStamps(dev, t[1..])
  }

  function EndStamp(dev: Device, e: Seen): seq<Word> {
    if e.Stored? && e.addr == dev.RbAddr(EOPTIMESTAMP) then [e.value] else []
  }

  lemma {:induction false} EndStampsConcat(dev: Device, a: seq<Seen>, b: seq<Seen>)
    ensures EndStamps(dev, a + b) == EndStamps(dev, a) + EndStamps(dev, b)
    decreases |a|
  {
    hide EndStamp;
    if a == [] {
      assert a + b == b;
    } else {
      EndStampsConcat(dev, a[1..], b);
      assert (a + b)[0] == a[0] && (a + b)[1..] == a[1..] + b;
      StampsAssociative(EndStamp(dev, a[0]), EndStamps(dev, a[1..]), EndStamps(dev, b));
    }
  }

  lemma {:induction false} StampsAssociative(a: seq<Word>, b: seq<Word>, c: seq<Word>)
    ensures a + (b + c) == (a + b) + c
  {
  }

  /** No end timestamp of the ring among `t`. */
  ghost predicate NoEnd(dev: Device, t: seq<Seen>) {
    forall k | 0 <= k < |t| :: EndStamp(dev, t[k]) == []
  }

  lemma {:induction false} NoEndStamps(dev: Device, t: seq<Seen>)
    requires NoEnd(dev, t)
    ensures EndStamps(dev, t) == []
    decreases |t|
  {
    hide EndStamp;
    if t != [] {
      NoEndStamps(dev, t[1..]);
    }
  }

  /** The end timestamps of what a call leaves before and after its commands. */
  lemma {:induction false} StampTraceEnds(dev: Device, call: Call, ts: Word, field: nat, signal: Signal)
    requires dev.Valid() && call.Valid() && (field == SOPTIMESTAMP || field == EOPTIMESTAMP)
    ensures EndStamps(dev, StampTrace(dev, call, ts, field, signal)) == if field == EOPTIMESTAMP then [ts] else []
  {
    var rb := dev.rbId + KGSL_MEMSTORE_MAX;
    var a := if call.ctx.Some? then [Stored(dev.IdAddr(call.ctx.value.id, field), call.timestamp, signal)] else [];
    var b := [Stored(dev.RbAddr(field), ts, if call.ctx.None? then signal else NoSignal)];
    if call.ctx.Some? {
      FieldsApart(dev, call.ctx.value.id, field, rb, EOPTIMESTAMP);
    }
    FieldsApart(dev, rb, field, rb, EOPTIMESTAMP);
    hide Device.IdAddr;
    NoEndStamps(dev, a);
    EndStampsConcat(dev, a, b);
    assert b[1..] == [];
    assert EndStamp(dev, b[0]) == if field == EOPTIMESTAMP then [ts] else [];
  }

  lemma {:induction false} CommandEndStamps(dev: Device, s: Submission, w: Answers, ts: Word, u: Under, isProtected: bool)
    requires dev.Valid() && s.ctx.Valid()
    ensures EndStamps(dev, CommandTrace(dev, s, w, ts, u, isProtected)) == [ts]
  {
    hide EndStamps, StampTrace, Wanted;
    var call, p := CommandCall(s, w), Protection(isProtected, s.flags);
    var a := FixupTrace(dev, call.flags, u) + ProfileTrace(call.pre, u, isProtected && !call.flags.fixup);
    var b, c, d := StampTrace(dev, call, ts, SOPTIMESTAMP, NoSignal), BufferTrace(Wanted(s.ibs, s.flags), u, p), ProfileTrace(call.post, u, p || call.flags.notProtected);
    var e := StampTrace(dev, call, ts, EOPTIMESTAMP, Interrupt(call.post.None?));
    NoEndStamps(dev, a);
    StampTraceEnds(dev, call, ts, SOPTIMESTAMP, NoSignal);
    NoEndStamps(dev, c);
    NoEndStamps(dev, d);
    StampTraceEnds(dev, call, ts, EOPTIMESTAMP, Interrupt(call.post.None?));
    EndStampsConcat(dev, a, b);
    EndStampsConcat(dev, a + b, c);
    EndStampsConcat(dev, d, e);
    EndStampsConcat(dev, a + b + c, d + e);
  }

  lemma {:induction false} SwitchEndStamps(dev: Device, active: Option<Context>, next: Context, ts: Word, u: Under)
    requires dev.Valid()
    ensures EndStamps(dev, SwitchTrace(dev, active, next, ts, u)) == [ts]
  {
    hide EndStamps, StampTrace;
    var a, b, c := StampTrace(dev, SWITCH_CALL, ts, SOPTIMESTAMP, NoSignal), SwitchedTrace(dev, active, next, u),
      StampTrace(dev, SWITCH_CALL, ts, EOPTIMESTAMP, Interrupt(true));
    StampTraceEnds(dev, SWITCH_CALL, ts, SOPTIMESTAMP, NoSignal);
    SwitchedTraceEnds(dev, active, next, u);
    StampTraceEnds(dev, SWITCH_CALL, ts, EOPTIMESTAMP, Interrupt(true));
    EndStampsConcat(dev, a, b);
    EndStampsConcat(dev, a + b, c);
  }

  lemma {:induction false} SwitchedTraceEnds(dev: Device, active: Option<Context>, next: Context, u: Under)
    requires dev.Valid()
    ensures EndStamps(dev, SwitchedTrace(dev, active, next, u)) == []
  {
    var rb := dev.rbId + KGSL_MEMSTORE_MAX;
    FieldsApart(dev, rb, CURRENT_CONTEXT, rb, EOPTIMESTAMP);
    FieldsApart(dev, KGSL_MEMSTORE_GLOBAL, CURRENT_CONTEXT, rb, EOPTIMESTAMP);
    hide Device.IdAddr, EndStamps;
    NoEndStamps(dev, SwitchedTrace(dev, active, next, u));
  }

  lemma {:induction false} SubmissionEndStamps(dev: Device, d: Driver, s: Submission, w: Answers, u: Under, isProtected: bool)
    requires dev.Valid() && s.ctx.Valid()
    ensures EndStamps(dev, SubmissionTrace(dev, d, s, w, u, isProtected)) == RingStamps(dev, d, s, w)
  {
    hide Submit, CommandTrace, SwitchTrace, EndStamps;
    var a := if Attempted(d, s, w) && SwitchTaken(w) then SwitchTrace(dev, d.active, s.ctx, NextTimestamp(d.timestamp), u) else [];
    var ts, p := Submit(dev, d, s, w).driver.timestamp, ProtectedThen(d, s, w, isProtected);
    var b := if CommandTaken(d, s, w) then CommandTrace(dev, s, w, ts, Met(d, s, w, u), p) else [];
    NoEndStamps(dev, []);
    SwitchEndStamps(dev, d.active, s.ctx, NextTimestamp(d.timestamp), u);
    CommandEndStamps(dev, s, w, ts, Met(d, s, w, u), p);
    EndStampsConcat(dev, a, b);
  }

  /** Over every run, whatever is refused: the values the ring's end-timestamp word takes are exactly the timestamps
      of what the ring received, in that order and once each. */
  lemma {:induction false} StampsAreSeen(dev: Device, evs: seq<Event>, ds: seq<Driver>, gs: seq<Gpu>, n: nat)
    requires Run(dev, evs, ds, gs) && n <= |evs|
    ensures EndStamps(dev, gs[n].seen) == AllStamps(dev, evs, ds, n)
  {
    hide Submit, Exec, SubmissionTrace, RingStamps, Met, EndStamps;
    if n == 0 {
      NoEndStamps(dev, []);
    } else {
      StampsAreSeen(dev, evs, ds, gs, n - 1);
      TraceOverRuns(dev, evs, ds, gs, n - 1);
      assert RunStep(dev, ds[n - 1], gs[n - 1], evs[n - 1], ds[n - 1 + 1], gs[n - 1 + 1]);
      match evs[n - 1]
      case Submitted(s, w) =>
        var u, p := UnderOf(dev, gs[n - 1]), gs[n - 1].isProtected;
        SubmissionEndStamps(dev, ds[n - 1], s, w, u, p);
        EndStampsConcat(dev, gs[n - 1].seen, SubmissionTrace(dev, ds[n - 1], s, w, u, p));
      case Reset(_) =>
        assert AllStamps(dev, evs, ds, n - 1) + [] == AllStamps(dev, evs, ds, n - 1);
    }
  }

  // ---------------------------------------------------------------- interrupts

  predicate Interrupts(e: Seen) {
    e.Stored? && e.signal.Interrupt?
  }

  /** The stores that came with an interrupt, in order. */
  function Signalled(t: seq<Seen>): seq<Seen> {
    if t == [] then [] else SignalIn(t[0]) + Signalled(t[1..])
  }

  function SignalIn(e: Seen): seq<Seen> {
    if Interrupts(e) then [e] else []
  }

  lemma {:induction false} SignalledConcat(a: seq<Seen>, b: seq<Seen>)
    ensures Signalled(a + b) == Signalled(a) + Signalled(b)
    decreases |a|
  {
    hide SignalIn;
    if a == [] {
      assert a + b == b;
    } else {
      SignalledConcat(a[1..], b);
      assert (a + b)[0] == a[0] && (a + b)[1..] == a[1..] + b;
      Associative(SignalIn(a[0]), Signalled(a[1..]), Signalled(b));
    }
  }

  lemma {:induction false} SilentIsNotSignalled(t: seq<Seen>)
    requires forall k | 0 <= k < |t| :: !Interrupts(t[k])
    ensures Signalled(t) == []
    decreases |t|
  {
    hide Interrupts;
    if t != [] {
      SilentIsNotSignalled(t[1..]);
    }
  }

  /** Silence, then a last part. */
  lemma {:induction false} SignalledLast(a: seq<Seen>, b: seq<Seen>)
    requires forall k | 0 <= k < |a| :: !Interrupts(a[k])
    ensures Signalled(a + b) == Signalled(b)
  {
    SignalledConcat(a, b);
    SilentIsNotSignalled(a);
  }

  /** A call interrupts once, with the end timestamp of its context, or of the ring if it is an internal one; and then
      all its buffers have completed, unless the profiler has just started one. */
  function SignalOf(dev: Device, call: Call, ts: Word): Seen {
    if call.ctx.Some? then Stored(dev.IdAddr(call.ctx.value.id, EOPTIMESTAMP), call.timestamp, Interrupt(call.post.None?))
    else Stored(dev.RbAddr(EOPTIMESTAMP), ts, Interrupt(call.post.None?))
  }

  lemma {:induction false} StampTraceSignals(dev: Device, call: Call, ts: Word)
    ensures Signalled(StampTrace(dev, call, ts, EOPTIMESTAMP, Interrupt(call.post.None?))) == [SignalOf(dev, call, ts)]
  {
    hide Device.IdAddr, Device.RbAddr;
    var t := StampTrace(dev, call, ts, EOPTIMESTAMP, Interrupt(call.post.None?));
    assert t[0] == SignalOf(dev, call, ts) && Interrupts(t[0]);
    SilentIsNotSignalled(t[1..]);
  }

  lemma {:induction false} CommandSignals(dev: Device, s: Submission, w: Answers, ts: Word, u: Under, isProtected: bool)
    ensures Signalled(CommandTrace(dev, s, w, ts, u, isProtected)) == [SignalOf(dev, CommandCall(s, w), ts)]
  {
    hide Signalled, Wanted, Device.IdAddr, Device.RbAddr;
    var call, p := CommandCall(s, w), Protection(isProtected, s.flags);
    var a, b := PrologueTrace(dev, call, ts, u, isProtected), BufferTrace(Wanted(s.ibs, s.flags), u, p);
    var c, d := ProfileTrace(call.post, u, p || call.flags.notProtected), StampTrace(dev, call, ts, EOPTIMESTAMP, Interrupt(call.post.None?));
    assert a + b + (c + d) == (a + b + c) + d;
    SignalledLast(a + b + c, d);
    StampTraceSignals(dev, call, ts);
  }

  lemma {:induction false} SwitchSignals(dev: Device, active: Option<Context>, next: Context, ts: Word, u: Under)
    ensures Signalled(SwitchTrace(dev, active, next, ts, u)) == [SignalOf(dev, SWITCH_CALL, ts)]
  {
    hide Signalled, Device.IdAddr, Device.RbAddr;
    var a, b := StampTrace(dev, SWITCH_CALL, ts, SOPTIMESTAMP, NoSignal), SwitchedTrace(dev, active, next, u);
    SignalledLast(a + b, StampTrace(dev, SWITCH_CALL, ts, EOPTIMESTAMP, Interrupt(true)));
    StampTraceSignals(dev, SWITCH_CALL, ts);
  }

  /** The interrupts of one submission: one for the switch if the ring takes it, one for the command if it takes that. */
  function SignalsOf(dev: Device, d: Driver, s: Submission, w: Answers): seq<Seen> {
    (if Attempted(d, s, w) && SwitchTaken(w) then [Stored(dev.RbAddr(EOPTIMESTAMP), NextTimestamp(d.timestamp), Interrupt(true))] else [])
    + (if CommandTaken(d, s, w) then [Stored(dev.IdAddr(s.ctx.id, EOPTIMESTAMP), s.timestamp, Interrupt(w.post.None?))] else [])
  }

  /** Those of the first `n` events of a run. */
  function AllSignals(dev: Device, evs: seq<Event>, ds: seq<Driver>, n: nat): seq<Seen>
    requires n <= |evs| <= |ds|
  {
    if n == 0 then []
    else AllSignals(dev, evs, ds, n - 1)
         + (if evs[n - 1].Submitted? then SignalsOf(dev, ds[n - 1], evs[n - 1].s, evs[n - 1].w) else [])
  }

  lemma {:induction false} SubmissionSignals(dev: Device, d: Driver, s: Submission, w: Answers, u: Under, isProtected: bool)
    ensures Signalled(SubmissionTrace(dev, d, s, w, u, isProtected)) == SignalsOf(dev, d, s, w)
    ensures |SignalsOf(dev, d, s, w)| == |RingStamps(dev, d, s, w)|
  {
    hide Submit, CommandTrace, SwitchTrace, Signalled, Attempted, SwitchTaken, CommandTaken, Device.IdAddr, Device.RbAddr;
    var a := if Attempted(d, s, w) && SwitchTaken(w) then SwitchTrace(dev, d.active, s.ctx, NextTimestamp(d.timestamp), u) else [];
    var ts, p := Submit(dev, d, s, w).driver.timestamp, ProtectedThen(d, s, w, isProtected);
    var b := if CommandTaken(d, s, w) then CommandTrace(dev, s, w, ts, Met(d, s, w, u), p) else [];
    SilentIsNotSignalled([]);
    SwitchSignals(dev, d.active, s.ctx, NextTimestamp(d.timestamp), u);
    CommandSignals(dev, s, w, ts, Met(d, s, w, u), p);
    SignalledConcat(a, b);
  }

  /** Over every run, whatever is refused: each context switch and each command the ring received raised exactly one
      interrupt, in that order, with the store of its end timestamp, when all its buffers had completed but perhaps one
      of the profiler; nothing else interrupted. */
  lemma {:induction false} OneInterruptEach(dev: Device, evs: seq<Event>, ds: seq<Driver>, gs: seq<Gpu>, n: nat)
    requires Run(dev, evs, ds, gs) && n <= |evs|
    ensures Signalled(gs[n].seen) == AllSignals(dev, evs, ds, n)
    ensures |AllSignals(dev, evs, ds, n)| == |AllStamps(dev, evs, ds, n)|
  {
    hide Submit, Exec, SubmissionTrace, RingStamps, SignalsOf, Met, Signalled;
    if n == 0 {
      SilentIsNotSignalled([]);
    } else {
      OneInterruptEach(dev, evs, ds, gs, n - 1);
      TraceOverRuns(dev, evs, ds, gs, n - 1);
      assert RunStep(dev, ds[n - 1], gs[n - 1], evs[n - 1], ds[n - 1 + 1], gs[n - 1 + 1]);
      match evs[n - 1]
      case Submitted(s, w) =>
        var u, p := UnderOf(dev, gs[n - 1]), gs[n - 1].isProtected;
        SubmissionSignals(dev, ds[n - 1], s, w, u, p);
        SignalledConcat(gs[n - 1].seen, SubmissionTrace(dev, ds[n - 1], s, w, u, p));
      case Reset(_) =>
        assert AllSignals(dev, evs, ds, n - 1) + [] == AllSignals(dev, evs, ds, n - 1);
    }
  }
}

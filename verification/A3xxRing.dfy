/** The ring buffer of adreno_ringbuffer.c and the submission path of adreno_a3xx_ringbuffer.c on it. The GPU
    fetches packets at its own pace; what it fetched and what is pending is always exactly what was issued. */
module A3xxRing {
  import opened FstTypes
  import opened Pm4
  import opened A3xxGpu
  import opened A3xxStream
  import opened A3xxRuns
  import opened A3xxBuild

  const KGSL_RB_DWORDS: nat := 8192
  const A3XX_SUBMIT_MAX: nat := 55

  /** Packets without effect: what remains of a stream when its NOPs are taken out. */
  function Strip(ps: seq<Packet>): seq<Packet> {
    if ps == [] then [] else StripOne(ps[0]) + Strip(ps[1..])
  }

  function StripOne(p: Packet): seq<Packet> {
    if p.Pkt3? && p.opcode == CP_NOP then [] else [p]
  }

  lemma {:induction false} StripMore(p: Packet, ps: seq<Packet>)
    ensures Strip([p] + ps) == StripOne(p) + Strip(ps)
  {
    hide StripOne;
    assert ([p] + ps)[1..] == ps;
  }

  lemma {:induction false} StripConcat(a: seq<Packet>, b: seq<Packet>)
    ensures Strip(a + b) == Strip(a) + Strip(b)
    decreases |a|
  {
    hide StripOne;
    if a == [] {
      assert a + b == b;
    } else {
      var one, rest := StripOne(a[0]), a[1..];
      StripConcat(rest, b);
      StripMore(a[0], rest + b);
      Associative([a[0]], rest, b);
      assert [a[0]] + rest == a;
      Associative(one, Strip(rest), Strip(b));
    }
  }

  /** A stream grew by packets that mean `ps`. */
  ghost predicate Grew(before: seq<Packet>, after: seq<Packet>, ps: seq<Packet>) {
    before <= after && Strip(after[|before|..]) == Strip(ps)
  }

  lemma {:induction false} GrewNothing(a: seq<Packet>)
    ensures Grew(a, a, [])
  {
  }

  lemma {:induction false} GrewBy(a: seq<Packet>, more: seq<Packet>, ps: seq<Packet>)
    requires Strip(more) == Strip(ps)
    ensures Grew(a, a + more, ps)
  {
    assert (a + more)[|a|..] == more;
  }

  lemma {:induction false} GrewTwice(a: seq<Packet>, b: seq<Packet>, c: seq<Packet>, ps: seq<Packet>, qs: seq<Packet>)
    requires Grew(a, b, ps) && Grew(b, c, qs)
    ensures Grew(a, c, ps + qs)
  {
    hide Strip;
    assert c[|a|..] == b[|a|..] + c[|b|..];
    StripConcat(b[|a|..], c[|b|..]);
    StripConcat(ps, qs);
  }

  /** NOPs may be added to or removed from a stream without changing what it means. */
  lemma {:induction false} StripMeansTheSame(g: Gpu, ps: seq<Packet>, cur: Word)
    ensures Exec(g, ps, cur) == Exec(g, Strip(ps), cur)
    decreases |ps|
  {
    if ps != [] {
      var first := StripOne(ps[0]);
      var g' := Do(g, ps[0], cur);
      if g'.Some? {
        StripMeansTheSame(g'.value, ps[1..], cur);
      }
      ExecConcat(g, first, Strip(ps[1..]), cur);
      ExecOne(g, ps[0], cur);
      ExecNothing(g, cur);
    }
  }

  /** What the ring holds, with the NOPs that cover its end, means what was asked. */
  lemma {:induction false} SameMeaning(g: Gpu, ring: seq<Packet>, asked: seq<Packet>, cur: Word)
    requires Strip(ring) == Strip(asked)
    ensures Exec(g, ring, cur) == Exec(g, asked, cur)
  {
    StripMeansTheSame(g, ring, cur);
    StripMeansTheSame(g, asked, cur);
  }

  /** The words between the read and the write pointer, in the order the GPU fetches them. */
  ghost function Pending(s: seq<Word>, rptr: nat, wptr: nat): (seq<Word>, seq<Word>)
    requires rptr <= |s| && wptr <= |s|
  {
    if rptr <= wptr then (s[rptr..wptr], []) else (s[rptr..], s[..wptr])
  }

  /** The pending words are whole packets, `queued`; none crosses the end of the ring. */
  ghost predicate Queue(s: seq<Word>, rptr: nat, wptr: nat, queued: seq<Packet>) {
    && |s| == KGSL_RB_DWORDS && rptr < KGSL_RB_DWORDS && wptr <= KGSL_RB_DWORDS - 2
    && var (a, b) := Pending(s, rptr, wptr);
       Append(Decode(a), Decode(b)) == Some(queued)
  }

  /** New packets right behind the pending ones, the rest of the ring up to the read pointer untouched. */
  lemma {:induction false} QueueGrows(s: seq<Word>, s': seq<Word>, rptr: nat, wptr: nat, wptr': nat, queued: seq<Packet>,
                                      ps: seq<Packet>)
    requires Queue(s, rptr, wptr, queued) && |s'| == |s| && wptr <= wptr' <= KGSL_RB_DWORDS - 2
    requires rptr <= wptr || wptr' < rptr
    requires s'[..wptr'] == s[..wptr] + EncodeAll(ps)
    requires forall k | wptr' <= k < |s| && rptr > wptr :: s'[k] == s[k]
    ensures Queue(s', rptr, wptr', queued + ps)
  {
    hide Decode, EncodeAll;
    DecodeEncodeAll(ps, []);
    assert EncodeAll(ps) + [] == EncodeAll(ps);
    DecodeOfNothing();
    if rptr <= wptr {
      assert s'[rptr..wptr'] == s[rptr..wptr] + EncodeAll(ps) by {
        assert s'[rptr..wptr'] == s'[..wptr'][rptr..];
        assert s[rptr..wptr] == s[..wptr][rptr..];
      }
      DecodeConcat(s[rptr..wptr], EncodeAll(ps));
      RightUnit(Decode(s[rptr..wptr]));
      RightUnit(Decode(s'[rptr..wptr']));
    } else {
      assert s'[rptr..] == s[rptr..];
      DecodeConcat(s[..wptr], EncodeAll(ps));
      AppendAssociative(Decode(s[rptr..]), Decode(s[..wptr]), Some(ps));
    }
    RightUnit(Some(ps));
  }

  lemma {:induction false} DecodeOfNothing()
    ensures Decode([]) == Some([])
  {
  }

  lemma {:induction false} RightUnit(a: Option<seq<Packet>>)
    ensures Append(a, Some([])) == a
  {
    if a.Some? {
      assert a.value + [] == a.value;
    }
  }

  /** Starting over at the beginning of the ring: a NOP fills it up to its end, and the new packets follow. */
  lemma {:induction false} QueueWraps(s: seq<Word>, s': seq<Word>, rptr: nat, wptr: nat, wptr': nat, queued: seq<Packet>,
                                      ps: seq<Packet>, filler: Packet)
    requires Queue(s, rptr, wptr, queued) && |s'| == |s| && wptr' < rptr <= wptr
    requires filler == Pkt3(CP_NOP, s[wptr + 1..]) && s'[wptr] == Type3(CP_NOP, KGSL_RB_DWORDS - wptr - 1)
    requires s'[..wptr'] == EncodeAll(ps)
    requires forall k | wptr' <= k < |s| && k != wptr :: s'[k] == s[k]
    ensures Queue(s', rptr, wptr', queued + [filler] + ps)
  {
    hide Decode, EncodeAll;
    DecodesBack(ps);
    DecodeOfNothing();
    RightUnit(Decode(s[rptr..wptr]));
    assert s'[rptr..] == s[rptr..wptr] + Encode(filler) by {
      assert s'[rptr..wptr] == s[rptr..wptr];
      assert s'[wptr + 1..] == s[wptr + 1..] == filler.data;
      assert s'[wptr..] == [s'[wptr]] + s'[wptr + 1..];
      assert s'[rptr..] == s'[rptr..wptr] + s'[wptr..];
    }
    DecodeHead(filler, []);
    RightUnit(Some([filler]));
    assert Encode(filler) + [] == Encode(filler);
    DecodeConcat(s[rptr..wptr], Encode(filler));
  }

  /** Either way: `more` is what the ring received, `alloc` its words after the allocation of space at `at`. */
  lemma {:induction false} QueueAfter(was: seq<Word>, alloc: seq<Word>, now: seq<Word>, rptr: nat, wptr: nat, at: nat, end: nat,
                                      queued: seq<Packet>, ps: seq<Packet>) returns (more: seq<Packet>)
    requires Queue(was, rptr, wptr, queued) && |now| == |alloc| == |was| && at <= end <= |now|
    requires (at == wptr && alloc == was && (if rptr <= at then end <= KGSL_RB_DWORDS - 2 else end < rptr)) ||
             (at == 0 && end < rptr <= wptr <= KGSL_RB_DWORDS - 2 && |was| == KGSL_RB_DWORDS &&
              alloc == was[wptr := Type3(CP_NOP, KGSL_RB_DWORDS - wptr - 1)])
    requires now[..end] == alloc[..at] + EncodeAll(ps) && forall k | end <= k < |now| :: now[k] == alloc[k]
    ensures Queue(now, rptr, end, queued + more) && Strip(more) == Strip(ps)
  {
    hide Queue, EncodeAll, Strip;
    QueueBounds(was, rptr, wptr, queued);
    if at == wptr && alloc == was {
      more := ps;
      QueueGrows(was, now, rptr, wptr, end, queued, ps);
    } else {
      var filler: Packet := Pkt3(CP_NOP, was[wptr + 1..]);
      more := [filler] + ps;
      assert alloc[..0] + EncodeAll(ps) == EncodeAll(ps);
      QueueWraps(was, now, rptr, wptr, end, queued, ps, filler);
      FillerStripped(filler, ps);
      Associative(queued, [filler], ps);
    }
  }

  lemma {:induction false} DecodeTail(a: seq<Word>)
    requires Decode(a).Some? && a != []
    ensures var ps := Decode(a).value;
      ps != [] && |ps[0].data| == Count(a[0]) && 1 + |ps[0].data| <= |a| && Decode(a[1 + |ps[0].data|..]) == Some(ps[1..])
  {
    var n := Count(a[0]);
    assert Decode(a).value[1..] == Decode(a[n + 1..]).value;
  }

  /** What the GPU fetches next: the first queued packet, and the read pointer behind it. */
  lemma {:induction false} QueueShrinks(s: seq<Word>, rptr: nat, wptr: nat, queued: seq<Packet>)
    requires Queue(s, rptr, wptr, queued) && rptr != wptr
    ensures queued != [] && |queued[0].data| == Count(s[rptr])
    ensures rptr + 1 + |queued[0].data| <= KGSL_RB_DWORDS
    ensures Queue(s, (rptr + 1 + |queued[0].data|) % KGSL_RB_DWORDS, wptr, queued[1..])
  {
    hide Decode;
    var a := Pending(s, rptr, wptr).0;
    var ps := Decode(a).value;
    DecodeTail(a);
    DecodeOfNothing();
    RightUnit(Decode(a));
    var r := rptr + 1 + |ps[0].data|;
    if rptr <= wptr {
      RightUnit(Some(ps[1..]));
      assert a[1 + |ps[0].data|..] == s[r..wptr];
    } else {
      var qs := Decode(s[..wptr]).value;
      assert (ps + qs)[0] == ps[0] && (ps + qs)[1..] == ps[1..] + qs;
      if r < KGSL_RB_DWORDS {
        assert a[1 + |ps[0].data|..] == s[r..];
      } else {
        assert a[1 + |ps[0].data|..] == [] && s[0..wptr] == s[..wptr];
        AppendAssociative(None, None, Some(qs));
        RightUnit(Some(qs));
      }
    }
  }

  lemma {:induction false} QueueBounds(s: seq<Word>, rptr: nat, wptr: nat, queued: seq<Packet>)
    requires Queue(s, rptr, wptr, queued)
    ensures |s| == KGSL_RB_DWORDS && rptr < KGSL_RB_DWORDS && wptr <= KGSL_RB_DWORDS - 2
  {
  }

  // ---------------------------------------------------------------- room in the ring

  /** adreno_ringbuffer_allocspace finds room for `dwords` between the write and the read pointer. */
  predicate Room(rptr: nat, wptr: nat, dwords: nat) {
    || (rptr <= wptr && (wptr + dwords <= KGSL_RB_DWORDS - 2 || dwords < rptr))
    || wptr + dwords < rptr
  }

  /** Where it is: behind what is pending, or at the start when the tail of the ring is too short. */
  function Place(rptr: nat, wptr: nat, dwords: nat): nat {
    if rptr <= wptr && wptr + dwords > KGSL_RB_DWORDS - 2 then 0 else wptr
  }

  predicate IsPending(rptr: nat, wptr: nat, k: nat) {
    if rptr <= wptr then rptr <= k < wptr else rptr <= k || k < wptr
  }

  /** `dwords` words at `at` lie behind the pending ones, or at the start of the ring with its tail given up, overlap
      nothing that is pending, and moving the write pointer to their end makes them pending and drops nothing. */
  ghost predicate Appends(rptr: nat, wptr: nat, at: nat, dwords: nat) {
    && at + dwords <= KGSL_RB_DWORDS - 2 && (at == wptr || at == 0)
    && forall k: nat | k < KGSL_RB_DWORDS ::
         && !(IsPending(rptr, wptr, k) && at <= k < at + dwords)
         && (IsPending(rptr, at + dwords, k) <==>
             IsPending(rptr, wptr, k) || at <= k < at + dwords || (at != wptr && wptr <= k))
  }

  /** Room is found exactly when the words can be appended at all, and `Place` is where. */
  lemma {:induction false} RoomIff(rptr: nat, wptr: nat, dwords: nat)
    requires rptr < KGSL_RB_DWORDS && wptr <= KGSL_RB_DWORDS - 2
    ensures Room(rptr, wptr, dwords) <==> exists at: nat :: Appends(rptr, wptr, at, dwords)
    ensures Room(rptr, wptr, dwords) ==> Appends(rptr, wptr, Place(rptr, wptr, dwords), dwords)
  {
    if Room(rptr, wptr, dwords) {
      assert Appends(rptr, wptr, Place(rptr, wptr, dwords), dwords);
    }
    if exists at: nat :: Appends(rptr, wptr, at, dwords) {
      var at: nat :| Appends(rptr, wptr, at, dwords);
      assert IsPending(rptr, at + dwords, wptr) <==>
             IsPending(rptr, wptr, wptr) || at <= wptr < at + dwords || at != wptr;
      assert at < KGSL_RB_DWORDS && (IsPending(rptr, at + dwords, at) <==>
             IsPending(rptr, wptr, at) || at <= at < at + dwords || (at != wptr && wptr <= at));
    }
  }

  /** What one call of addcmds reserves for `cmds`: 55 words more than they take, whatever the call. */
  function Reserve(cmds: seq<Packet>): nat {
    A3XX_SUBMIT_MAX + Size(cmds)
  }

  /** The write pointer after a call of addcmds on `cmds`. */
  function Moved(rptr: nat, wptr: nat, cmds: seq<Packet>, out: Option<seq<Packet>>): nat {
    if out.None? then wptr else Place(rptr, wptr, Reserve(cmds)) + Size(out.value)
  }

  function WithSwitchRoom(dev: Device, active: Option<Context>, ctx: Context, w: Answers, rptr: nat, wptr: nat): Answers {
    w.(switchRoom := Room(rptr, wptr, Reserve(SwitchCommands(dev, active, ctx))))
  }

  /** The write pointer after a3xx_drawctxt_switch. */
  function MovedBySwitch(dev: Device, d: Driver, ctx: Context, w: Answers, rptr: nat, wptr: nat): nat {
    if d.active == Some(ctx) then wptr
    else Moved(rptr, wptr, SwitchCommands(dev, d.active, ctx), Switch(dev, d, ctx, w).1)
  }

  /** The answers of a ring about room for one submission: both are decided by its pointers. The read pointer may
      have moved on from `rptr` to `later` before the second is given. */
  function WithRoom(dev: Device, d: Driver, s: Submission, w: Answers, rptr: nat, later: nat, wptr: nat): Answers {
    var w1 := WithSwitchRoom(dev, d.active, s.ctx, w, rptr, wptr);
    w1.(commandRoom := Room(later, MovedBySwitch(dev, d, s.ctx, w1, rptr, wptr), Reserve(IbCommands(s.ibs, s.flags))))
  }

  /** The write pointer after a3xx_ringbuffer_submitcmd. */
  function MovedBySubmit(dev: Device, d: Driver, s: Submission, w: Answers, rptr: nat, later: nat, wptr: nat): nat {
    Moved(later, MovedBySwitch(dev, d, s.ctx, w, rptr, wptr), IbCommands(s.ibs, s.flags), Submit(dev, d, s, w).command)
  }

  /** A submission as its two calls make it: `d1`, `sw` and `ok` of the context switch, `ts` and `cmd` of the command;
      `wptr1` and `wptr2` are the write pointers after each. */
  lemma {:induction false} SubmitInTwo(dev: Device, d: Driver, s: Submission, w: Answers, rptr: nat, later: nat, wptr: nat,
                                       d1: Driver, sw: Option<seq<Packet>>, ok: bool, ts: Word, cmd: Option<seq<Packet>>,
                                       wptr1: nat, wptr2: nat)
    requires var w1 := WithSwitchRoom(dev, d.active, s.ctx, w, rptr, wptr);
      (d1, sw, ok) == Switch(dev, d, s.ctx, w1) && wptr1 == MovedBySwitch(dev, d, s.ctx, w1, rptr, wptr)
    requires var cmds := IbCommands(s.ibs, s.flags);
      if ok then
        && (ts, cmd) == AddCmds(dev, d1.timestamp, CommandCall(s, w), cmds, w.commandRefused, Room(later, wptr1, Reserve(cmds)))
        && wptr2 == Moved(later, wptr1, cmds, cmd)
      else ts == d1.timestamp && cmd == None && wptr2 == wptr1
    ensures var w' := WithRoom(dev, d, s, w, rptr, later, wptr);
      && Submit(dev, d, s, w') == Effect(d1.(timestamp := ts), if ok then sw else Some([]), cmd)
      && wptr2 == MovedBySubmit(dev, d, s, w', rptr, later, wptr)
    ensures (if ok && sw.Some? then sw.value else []) + (if cmd.Some? then cmd.value else [])
            == Effect(d1.(timestamp := ts), if ok then sw else Some([]), cmd).Issued()
    ensures !ok ==> sw == None && Effect(d1.(timestamp := ts), if ok then sw else Some([]), cmd).Issued() == []
  {
    hide Wrapped, SwitchCommands, IbCommands, Size, Room, Place;
  }

  // ---------------------------------------------------------------- the log of a ring

  /** `log` is a run of the driver that starts without an active context, and what was issued from position `since`
      on means what its submissions issued. */
  ghost predicate LogOf(dev: Device, log: seq<Event>, ds: seq<Driver>, since: nat, issued: seq<Packet>) {
    && DriverRun(dev, log, ds) && ds[0].active.None? && (forall k | 0 <= k < |log| :: log[k].Submitted?)
    && since <= |issued| && Strip(issued[since..]) == Strip(AllIssued(dev, log, ds, |log|))
  }

  /** One more submission in the log. */
  lemma {:induction false} LogGrows(dev: Device, log: seq<Event>, ds: seq<Driver>, since: nat, was: seq<Packet>,
                                    issued: seq<Packet>, s: Submission, w: Answers)
    requires LogOf(dev, log, ds, since, was) && Grew(was, issued, Submit(dev, ds[|log|], s, w).Issued())
    ensures LogOf(dev, log + [Submitted(s, w)], ds + [Submit(dev, ds[|log|], s, w).driver], since, issued)
    ensures |ds| == |log| + 1
  {
    hide Submit, Strip, AllIssued, Grew, DriverRun;
    AllIssuedSnoc(dev, log, ds, s, w);
    var e := Submit(dev, ds[|log|], s, w);
    GrewBy(was[..since], was[since..], AllIssued(dev, log, ds, |log|));
    assert was[..since] + was[since..] == was;
    GrewTwice(was[..since], was, issued, AllIssued(dev, log, ds, |log|), e.Issued());
    GrewSince(was, issued, since, AllIssued(dev, log, ds, |log|) + e.Issued(), e.Issued());
  }

  lemma {:induction false} GrewSince(was: seq<Packet>, issued: seq<Packet>, since: nat, ps: seq<Packet>, qs: seq<Packet>)
    requires since <= |was| && Grew(was[..since], issued, ps) && Grew(was, issued, qs)
    ensures since <= |issued| && Strip(issued[since..]) == Strip(ps)
  {
    hide Strip;
  }

  // ---------------------------------------------------------------- the ring

  /** struct adreno_ringbuffer; `rptr` is moved by the GPU. */
  class Ring {
    const dev: Device
    const host: array<Word>
    var rptr: nat
    var wptr: nat
    var nextWptr: nat               // _wptr
    var timestamp: Word
    var active: Option<Context>
    ghost var executed: seq<Packet>
    ghost var queued: seq<Packet>
    ghost var issued: seq<Packet>
    // since the active context was last forgotten: the submissions, the driver before and after each, and where
    // their packets start in `issued`
    ghost var log: seq<Event>
    ghost var drivers: seq<Driver>
    ghost var since: nat

    constructor (dev: Device)
      ensures Valid() && Logged() && this.dev == dev && fresh(host)
      ensures rptr == 0 && wptr == 0 && issued == [] && log == [] && active.None? && timestamp == 0
    {
      this.dev := dev;
      host := new Word[KGSL_RB_DWORDS];
      rptr, wptr, nextWptr, timestamp, active := 0, 0, 0, 0, None;
      executed, queued, issued := [], [], [];
      log, drivers, since := [], [Driver(None, 0)], 0;
      new;
      DecodeOfNothing();
      RightUnit(Some([]));
      assert host[..][0..0] == [];
    }

    ghost function State(): Driver
      reads this`active, this`timestamp
    {
      Driver(active, timestamp)
    }

    /** What was issued is what the GPU has fetched and what is pending. */
    ghost predicate Valid()
      reads this, host
    {
      && nextWptr == wptr
      && Queue(host[..], rptr, wptr, queued)
      && issued == executed + queued
    }

    /** The logged submissions are a run of the driver up to its present state, and what was issued since the log
        began means what they issued. */
    ghost predicate Logged()
      reads this`log, this`drivers, this`since, this`issued, this`active, this`timestamp
    {
      LogOf(dev, log, drivers, since, issued) && drivers[|log|] == State()
    }

    /** The GPU fetches one packet. */
    method Fetch() returns (ghost p: Packet)
      requires Valid() && rptr != wptr
      modifies this`rptr, this`executed, this`queued
      ensures Valid() && old(queued) == [p] + queued && executed == old(executed) + [p]
    {
      hide Queue, Decode;
      QueueBounds(host[..], rptr, wptr, queued);
      QueueShrinks(host[..], rptr, wptr, queued);
      p := queued[0];
      rptr := (rptr + 1 + Count(host[rptr])) % KGSL_RB_DWORDS;
      executed := executed + [p];
      queued := queued[1..];
    }

    /** The GPU fetches up to `n` packets, as long as there are any. */
    method FetchSome(n: nat)
      requires Valid()
      modifies this`rptr, this`executed, this`queued
      ensures Valid() && old(executed) <= executed
      ensures n == 0 ==> rptr == old(rptr)
    {
      hide Queue;
      var k := 0;
      while k < n && rptr != wptr
        invariant Valid() && old(executed) <= executed && k <= n
        invariant k == 0 ==> rptr == old(rptr)
      {
        var _ := Fetch();
        k := k + 1;
      }
    }

    /** adreno_ringbuffer_allocspace: the position of the space; when the tail of the ring is too short, a NOP
        covers it and the space is at the start. */
    method AllocSpace(dwords: nat) returns (at: Option<nat>)
      requires host.Length == KGSL_RB_DWORDS && rptr < KGSL_RB_DWORDS && nextWptr <= KGSL_RB_DWORDS - 2
      modifies this`nextWptr, host
      ensures at == if Room(rptr, old(nextWptr), dwords) then Some(Place(rptr, old(nextWptr), dwords)) else None
      ensures at.None? ==> nextWptr == old(nextWptr) && host[..] == old(host[..])
      ensures at.Some? ==> nextWptr == at.value + dwords && (at.value < rptr ==> nextWptr <= KGSL_RB_DWORDS - 2)
      ensures at.Some? ==> (at.value == old(nextWptr) && host[..] == old(host[..]) &&
                            (if rptr <= at.value then nextWptr <= KGSL_RB_DWORDS - 2 else nextWptr < rptr)) ||
                           (at.value == 0 && nextWptr < rptr <= old(nextWptr) &&
                            host[..] == old(host[..])[old(nextWptr) := Type3(CP_NOP, KGSL_RB_DWORDS - old(nextWptr) - 1)])
    {
      if rptr <= nextWptr {
        if nextWptr + dwords <= KGSL_RB_DWORDS - 2 {
          at := Some(nextWptr);
          nextWptr := (nextWptr + dwords) % KGSL_RB_DWORDS;
          return;
        }
        if dwords < rptr {
          host[nextWptr] := Type3(CP_NOP, KGSL_RB_DWORDS - nextWptr - 1);
          nextWptr := dwords;
          return Some(0);
        }
      }
      if nextWptr + dwords < rptr {
        at := Some(nextWptr);
        nextWptr := (nextWptr + dwords) % KGSL_RB_DWORDS;
        return;
      }
      return None;
    }

    /** The words of one call of addcmds, from `at` on. */
    method Write(at: nat, call: Call, ts: Word, input: seq<Word>, ghost cmds: seq<Packet>) returns (next: nat)
      requires host.Length == KGSL_RB_DWORDS && at + A3XX_SUBMIT_MAX + |input| <= host.Length
      requires input == EncodeAll(cmds)
      modifies host
      ensures next <= at + 44 + |input|
      ensures host[..next] == old(host[..at]) + EncodeAll(Wrapped(dev, call, ts, cmds))
      ensures forall k | next <= k < host.Length :: host[k] == old(host[k])
    {
      hide EncodeAll, Prologue, Epilogue;
      ghost var pre := host[..at];
      StartsBuilt(host, at);
      next := EmitPrologue(host, at, pre, dev, call, ts);
      next := Copy(host, next, input, pre, Prologue(dev, call, ts), cmds);
      next := EmitEpilogue(host, next, pre, Prologue(dev, call, ts) + cmds, dev, call, ts);
    }

    /** a3xx_ringbuffer_addcmds, on `dwords` words of `cmds` that encode `ps`. `refused`: the context is detached or
        the GPU has a fault. `out` is what the ring received. */
    method AddCmds(call: Call, cmds: array<Word>, dwords: nat, refused: bool, ghost ps: seq<Packet>)
      returns (res: int, ghost out: Option<seq<Packet>>)
      requires Valid() && cmds != host && dwords <= cmds.Length && cmds[..dwords] == EncodeAll(ps)
      modifies this`timestamp, this`wptr, this`nextWptr, this`queued, this`issued, host
      ensures Valid() && (res == 0 <==> out.Some?)
      ensures (timestamp, out) == A3xxRuns.AddCmds(dev, old(timestamp), call, ps, refused, Room(rptr, old(wptr), Reserve(ps)))
      ensures wptr == Moved(rptr, old(wptr), ps, out)
      ensures Grew(old(issued), issued, if out.Some? then out.value else [])
    {
      hide Queue, Wrapped, EncodeAll, Strip, Size, Grew;
      QueueBounds(host[..], rptr, wptr, queued);
      GrewNothing(issued);
      SizeIsLength(ps);
      out := None;
      if refused {
        return -1, out;
      }
      timestamp := (timestamp + 1) % 0x1_0000_0000;
      ghost var was := host[..];
      var size := A3XX_SUBMIT_MAX + dwords;
      var at := AllocSpace(size);
      if at.None? {
        return -28, out;
      }
      ghost var alloc := host[..];
      var end := Write(at.value, call, timestamp, cmds[..dwords], ps);
      ghost var w := Wrapped(dev, call, timestamp, ps);
      out := Some(w);
      SizeIsLength(w);
      assert end == at.value + Size(w);
      nextWptr := nextWptr - (size - (end - at.value));
      ghost var more := QueueAfter(was, alloc, host[..], rptr, wptr, at.value, end, queued, w);
      GrewBy(issued, more, w);
      Associative(executed, queued, more);
      queued, issued := queued + more, issued + more;
      wptr := nextWptr;
      res := 0;
    }

    /** a3xx_rb_context_switch */
    method RbContextSwitch(next: Context, fault: bool) returns (res: int, ghost out: Option<seq<Packet>>)
      requires Valid()
      modifies this`timestamp, this`wptr, this`nextWptr, this`queued, this`issued, host
      ensures Valid() && var cmds := SwitchCommands(dev, active, next);
        && (timestamp, out) ==
             A3xxRuns.AddCmds(dev, old(timestamp), SWITCH_CALL, cmds, fault, Room(rptr, old(wptr), Reserve(cmds)))
        && wptr == Moved(rptr, old(wptr), cmds, out)
      ensures Grew(old(issued), issued, if out.Some? then out.value else [])
    {
      hide Wrapped, SwitchCommands, EncodeAll, Strip, Queue, Size, Grew;
      var cmds, count := BuildSwitch(dev, active, next);
      res, out := AddCmds(SWITCH_CALL, cmds, count, fault, SwitchCommands(dev, active, next));
    }

    /** a3xx_drawctxt_switch: whatever the ring answered, the context becomes the active one. */
    method DrawctxtSwitch(ctx: Context, w: Answers) returns (res: int, ghost out: Option<seq<Packet>>)
      requires Valid()
      modifies this`timestamp, this`wptr, this`nextWptr, this`queued, this`issued, this`active, host
      ensures Valid() && var w' := WithSwitchRoom(dev, old(active), ctx, w, rptr, old(wptr));
        && (State(), out, res == 0) == Switch(dev, old(State()), ctx, w')
        && wptr == MovedBySwitch(dev, old(State()), ctx, w', rptr, old(wptr))
      ensures Grew(old(issued), issued, if out.Some? then out.value else [])
    {
      hide Wrapped, SwitchCommands, Strip, Queue, Size, Grew;
      GrewNothing(issued);
      if active == Some(ctx) {
        return 0, Some([]);
      }
      if w.detached || !w.referenced {
        return -2, None;
      }
      res, out := RbContextSwitch(ctx, w.switchFault);
      active := Some(ctx);
      res := 0;
    }

    /** a3xx_ringbuffer_submitcmd. Of the answers of the world those about room are the ring's own. Between the two
        allocations the GPU fetches up to `pace` packets. */
    method SubmitCmd(s: Submission, w: Answers, pace: nat) returns (res: int, ghost e: Effect)
      requires Valid() && Logged()
      modifies this`timestamp, this`rptr, this`wptr, this`nextWptr, this`executed, this`queued, this`issued
      modifies this`active, this`log, this`drivers, host
      ensures Valid() && Logged() && var w' := WithRoom(dev, old(State()), s, w, old(rptr), rptr, old(wptr));
        && e == Submit(dev, old(State()), s, w') && State() == e.driver
        && wptr == MovedBySubmit(dev, old(State()), s, w', old(rptr), rptr, old(wptr))
        && log == old(log) + [Submitted(s, w')]
      ensures Grew(old(issued), issued, e.Issued()) && old(executed) <= executed
      ensures pace == 0 ==> rptr == old(rptr)
      ensures res == 0 <==> e.command.Some?
    {
      hide Wrapped, SwitchCommands, IbCommands, EncodeAll, Strip, Queue, Size, Grew, LogOf, Room, Place, Submit, Switch,
           A3xxRuns.AddCmds, Moved, MovedBySwitch, MovedBySubmit, WithSwitchRoom, WithRoom;
      ghost var d, was, r, p := State(), issued, rptr, wptr;
      var cmds, index := BuildIbs(s.ibs, s.flags);
      ghost var sw, cmd := None, None;
      res, sw := DrawctxtSwitch(s.ctx, w);
      var ok := res == 0;
      ghost var d1, p1 := State(), wptr;
      if ok {
        ghost var mid := issued;
        FetchSome(pace);
        res, cmd := AddCmds(CommandCall(s, w), cmds, index, w.commandRefused, IbCommands(s.ibs, s.flags));
        GrewTwice(was, mid, issued, if sw.Some? then sw.value else [], if cmd.Some? then cmd.value else []);
      }
      e := Effect(State(), if ok then sw else Some([]), cmd);
      ghost var w' := WithRoom(dev, d, s, w, r, rptr, p);
      SubmitInTwo(dev, d, s, w, r, rptr, p, d1, sw, ok, timestamp, cmd, p1, wptr);
      LogGrows(dev, log, drivers, since, was, issued, s, w');
      log, drivers := log + [Submitted(s, w')], drivers + [e.driver];
    }

    /** adreno_set_active_ctxs_null, for this ring. */
    method SetActiveCtxNull()
      requires Valid()
      modifies this`active, this`log, this`drivers, this`since
      ensures Valid() && Logged() && State() == old(State()).(active := None) && log == []
    {
      active := None;
      log, drivers, since := [], [State()], |issued|;
    }
  }

  /** Every ring, whatever it refused: executing what was issued since the active context was last forgotten takes a
      GPU with its bus running through a run of the logged submissions, so that what holds of runs holds of it. */
  lemma {:induction false} RingMakesARun(ring: Ring, g: Gpu) returns (gs: seq<Gpu>)
    requires ring.Logged() && ring.dev.Valid() && g.bus == Running && g.seen == []
    requires forall k | 0 <= k < |ring.log| :: ring.log[k].Submitted? && ring.log[k].s.ctx.Valid()
    ensures Run(ring.dev, ring.log, ring.drivers, gs) && gs[0] == g
    ensures Exec(g, ring.issued[ring.since..], ring.dev.Cur()) == Some(gs[|ring.log|])
  {
    hide Exec, Run, AllIssued, Strip;
    gs := StreamMakesARun(ring.dev, ring.log, ring.drivers, g);
    SameMeaning(g, ring.issued[ring.since..], AllIssued(ring.dev, ring.log, ring.drivers, |ring.log|), ring.dev.Cur());
  }

  lemma {:induction false} FillerStripped(filler: Packet, b: seq<Packet>)
    requires filler.Pkt3? && filler.opcode == CP_NOP
    ensures Strip([filler] + b) == Strip(b)
  {
    StripMore(filler, b);
  }

  lemma {:induction false} StartsBuilt(a: array<Word>, at: nat)
    requires at <= a.Length
    ensures Built(a, at, a[..at], [])
  {
    assert a[..at] + [] == a[..at];
  }
}

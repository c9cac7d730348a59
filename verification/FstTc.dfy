/** fst_tc.c: the traffic-control back end. Each L2DA filter is known to the kernel by its priority, so the
    priority allocator keeps priorities unique. The kernel's own filter table is the field `kernel`. */
module FstTc {
  import opened FstTypes

  const PRIO_BOND_TX_BASE: nat := 1
  const PRIO_MAX: nat := 65535

  /** struct fst_tc_filter_handle. The cleared handle is `NO_HANDLE`. */
  datatype FilterHandle = FilterHandle(prio: nat, ifname: string)

  const NO_HANDLE := FilterHandle(0, "")

  function Prios(hs: seq<FilterHandle>): set<nat> {
    set h | h in hs :: h.prio
  }

  ghost predicate Allocated(hs: seq<FilterHandle>) {
    && (forall i, j | 0 <= i < j < |hs| :: hs[i].prio != hs[j].prio)
    && (forall h | h in hs :: PRIO_BOND_TX_BASE <= h.prio < PRIO_MAX)
  }

  /** `p` is the least priority not in use, or PRIO_MAX when every smaller one is in use. */
  ghost predicate LeastUnused(hs: seq<FilterHandle>, p: nat) {
    && PRIO_BOND_TX_BASE <= p <= PRIO_MAX
    && (forall q | PRIO_BOND_TX_BASE <= q < p :: q in Prios(hs))
    && (p < PRIO_MAX ==> p !in Prios(hs))
  }

  function Range(lo: nat, hi: nat): (s: set<nat>)
    requires lo <= hi
    ensures |s| == hi - lo && forall x :: x in s <==> lo <= x < hi
    decreases hi - lo
  {
    if lo == hi then {} else {lo} + Range(lo + 1, hi)
  }

  lemma {:induction false} PriosCons(h: FilterHandle, hs: seq<FilterHandle>)
    ensures Prios([h] + hs) == {h.prio} + Prios(hs)
  {
    assert forall x :: x in [h] + hs <==> x == h || x in hs;
  }

  lemma {:induction false} AllocatedTail(hs: seq<FilterHandle>)
    requires Allocated(hs) && hs != []
    ensures Allocated(hs[1..]) && hs[0].prio !in Prios(hs[1..])
  {
    var rest := hs[1..];
    forall i, j | 0 <= i < j < |rest| ensures rest[i].prio != rest[j].prio {
      assert rest[i] == hs[i + 1] && rest[j] == hs[j + 1];
    }
  }

  lemma {:induction false} PriosSize(hs: seq<FilterHandle>)
    ensures |Prios(hs)| <= |hs|
    ensures Allocated(hs) ==> |Prios(hs)| == |hs|
  {
    if hs != [] {
      var rest := hs[1..];
      assert hs == [hs[0]] + rest;
      PriosSize(rest);
      PriosCons(hs[0], rest);
      if Allocated(hs) {
        AllocatedTail(hs);
      }
    }
  }

  /** Pigeonhole: n installed filters leave a priority free among 1 .. n+1. */
  lemma {:induction false} NewPriorityAtMostCountPlusOne(hs: seq<FilterHandle>, p: nat)
    requires LeastUnused(hs, p)
    ensures p <= |hs| + 1
  {
    assert Range(PRIO_BOND_TX_BASE, p) <= Prios(hs);
    SubsetSize(Range(PRIO_BOND_TX_BASE, p), Prios(hs));
    PriosSize(hs);
  }

  lemma {:induction false} FullIff(used: set<nat>, p: nat, max: nat)
    requires PRIO_BOND_TX_BASE <= p <= max
    requires forall q | q in used :: PRIO_BOND_TX_BASE <= q < max
    requires forall q | PRIO_BOND_TX_BASE <= q < p :: q in used
    requires p < max ==> p !in used
    ensures |used| <= max - PRIO_BOND_TX_BASE
    ensures p == max <==> |used| == max - PRIO_BOND_TX_BASE
  {
    var all := Range(PRIO_BOND_TX_BASE, max);
    assert used <= all;
    SubsetSize(used, all);
    if p == max {
      assert used == all;
    } else {
      assert p in all && p !in used;
      assert used != all;
    }
  }

  /** Allocation fails exactly when all 65534 priorities are in use. */
  lemma {:induction false} ExhaustedIffFull(hs: seq<FilterHandle>, p: nat)
    requires Allocated(hs) && LeastUnused(hs, p)
    ensures |hs| <= PRIO_MAX - 1
    ensures p == PRIO_MAX <==> |hs| == PRIO_MAX - 1
  {
    PriosSize(hs);
    FullIff(Prios(hs), p, PRIO_MAX);
  }

  lemma {:induction false} LowestUnused(hs: seq<FilterHandle>, p: nat)
    requires Allocated(hs) && LeastUnused(hs, p)
    ensures PRIO_BOND_TX_BASE <= p <= PRIO_MAX && (p == PRIO_MAX || p !in Prios(hs))
    ensures |hs| <= PRIO_MAX - 1 && (p == PRIO_MAX <==> |hs| == PRIO_MAX - 1)
  {
    hide Allocated, Prios;
    ExhaustedIffFull(hs, p);
  }

  lemma {:induction false} Installed(hs: seq<FilterHandle>, h: FilterHandle)
    requires Allocated(hs) && LeastUnused(hs, h.prio) && h.prio < PRIO_MAX
    ensures Allocated([h] + hs) && Prios([h] + hs) == {h.prio} + Prios(hs)
    ensures TcStep(hs, Install(h.ifname, true), [h] + hs)
  {
    PriosCons(h, hs);
    assert forall x | x in hs :: x.prio in Prios(hs);
  }

  /** A rule was added at the least unused priority, and taken away again if `undone`. */
  ghost predicate HalfInstalled(hs: seq<FilterHandle>, kernel: map<nat, Rule>, kernel': map<nat, Rule>, rule: Rule, undone: bool) {
    exists p: nat :: LeastUnused(hs, p) && kernel' == if undone then kernel - {p} else kernel[p := rule]
  }

  lemma {:induction false} PutAndTaken(kernel: map<nat, Rule>, p: nat, rule: Rule)
    ensures kernel[p := rule] - {p} == kernel - {p}
    ensures p !in kernel ==> kernel - {p} == kernel
  {
  }

  lemma {:induction false} NothingInstalled(hs: seq<FilterHandle>, p: nat, ifname: string)
    requires LeastUnused(hs, p)
    ensures TcStep(hs, Install(ifname, false), hs)
  {
  }

  /** One entry of an add/delete history; `Install` carries the kernel's answer, `Remove` a list position. */
  datatype TcOp = Install(ifname: string, ok: bool) | Remove(at: nat)

  ghost predicate TcStep(hs: seq<FilterHandle>, op: TcOp, hs': seq<FilterHandle>) {
    match op
    case Install(ifname, ok) =>
      exists p: nat :: LeastUnused(hs, p) &&
                       hs' == if ok && p < PRIO_MAX then [FilterHandle(p, ifname)] + hs else hs
    case Remove(at) =>
      if at < |hs| then hs' == Without(hs, hs[at]) else hs' == hs
  }

  /** A history is the list of handle lists it goes through, starting from the empty one. */
  ghost predicate TcRun(ops: seq<TcOp>, states: seq<seq<FilterHandle>>) {
    && |states| == |ops| + 1
    && states[0] == []
    && forall k | 0 <= k < |ops| :: TcStep(states[k], ops[k], states[k + 1])
  }

  lemma {:induction false} AllocatedNoDup(hs: seq<FilterHandle>)
    requires Allocated(hs)
    ensures NoDup(hs)
  {
  }

  lemma {:induction false} WithoutAllocated(hs: seq<FilterHandle>, h: FilterHandle)
    requires Allocated(hs)
    ensures Allocated(Without(hs, h))
  {
    WithoutNoDup(hs, h);
    var r := Without(hs, h);
    forall i, j | 0 <= i < j < |r| ensures r[i].prio != r[j].prio {
      assert r[i] in r && r[j] in r && r[i] in hs && r[j] in hs;
    }
  }

  ghost predicate Below(hs: seq<FilterHandle>, peak: nat) {
    Allocated(hs) && forall h | h in hs :: h.prio <= peak
  }

  lemma {:induction false} InstallKeepsBound(hs: seq<FilterHandle>, ifname: string, p: nat, peak: nat)
    requires Below(hs, peak) && LeastUnused(hs, p) && p < PRIO_MAX && |hs| + 1 <= peak
    ensures Below([FilterHandle(p, ifname)] + hs, peak)
  {
    NewPriorityAtMostCountPlusOne(hs, p);
    assert forall h | h in hs :: h.prio in Prios(hs);
  }

  lemma {:induction false} RemoveKeepsBound(hs: seq<FilterHandle>, h: FilterHandle, peak: nat)
    requires Below(hs, peak)
    ensures Below(Without(hs, h), peak)
  {
    AllocatedNoDup(hs);
    WithoutNoDup(hs, h);
    WithoutAllocated(hs, h);
    hide Allocated, Without;
  }

  lemma {:induction false} StepKeepsBound(hs: seq<FilterHandle>, op: TcOp, hs': seq<FilterHandle>, peak: nat)
    requires TcStep(hs, op, hs') && Below(hs, peak) && |hs'| <= peak
    ensures Below(hs', peak)
  {
    hide Below, LeastUnused, Without;
    match op
    case Install(ifname, ok) =>
      var p: nat :| LeastUnused(hs, p) &&
                    hs' == if ok && p < PRIO_MAX then [FilterHandle(p, ifname)] + hs else hs;
      if ok && p < PRIO_MAX {
        InstallKeepsBound(hs, ifname, p, peak);
      }
    case Remove(at) =>
      if at < |hs| {
        RemoveKeepsBound(hs, hs[at], peak);
      }
  }

  /** Over any history, priorities stay distinct and none exceeds the largest number of filters held so far. */
  lemma {:induction false} PrioritiesBoundedByPeak(ops: seq<TcOp>, states: seq<seq<FilterHandle>>, k: nat, peak: nat)
    requires TcRun(ops, states) && k < |states|
    requires forall j | 0 <= j <= k :: |states[j]| <= peak
    ensures Allocated(states[k])
    ensures forall h | h in states[k] :: h.prio <= peak
  {
    hide TcStep;
    if k > 0 {
      PrioritiesBoundedByPeak(ops, states, k - 1, peak);
      assert TcStep(states[k - 1], ops[k - 1], states[k - 1 + 1]);
      StepKeepsBound(states[k - 1], ops[k - 1], states[k], peak);
    }
  }

  // ---------------------------------------------------------------- the U32 match keys

  /** One key of a U32 selector: the 32-bit word at `off` from the network header, masked, must equal `val`.
      The source stores both sides in network byte order; here both are the big-endian value. */
  datatype U32Key = U32Key(val: bv32, mask: bv32, off: int)

  datatype Rule = Rule(keys: seq<U32Key>, queue: nat)

  function Word(a: bv8, b: bv8, c: bv8, d: bv8): bv32 {
    ((a as bv32) << 24) | ((b as bv32) << 16) | ((c as bv32) << 8) | (d as bv32)
  }

  function Half(a: bv8, b: bv8): bv32 {
    ((a as bv32) << 8) | (b as bv32)
  }

  function Masked(word: bv32, mask: bv32): bv32 {
    word & mask
  }

  /** The keys an access point installs for one station. */
  function StationKeys(mac: Mac): seq<U32Key> {
    var mac16 := Half(mac.b0, mac.b1);
    var mac32 := Word(mac.b2, mac.b3, mac.b4, mac.b5);
    [U32Key(mac32, 0xFFFF_FFFF, -12), U32Key(mac16, 0xFFFF, -16)]
  }

  /** The key a station installs: it matches every frame. */
  const UNIVERSAL_KEYS: seq<U32Key> := [U32Key(0, 0, -2)]

  function RuleFor(isSta: bool, mac: Mac, queueId: nat): Rule {
    Rule(if isSta then UNIVERSAL_KEYS else StationKeys(mac), queueId % 0x1_0000)
  }

  /** A transmitted Ethernet frame in its buffer; the network header starts at `nh`, the 14-byte Ethernet
      header right before it, and at least two bytes of headroom before that. */
  datatype Skb = Skb(data: seq<bv8>, nh: nat) {
    predicate Valid() { 16 <= nh && nh + 2 <= |data| }
    function Dest(): Mac
      requires Valid()
    {
      Mac(data[nh - 14], data[nh - 13], data[nh - 12], data[nh - 11], data[nh - 10], data[nh - 9])
    }
  }

  predicate KeyMatches(key: U32Key, skb: Skb)
    requires skb.Valid()
    requires -16 <= key.off <= -2
  {
    var at := skb.nh + key.off;
    Masked(Word(skb.data[at], skb.data[at + 1], skb.data[at + 2], skb.data[at + 3]), key.mask) == key.val
  }

  predicate KeysInHeader(keys: seq<U32Key>) {
    forall i | 0 <= i < |keys| :: -16 <= keys[i].off <= -2
  }

  predicate RuleMatches(rule: Rule, skb: Skb)
    requires skb.Valid()
    requires KeysInHeader(rule.keys)
  {
    forall i | 0 <= i < |rule.keys| :: KeyMatches(rule.keys[i], skb)
  }

  lemma {:induction false} WordEqual(a: bv8, b: bv8, c: bv8, d: bv8, p: bv8, q: bv8, r: bv8, s: bv8)
    ensures Masked(Word(a, b, c, d), 0xFFFF_FFFF) == Word(p, q, r, s) <==> a == p && b == q && c == r && d == s
  {
  }

  lemma {:induction false} LowHalf(a: bv8, b: bv8, c: bv8, d: bv8)
    ensures Masked(Word(a, b, c, d), 0xFFFF) == Half(c, d)
  {
  }

  lemma {:induction false} HalfEqual(c: bv8, d: bv8, r: bv8, s: bv8)
    ensures Half(c, d) == Half(r, s) <==> c == r && d == s
  {
  }

  lemma {:induction false} TailKeyMatches(mac: Mac, skb: Skb)
    requires skb.Valid()
    ensures KeyMatches(StationKeys(mac)[0], skb) <==>
            skb.Dest().b2 == mac.b2 && skb.Dest().b3 == mac.b3 && skb.Dest().b4 == mac.b4 && skb.Dest().b5 == mac.b5
  {
    var d := skb.Dest();
    WordEqual(d.b2, d.b3, d.b4, d.b5, mac.b2, mac.b3, mac.b4, mac.b5);
  }

  lemma {:induction false} HeadKeyMatches(mac: Mac, skb: Skb)
    requires skb.Valid()
    ensures KeyMatches(StationKeys(mac)[1], skb) <==> skb.Dest().b0 == mac.b0 && skb.Dest().b1 == mac.b1
  {
    var d := skb.Dest();
    var p, q := skb.data[skb.nh - 16], skb.data[skb.nh - 15];
    LowHalf(p, q, d.b0, d.b1);
    HalfEqual(d.b0, d.b1, mac.b0, mac.b1);
    var key := StationKeys(mac)[1];
    assert key.off == -16 && key.mask == 0xFFFF && key.val == Half(mac.b0, mac.b1);
    assert KeyMatches(key, skb) <==> Masked(Word(p, q, d.b0, d.b1), key.mask) == key.val;
  }

  /** The two masked words select exactly the frames to the given address, whatever the headroom bytes are. */
  lemma {:induction false} StationRuleMatchesExactlyItsAddress(mac: Mac, queueId: nat, skb: Skb)
    requires skb.Valid()
    ensures RuleMatches(RuleFor(false, mac, queueId), skb) <==> skb.Dest() == mac
  {
    TailKeyMatches(mac, skb);
    HeadKeyMatches(mac, skb);
    var rule := RuleFor(false, mac, queueId);
    assert rule.keys == [StationKeys(mac)[0], StationKeys(mac)[1]];
    if skb.Dest() == mac {
      assert KeyMatches(rule.keys[0], skb) && KeyMatches(rule.keys[1], skb);
    } else {
      assert !KeyMatches(rule.keys[0], skb) || !KeyMatches(rule.keys[1], skb);
    }
  }

  lemma {:induction false} UniversalRuleMatchesEverything(mac: Mac, queueId: nat, skb: Skb)
    requires skb.Valid()
    ensures RuleMatches(RuleFor(true, mac, queueId), skb)
  {
    var n := skb.nh;
    assert Word(skb.data[n - 2], skb.data[n - 1], skb.data[n], skb.data[n + 1]) & 0 == 0;
  }

  /** The kernel tries rules in ascending priority and takes the first that matches. */
  ghost predicate FirstMatch(kernel: map<nat, Rule>, skb: Skb, p: nat)
    requires skb.Valid()
    requires forall q | q in kernel :: KeysInHeader(kernel[q].keys)
  {
    && p in kernel
    && RuleMatches(kernel[p], skb)
    && forall q | q in kernel && q < p :: !RuleMatches(kernel[q], skb)
  }

  // ---------------------------------------------------------------- struct fst_tc

  /** What the kernel answers to the netlink requests of one call: the L2DA filter request, the receive
      multicast filters of a station, and the removal that undoes the first when the second fails. */
  datatype Netlink = Netlink(l2da: bool, rxMc: bool, undo: bool)

  const GRANTED := Netlink(true, true, true)

  class Tc {
    const isSta: bool
    var filters: seq<FilterHandle>
    var kernel: map<nat, Rule>
    var started: bool   // the interface index of the bond is known

    constructor (isSta: bool)
      ensures this.isSta == isSta && filters == [] && kernel == map[] && !started
    {
      this.isSta := isSta;
      started := false;
      filters := [];
      kernel := map[];
    }

    ghost predicate Valid()
      reads this`filters
    {
      Allocated(filters)
    }

    /** Every handle has its rule in the kernel and no other L2DA rule is there. */
    ghost predicate Synced()
      reads this`filters, this`kernel
    {
      kernel.Keys == Prios(filters)
    }

    /** The kernel grants every request a filter needs on this side. */
    predicate Accepts(nl: Netlink) {
      nl.l2da && (isSta ==> nl.rxMc)
    }

    method GetLowestUnusedPrio() returns (prio: nat)
      ensures LeastUnused(filters, prio)
    {
      prio := PRIO_BOND_TX_BASE;
      while prio < PRIO_MAX
        invariant PRIO_BOND_TX_BASE <= prio <= PRIO_MAX
        invariant forall q | PRIO_BOND_TX_BASE <= q < prio :: q in Prios(filters)
      {
        var avail := true;
        var k := 0;
        while k < |filters|
          invariant 0 <= k <= |filters|
          invariant avail <==> forall j | 0 <= j < k :: filters[j].prio != prio
        {
          if filters[k].prio == prio {
            avail := false;
            break;
          }
          k := k + 1;
        }
        if avail {
          assert prio !in Prios(filters);
          break;
        }
        prio := prio + 1;
      }
    }

    method AddL2daFilter(mac: Mac, queueId: nat, ifname: string, nl: Netlink) returns (res: int, h: FilterHandle)
      requires Valid()
      modifies this`filters, this`kernel
      ensures Valid()
      ensures res == 0 || res == -1
      ensures res == 0 ==> LeastUnused(old(filters), h.prio) && h.prio < PRIO_MAX && h.ifname == ifname
      ensures res == 0 ==> filters == [h] + old(filters) && h.prio !in Prios(old(filters))
      ensures res == 0 ==> kernel == old(kernel)[h.prio := RuleFor(isSta, mac, queueId)]
      ensures res == -1 ==> h == NO_HANDLE && filters == old(filters)
      ensures res == -1 ==> kernel == old(kernel) ||
                            (isSta && nl.l2da && !nl.rxMc &&
                             HalfInstalled(old(filters), old(kernel), kernel, RuleFor(isSta, mac, queueId), nl.undo))
      ensures TcStep(old(filters), Install(ifname, res == 0), filters)
      ensures res == 0 <==> |old(filters)| < PRIO_MAX - 1 && Accepts(nl)
      ensures old(Synced()) && res == -1 && (nl.undo || !isSta) ==> kernel == old(kernel)
      ensures old(Synced()) && (res == 0 || nl.undo || !isSta) ==> Synced()
    {
      hide LeastUnused, Allocated, Prios, RuleFor;
      var prio := GetLowestUnusedPrio();
      LowestUnused(filters, prio);
      NothingInstalled(filters, prio, ifname);
      h := NO_HANDLE;
      if prio == PRIO_MAX {
        return -1, h;
      }
      if !nl.l2da {
        return -1, h;
      }
      kernel := kernel[prio := RuleFor(isSta, mac, queueId)];
      if isSta && !nl.rxMc {
        if nl.undo {
          kernel := kernel - {prio};
          PutAndTaken(old(kernel), prio, RuleFor(isSta, mac, queueId));
        }
        return -1, h;
      }
      h := FilterHandle(prio, ifname);
      Installed(filters, h);
      filters := [h] + filters;
      res := 0;
    }

    /** The handle leaves the list whatever the kernel answers; the caller's copy is cleared. */
    method DelL2daFilter(h: FilterHandle, nl: Netlink) returns (res: int)
      requires Valid()
      modifies this`filters, this`kernel
      ensures Valid()
      ensures filters == Without(old(filters), h)
      ensures kernel == if nl.l2da then old(kernel) - {h.prio} else old(kernel)
      ensures res == 0 <==> Accepts(nl)
      ensures res == 0 || res == -1
      ensures forall at: nat | at < |old(filters)| && old(filters)[at] == h :: TcStep(old(filters), Remove(at), filters)
      ensures old(Synced()) && h in old(filters) && nl.l2da ==> Synced()
    {
      res := 0;
      if nl.l2da {
        kernel := kernel - {h.prio};
      } else {
        res := -1;
      }
      if isSta && !nl.rxMc {
        res := -1;
      }
      WithoutAllocated(filters, h);
      AllocatedNoDup(filters);
      WithoutNoDup(filters, h);
      filters := Without(filters, h);
      if h in old(filters) {
        forall p | p in Prios(filters) ensures p in Prios(old(filters)) && p != h.prio {
          var x :| x in filters && x.prio == p;
          assert x in old(filters) && x != h;
        }
        forall p | p in Prios(old(filters)) && p != h.prio ensures p in Prios(filters) {
          var x :| x in old(filters) && x.prio == p;
          assert x in filters;
        }
      }
    }

    /** fst_tc_start: drops a qdisc left behind, and its filters with it, before adding its own. */
    method Start(indexesOk: bool, qdiscsOk: bool) returns (res: int)
      modifies this`kernel, this`started
      ensures res == 0 <==> !old(started) && indexesOk && qdiscsOk
      ensures res == 0 || res == -1
      ensures started == (old(started) || res == 0)
      ensures kernel == if old(started) || !indexesOk then old(kernel) else map[]
    {
      if started || !indexesOk {
        return -1;
      }
      kernel := map[];
      if !qdiscsOk {
        return -1;
      }
      started := true;
      res := 0;
    }

    /** fst_tc_stop: deletes the multiq qdisc, and its filters with it. */
    method Stop()
      modifies this`kernel, this`started
      ensures kernel == map[] && !started
    {
      kernel := map[];
      started := false;
    }
  }
}

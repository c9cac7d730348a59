/** Sessions, liveness and priorities over every run: what the station side of fst_manager.c keeps, and when an
    event handler of either side dereferences a null pointer. */
module FstStation {
  import opened FstTypes
  import opened MultiBand
  import opened FstSession
  import opened FstRuns

  // ---------------------------------------------------------------- what one event does to the peers

  /** Nothing, a new peer, a step of the k-th peer, or none because a dump is overread. */
  datatype Effect = Same | Appears(p: PeerState) | Acts(k: nat) | Overreads

  function EffectOf(cfg: Config, g: GroupState, ev: Event, env: Env): (e: Effect)
    ensures e.Acts? ==> e.k < |g.peers|
  {
    match ev
    case Connect(ifname, addr) =>
      var i := FindIface(cfg.ifaces, ifname);
      if !Heard(cfg, g, ev, env) then Same
      else if ScanOverread(g.peers, i.value, addr, env) then Overreads
      else
        var k := PeerByOtherAddr(g.peers, i.value, addr, env);
        if k < |g.peers| then Acts(k)
        else if AddMap(g.mux, addr, i.value.name, env.addLast).1 && env.sessionId.Some? then
          Appears(PeerState(Some(NewSession(env.sessionId.value, cfg.forceNc)), i, [Conn(i.value, addr)]))
        else Same
    case Disconnect(ifname, addr) =>
      var k := PeerByAddr(g.peers, addr);
      if FindIface(cfg.ifaces, ifname).None? || k == |g.peers| then Same else Acts(k)
    case Establish(k) => if k >= |g.peers| || g.peers[k].session.None? then Same else Acts(k)
    case StateChange(k, initial, _) => if !initial || k >= |g.peers| || g.peers[k].session.None? then Same else Acts(k)
    case SetupRequest(_, info) =>
      var k := PeerByAddr(g.peers, info.oldAddr);
      if cfg.station || FindIface(cfg.ifaces, info.oldIfname).None? || FindIface(cfg.ifaces, info.newIfname).None?
         || k == |g.peers| || k != PeerByAddr(g.peers, info.newAddr) then Same
      else Acts(k)
    case Transfer(ifname, addr) => if TransferApplies(cfg, g, ifname, addr) then Acts(PeerByAddr(g.peers, addr)) else Same
  }

  predicate Again(cfg: Config, g: GroupState, reason: Reason) {
    reason != Setup && (if reason == Stt then g.retries + 1 else 0) < cfg.maxRetries
  }

  /** The step of the k-th peer. */
  function Acted(cfg: Config, g: GroupState, ev: Event, env: Env, k: nat): Outcome
    requires EffectOf(cfg, g, ev, env) == Acts(k)
  {
    var p := g.peers[k];
    match ev
    case Connect(ifname, addr) => ConnectPeer(cfg, p, g.mux, FindIface(cfg.ifaces, ifname).value, addr, env)
    case Disconnect(ifname, _) => DisconnectPeer(cfg, p, g.mux, FindIface(cfg.ifaces, ifname).value, env).0
    case Establish(_) => Done(p.(session := Some(p.session.value.(phase := Established))), g.mux)
    case StateChange(_, _, reason) => InitialPeer(cfg, p, g.mux, reason, Again(cfg, g, reason), env)
    case SetupRequest(id, info) =>
      SetupPeer(p, g.mux, FindIface(cfg.ifaces, info.oldIfname).value, FindIface(cfg.ifaces, info.newIfname).value,
                info.llt, if id == INVALID_SESSION_ID then env.sessionId else Some(id), env)
    case Transfer(_, _) => TransferPeer(cfg, p, g.mux, env)
  }

  /** The k-th peer is dropped after its step. */
  predicate Leaves(cfg: Config, g: GroupState, ev: Event, env: Env, k: nat)
    requires EffectOf(cfg, g, ev, env) == Acts(k)
  {
    ev.Disconnect? && DisconnectPeer(cfg, g.peers[k], g.mux, FindIface(cfg.ifaces, ev.ifname).value, env).1
  }

  lemma {:induction false} StepIs(cfg: Config, g: GroupState, ev: Event, env: Env)
    ensures var r := Step(cfg, g, ev, env);
      match EffectOf(cfg, g, ev, env)
      case Same => r.Some? && r.value.peers == g.peers
      case Appears(p) => r.Some? && r.value.peers == g.peers + [p]
      case Acts(k) =>
        var o := Acted(cfg, g, ev, env, k);
        && (r.None? <==> o.Crash?)
        && (o.Done? ==> r.value.peers == if Leaves(cfg, g, ev, env, k) then g.peers[..k] + g.peers[k + 1..]
                                         else g.peers[k := o.peer])
      case Overreads => r.None?
  {
    hide ConnectPeer, DisconnectPeer, InitialPeer, TransferPeer, SetupPeer, AddMap, PeerByAddr, PeerByOtherAddr,
         ScanOverread, IsConnected, FindIface;
  }

  ghost predicate All(peers: seq<PeerState>, P: PeerState -> bool) {
    forall p | p in peers :: P(p)
  }

  /** The peer that appears or acts meets `P` after the event. */
  ghost predicate EffectMeets(cfg: Config, g: GroupState, ev: Event, env: Env, P: PeerState -> bool) {
    match EffectOf(cfg, g, ev, env)
    case Appears(p) => P(p)
    case Acts(k) => var o := Acted(cfg, g, ev, env, k); o.Done? && !Leaves(cfg, g, ev, env, k) ==> P(o.peer)
    case _ => true
  }

  /** What the one peer concerned keeps, all peers keep. */
  lemma {:induction false} StepKeeps(cfg: Config, g: GroupState, ev: Event, env: Env, P: PeerState -> bool)
    requires All(g.peers, P) && EffectMeets(cfg, g, ev, env, P)
    ensures var r := Step(cfg, g, ev, env); r.Some? ==> All(r.value.peers, P)
  {
    hide Step, EffectOf, Acted, Leaves;
    StepIs(cfg, g, ev, env);
    var e := EffectOf(cfg, g, ev, env);
    if e.Acts? {
      RemoveIndex(g.peers, e.k);
    }
  }

  lemma {:induction false} AllAt(peers: seq<PeerState>, k: nat, P: PeerState -> bool)
    requires All(peers, P) && k < |peers|
    ensures P(peers[k])
  {
  }

  /** A peer as it appears. */
  ghost predicate Fresh(cfg: Config, p: PeerState) {
    && p.active.Some? && |p.conns| == 1 && p.conns[0].iface == p.active.value
    && exists id :: p.session == Some(NewSession(id, cfg.forceNc))
  }

  lemma {:induction false} AppearsFresh(cfg: Config, g: GroupState, ev: Event, env: Env)
    ensures var e := EffectOf(cfg, g, ev, env); e.Appears? ==> Fresh(cfg, e.p)
  {
    hide AddMap, PeerByAddr, PeerByOtherAddr, ScanOverread, IsConnected, NewSession;
  }

  // ---------------------------------------------------------------- sessions

  /** What holds of the session of a station's peer. */
  predicate SessionInv(p: PeerState) {
    p.session.Some? ==>
      var s := p.session.value;
      && (s.newIface.Some? ==> s.oldIface.Some?)
      && (SetUp(s) ==> s.oldIface.Some? && s.oldIface == p.active)
      && (s.phase != Idle ==> s.newIface.Some? && HasIface(p.conns, s.newIface.value) &&
                              s.newIface != s.oldIface && !s.nonCompliant)
  }

  predicate SetUp(s: SessionState) {
    s.phase == Initiated || s.phase == Established
  }

  /** Only a session whose setup was initiated is reported established, and a switch only for one in progress. */
  predicate Orderly(g: GroupState, ev: Event) {
    match ev
    case Establish(k) => k < |g.peers| && g.peers[k].session.Some? ==> SetUp(g.peers[k].session.value)
    case StateChange(k, initial, reason) =>
      initial && reason == Switch && k < |g.peers| && g.peers[k].session.Some? ==> InProgress(g.peers[k])
    case _ => true
  }

  lemma {:induction false} SetActiveKeepsRest(p: PeerState, mux: map<Mac, string>, i: Option<Iface>, granted: bool)
    ensures var q := SetActive(p, mux, i, granted).0; q.session == p.session && q.conns == p.conns
  {
    hide AddMap, AddrOf;
  }

  lemma {:induction false} TryNextSession(cfg: Config, p: PeerState, env: Env)
    requires SessionInv(p)
    ensures SessionInv(TryNext(cfg, p, env))
  {
    NextIfaceIsMaximal(p.conns, p.active);
    hide NextIface, HasIface, AddrOf, NonCompliant;
  }

  lemma {:induction false} NcTransferSession(p: PeerState, mux: map<Mac, string>, granted: bool)
    requires p.session.Some? && SessionInv(p)
    ensures SessionInv(NcTransfer(p, mux, granted).0)
  {
    hide SetActive, HasIface;
    SetActiveKeepsRest(p, mux, p.session.value.newIface, granted);
  }

  lemma {:induction false} AppendSession(p: PeerState, c: Conn)
    requires SessionInv(p)
    ensures SessionInv(p.(conns := p.conns + [c]))
  {
  }

  lemma {:induction false} ConnectSession(cfg: Config, p: PeerState, mux: map<Mac, string>, i: Iface, a: Mac, env: Env)
    requires SessionInv(p)
    ensures var o := ConnectPeer(cfg, p, mux, i, a, env); o.Done? ==> SessionInv(o.peer)
  {
    hide TryNext, NcTransfer, HasIface;
    AppendSession(p, Conn(i, a));
    var p0 := p.(conns := p.conns + [Conn(i, a)]);
    var p1 := if p0.session.Some? && p0.session.value.newIface.Some?
                 && i.priority > p0.session.value.newIface.value.priority
              then p0.(session := Some(p0.session.value.(phase := Idle))) else p0;
    TryNextSession(cfg, p1, env);
    var p2 := TryNext(cfg, p1, env);
    if p2.session.Some? {
      NcTransferSession(p2, mux, env.addLast);
    }
  }

  /** After the first step of a disconnection no session names `i`, except the old interface of a switch. */
  lemma {:induction false} LeaveSessionInv(p: PeerState, mux: map<Mac, string>, i: Iface, env: Env)
    requires SessionInv(p)
    ensures var (o, switching) := LeaveSession(p, mux, i, env);
      && o.Done? && o.mux == mux && SessionInv(o.peer)
      && o.peer.conns == p.conns && o.peer.active == p.active
      && (switching ==> o.peer.session.Some? && o.peer.session.value.phase == InTransition &&
                        o.peer.session.value.newIface != Some(i))
      && (!switching && o.peer.session.Some? ==>
            o.peer.session.value.oldIface != Some(i) && o.peer.session.value.newIface != Some(i))
  {
    hide HasIface, NcTransfer;
  }

  lemma {:induction false} DisconnectSession(cfg: Config, p: PeerState, mux: map<Mac, string>, i: Iface, env: Env)
    requires SessionInv(p)
    ensures var (o, drop) := DisconnectPeer(cfg, p, mux, i, env);
      o.Done? && (!drop ==> SessionInv(o.peer))
  {
    hide LeaveSession, SetActive, TryNext, DelConn, NextIface, HasIface;
    LeaveSessionInv(p, mux, i, env);
    var (left, switching) := LeaveSession(p, mux, i, env);
    var forced := left.peer.active == Some(i);
    SetActiveKeepsRest(left.peer, left.mux, None, true);
    var (p1, mux1, _) := if forced then SetActive(left.peer, left.mux, None, true) else (left.peer, left.mux, true);
    var p2 := p1.(conns := DelConn(p1.conns, i));
    KeepsOthers(p1.conns, i);
    assert SessionInv(p2);
    if switching {
      SetActiveKeepsRest(p2, mux1, p2.session.value.newIface, env.addLast);
    } else if p2.conns != [] {
      SetActiveKeepsRest(p2, mux1, NextIface(p2.conns, p2.active), env.addLast);
      var (p3, mux3, _) := if forced then SetActive(p2, mux1, NextIface(p2.conns, p2.active), env.addLast)
                           else (p2, mux1, true);
      assert SessionInv(p3);
      TryNextSession(cfg, p3, env);
    }
  }

  lemma {:induction false} KeepsOthers(conns: seq<Conn>, i: Iface)
    ensures forall j | j != i && HasIface(conns, j) :: HasIface(DelConn(conns, i), j)
  {
    AddrOfDelConn(conns, i, i);
  }

  lemma {:induction false} InitialSession(cfg: Config, p: PeerState, mux: map<Mac, string>, reason: Reason, again: bool, env: Env)
    requires p.session.Some? && SessionInv(p)
    ensures var o := InitialPeer(cfg, p, mux, reason, again, env);
      && ((reason == Switch ==> InProgress(p)) ==> o.Done?)
      && (o.Done? ==> SessionInv(o.peer))
  {
    hide SetActive, TryNext, HasIface;
    SetActiveKeepsRest(p, mux, p.session.value.newIface, env.addLast);
    var s := p.session.value;
    var p1 := if reason == Switch then SetActive(p, mux, s.newIface, env.addLast).0 else p;
    TryNextSession(cfg, p1.(session := None), env);
  }

  lemma {:induction false} TransferSession(cfg: Config, p: PeerState, mux: map<Mac, string>, env: Env)
    requires p.session.Some? && SessionInv(p) && InProgress(p)
    ensures var o := TransferPeer(cfg, p, mux, env); o.Done? && SessionInv(o.peer)
  {
    hide SetActive, TryNext, HasIface;
    var s := p.session.value;
    var p0 := p.(session := Some(s.(phase := InTransition)));
    SetActiveKeepsRest(p0, mux, s.newIface, env.addLast);
    var p1 := if env.transfer then SetActive(p0, mux, s.newIface, env.addLast).0 else p.(session := None);
    TryNextSession(cfg, p1, env);
  }

  lemma {:induction false} SessionActs(cfg: Config, g: GroupState, ev: Event, env: Env, k: nat)
    requires cfg.station && Orderly(g, ev) && EffectOf(cfg, g, ev, env) == Acts(k) && SessionInv(g.peers[k])
    ensures var o := Acted(cfg, g, ev, env, k);
      && (!ev.Connect? ==> o.Done?)
      && (o.Done? && !Leaves(cfg, g, ev, env, k) ==> SessionInv(o.peer))
  {
    hide SessionInv, ConnectPeer, DisconnectPeer, InitialPeer, TransferPeer, AddMap, PeerByAddr, PeerByOtherAddr, ScanOverread;
    var p := g.peers[k];
    match ev
    case Connect(ifname, addr) => ConnectSession(cfg, p, g.mux, FindIface(cfg.ifaces, ifname).value, addr, env);
    case Disconnect(ifname, _) => DisconnectSession(cfg, p, g.mux, FindIface(cfg.ifaces, ifname).value, env);
    case Establish(_) => EstablishSession(p);
    case StateChange(_, _, reason) => InitialSession(cfg, p, g.mux, reason, Again(cfg, g, reason), env);
    case SetupRequest(_, _) =>
    case Transfer(_, _) => TransferSession(cfg, p, g.mux, env);
  }

  lemma {:induction false} StepKeepsSessions(cfg: Config, g: GroupState, ev: Event, env: Env)
    requires cfg.station && All(g.peers, SessionInv) && Orderly(g, ev)
    ensures var r := Step(cfg, g, ev, env); r.Some? ==> All(r.value.peers, SessionInv)
    ensures !ev.Connect? ==> Step(cfg, g, ev, env).Some?
  {
    hide SessionInv, Step, Acted, Leaves, All, Orderly, Fresh;
    StepIs(cfg, g, ev, env);
    AppearsFresh(cfg, g, ev, env);
    var e := EffectOf(cfg, g, ev, env);
    if e.Acts? {
      AllAt(g.peers, e.k, SessionInv);
      SessionActs(cfg, g, ev, env, e.k);
    } else if e.Appears? {
      FreshSession(cfg, e.p);
    }
    StepKeeps(cfg, g, ev, env, SessionInv);
  }

  lemma {:induction false} FreshSession(cfg: Config, p: PeerState)
    requires Fresh(cfg, p)
    ensures SessionInv(p)
  {
  }

  lemma {:induction false} EstablishSession(p: PeerState)
    requires SessionInv(p) && p.session.Some? && SetUp(p.session.value)
    ensures SessionInv(p.(session := Some(p.session.value.(phase := Established))))
  {
    hide HasIface;
  }

  // ---------------------------------------------------------------- liveness

  /** The peer is connected, and active on some interface. */
  predicate Live(p: PeerState) {
    p.conns != [] && p.active.Some?
  }

  /** Filter additions are granted and sessions can be created. */
  predicate Granted(env: Env) {
    env.addFirst && env.addLast && env.sessionId.Some?
  }

  predicate Room(g: GroupState) {
    |g.peers| < MAX_FILTERS
  }

  lemma {:induction false} SetActiveGranted(p: PeerState, mux: map<Mac, string>, i: Iface)
    requires HasIface(p.conns, i) && |mux| < MAX_FILTERS
    ensures SetActive(p, mux, Some(i), true).0 == p.(active := Some(i))
  {
    AddrOfFound(p.conns, i);
    if p.active.Some? && AddrOf(p.conns, p.active.value).Some? {
      Shrink(mux, AddrOf(p.conns, p.active.value).value);
    }
    if AddrOf(p.conns, i).Some? {
      AddMapLookup(Deactivate(p, mux).1, AddrOf(p.conns, i).value, i.name, true);
    }
    hide AddMap, AddrOf, HasIface;
  }

  lemma {:induction false} SetInactive(p: PeerState, mux: map<Mac, string>)
    requires ActiveConnected(p)
    ensures var (q, mux', _) := SetActive(p, mux, None, true); q == p.(active := None) && |mux'| <= |mux|
  {
    if p.active.Some? {
      Shrink(mux, AddrOf(p.conns, p.active.value).value);
    }
  }

  lemma {:induction false} ConnectLive(cfg: Config, p: PeerState, mux: map<Mac, string>, i: Iface, a: Mac, env: Env)
    requires cfg.station && SessionInv(p) && Live(p) && Granted(env) && |mux| < MAX_FILTERS
    requires exists c | c in p.conns :: c.iface != i
    ensures var o := ConnectPeer(cfg, p, mux, i, a, env); o.Done? && Live(o.peer)
  {
    hide SetActive, AddrOf, NonCompliant, HasIface, NextIface;
    var p0 := p.(conns := p.conns + [Conn(i, a)]);
    var p1 := if p0.session.Some? && p0.session.value.newIface.Some?
                 && i.priority > p0.session.value.newIface.value.priority
              then p0.(session := Some(p0.session.value.(phase := Idle))) else p0;
    var p2 := TryNext(cfg, p1, env);
    TryNextSteersNothing(cfg, p1, env);
    TwoIfaces(p0.conns, p0.active, i);
    NextIfaceIsMaximal(p0.conns, p0.active);
    TryNextCompliance(cfg, p1, env);
    if p2.session.Some? && p2.session.value.nonCompliant {
      SetActiveGranted(p2, mux, p2.session.value.newIface.value);
    }
  }

  lemma {:induction false} TwoIfaces(conns: seq<Conn>, active: Option<Iface>, i: Iface)
    requires |conns| > 0 && conns[|conns| - 1].iface == i && exists c | c in conns :: c.iface != i
    ensures NextIface(conns, active).Some?
  {
    NextIfaceIsMaximal(conns, active);
  }

  /** With another interface to move to, a session left non-compliant was configured for it. */
  lemma {:induction false} TryNextCompliance(cfg: Config, p: PeerState, env: Env)
    requires cfg.station && p.active.Some? && NextIface(p.conns, p.active).Some?
    requires InProgress(p) ==> !p.session.value.nonCompliant
    ensures var q := TryNext(cfg, p, env);
      q.session.Some? && q.session.value.nonCompliant ==>
        q.session.value.newIface == NextIface(p.conns, p.active) && q.session.value.oldIface == p.active
  {
    hide NextIface, NonCompliant, AddrOf;
  }

  lemma {:induction false} DisconnectLive(cfg: Config, p: PeerState, mux: map<Mac, string>, i: Iface, env: Env)
    requires SessionInv(p) && Live(p) && ActiveConnected(p) && Granted(env) && |mux| < MAX_FILTERS
    ensures var (o, drop) := DisconnectPeer(cfg, p, mux, i, env); !drop ==> o.Done? && Live(o.peer)
  {
    hide LeaveSession, SetActive, TryNext, DelConn, NextIface, HasIface, AddrOf;
    LeaveSessionInv(p, mux, i, env);
    var (left, switching) := LeaveSession(p, mux, i, env);
    var forced := left.peer.active == Some(i);
    SetInactive(left.peer, left.mux);
    var (p1, mux1, _) := if forced then SetActive(left.peer, left.mux, None, true) else (left.peer, left.mux, true);
    var p2 := p1.(conns := DelConn(p1.conns, i));
    KeepsOthers(p1.conns, i);
    if switching {
      SetActiveGranted(p2, mux1, p2.session.value.newIface.value);
      NotEmpty(p2.conns, p2.session.value.newIface.value);
    } else if p2.conns != [] {
      var next := NextIface(p2.conns, p2.active);
      NextIfaceIsMaximal(p2.conns, p2.active);
      if forced {
        assert p2.conns[0] in p2.conns;
        SetActiveGranted(p2, mux1, next.value);
      }
      TryNextSteersNothing(cfg, if forced then SetActive(p2, mux1, next, true).0 else p2, env);
    }
  }

  lemma {:induction false} NotEmpty(conns: seq<Conn>, i: Iface)
    requires HasIface(conns, i)
    ensures conns != []
  {
  }

  lemma {:induction false} InitialLive(cfg: Config, p: PeerState, mux: map<Mac, string>, reason: Reason, again: bool, env: Env)
    requires p.session.Some? && SessionInv(p) && Live(p) && Granted(env) && |mux| < MAX_FILTERS
    requires reason == Switch ==> InProgress(p)
    ensures var o := InitialPeer(cfg, p, mux, reason, again, env); o.Done? && Live(o.peer)
  {
    hide SetActive, TryNext, HasIface;
    if reason == Switch {
      SetActiveGranted(p, mux, p.session.value.newIface.value);
    }
    var p1 := if reason == Switch then SetActive(p, mux, p.session.value.newIface, env.addLast).0 else p;
    TryNextSteersNothing(cfg, p1.(session := None), env);
  }

  lemma {:induction false} TransferLive(cfg: Config, p: PeerState, mux: map<Mac, string>, env: Env)
    requires p.session.Some? && SessionInv(p) && InProgress(p) && Live(p) && Granted(env) && |mux| < MAX_FILTERS
    ensures var o := TransferPeer(cfg, p, mux, env); o.Done? && Live(o.peer)
  {
    hide SetActive, TryNext, HasIface;
    var s := p.session.value;
    var p0 := p.(session := Some(s.(phase := InTransition)));
    SetActiveGranted(p0, mux, s.newIface.value);
    TryNextSteersNothing(cfg, SetActive(p0, mux, s.newIface, env.addLast).0, env);
    TryNextSteersNothing(cfg, p.(session := None), env);
  }

  /** The peer the elements lead to has a connection on another interface. */
  lemma {:induction false} LinkedPeer(peers: seq<PeerState>, i: Iface, a: Mac, env: Env, k: nat)
    requires k <= |peers|
    ensures var r := PeerByOtherAddr(peers, i, a, env, k);
      r < |peers| ==> exists c | c in peers[r].conns :: c.iface != i
    decreases |peers| - k
  {
    hide DumpNames;
    if k != |peers| {
      if exists c | c in peers[k].conns :: Linked(c, i, a, env) {
        var c :| c in peers[k].conns && Linked(c, i, a, env);
        assert c in peers[k].conns && c.iface != i;
      } else {
        LinkedPeer(peers, i, a, env, k + 1);
      }
    }
  }

  lemma {:induction false} LiveActs(cfg: Config, g: GroupState, ev: Event, env: Env, k: nat)
    requires cfg.station && Orderly(g, ev) && EffectOf(cfg, g, ev, env) == Acts(k)
    requires SessionInv(g.peers[k]) && Live(g.peers[k]) && ActiveConnected(g.peers[k]) && Granted(env) && |g.mux| < MAX_FILTERS
    ensures var o := Acted(cfg, g, ev, env, k); o.Done? && (!Leaves(cfg, g, ev, env, k) ==> Live(o.peer))
  {
    hide SessionInv, Live, ConnectPeer, DisconnectPeer, InitialPeer, TransferPeer, AddMap, PeerByAddr, PeerByOtherAddr,
         ScanOverread, ActiveConnected, HasIface;
    var p := g.peers[k];
    match ev
    case Connect(ifname, addr) =>
      LinkedPeer(g.peers, FindIface(cfg.ifaces, ifname).value, addr, env, 0);
      ConnectLive(cfg, p, g.mux, FindIface(cfg.ifaces, ifname).value, addr, env);
    case Disconnect(ifname, _) =>
      DisconnectLive(cfg, p, g.mux, FindIface(cfg.ifaces, ifname).value, env);
      DisconnectSession(cfg, p, g.mux, FindIface(cfg.ifaces, ifname).value, env);
    case Establish(_) => SameLive(p, Acted(cfg, g, ev, env, k).peer);
    case StateChange(_, _, reason) => InitialLive(cfg, p, g.mux, reason, Again(cfg, g, reason), env);
    case SetupRequest(_, _) =>
    case Transfer(_, _) => TransferLive(cfg, p, g.mux, env);
  }

  lemma {:induction false} StepKeepsLive(cfg: Config, g: GroupState, ev: Event, env: Env)
    requires cfg.station && All(g.peers, SessionInv) && All(g.peers, Live) && MapInv(g)
    requires Orderly(g, ev) && !EffectOf(cfg, g, ev, env).Overreads?
    requires EffectOf(cfg, g, ev, env).Acts? ==> Granted(env) && Room(g)
    ensures var r := Step(cfg, g, ev, env); r.Some? && All(r.value.peers, Live)
  {
    hide SessionInv, Live, Step, EffectOf, Acted, Leaves, All, Orderly, MapInv, ActiveConnected, Fresh;
    MapSize(g);
    StepIs(cfg, g, ev, env);
    AppearsFresh(cfg, g, ev, env);
    var e := EffectOf(cfg, g, ev, env);
    if e.Acts? {
      AllAt(g.peers, e.k, SessionInv);
      AllAt(g.peers, e.k, Live);
      PeerFacts(g, e.k);
      LiveActs(cfg, g, ev, env, e.k);
    } else if e.Appears? {
      FreshLive(cfg, e.p);
    }
    StepKeeps(cfg, g, ev, env, Live);
  }

  lemma {:induction false} FreshLive(cfg: Config, p: PeerState)
    requires Fresh(cfg, p)
    ensures Live(p)
  {
  }

  lemma {:induction false} SameLive(p: PeerState, q: PeerState)
    requires Live(p) && q.conns == p.conns && q.active == p.active
    ensures Live(q)
  {
  }

  // ---------------------------------------------------------------- forced non-compliant mode

  predicate LocalSession(p: PeerState) {
    p.session.Some? ==> p.session.value.phase == Idle && p.session.value.nonCompliant
  }

  /** No connection of the peer outranks its active interface. */
  predicate TopActive(p: PeerState) {
    p.active.Some? && forall c | c in p.conns :: c.iface.priority <= p.active.value.priority
  }

  predicate ForcedInv(p: PeerState) {
    LocalSession(p) && TopActive(p)
  }

  lemma {:induction false} TryNextForced(cfg: Config, p: PeerState, env: Env)
    requires cfg.forceNc && LocalSession(p)
    ensures LocalSession(TryNext(cfg, p, env))
  {
    hide NextIface, AddrOf;
  }

  lemma {:induction false} ConnectForced(cfg: Config, p: PeerState, mux: map<Mac, string>, i: Iface, a: Mac, env: Env)
    requires cfg.station && cfg.forceNc && ForcedInv(p) && Granted(env) && |mux| < MAX_FILTERS
    requires exists c | c in p.conns :: c.iface != i
    ensures var o := ConnectPeer(cfg, p, mux, i, a, env); o.Done? ==> ForcedInv(o.peer)
  {
    hide SetActive, AddrOf, HasIface, NextIface, NonCompliant;
    var p0 := p.(conns := p.conns + [Conn(i, a)]);
    var p1 := if p0.session.Some? && p0.session.value.newIface.Some?
                 && i.priority > p0.session.value.newIface.value.priority
              then p0.(session := Some(p0.session.value.(phase := Idle))) else p0;
    var p2 := TryNext(cfg, p1, env);
    TryNextSteersNothing(cfg, p1, env);
    TryNextForced(cfg, p1, env);
    TwoIfaces(p0.conns, p0.active, i);
    NextIfaceIsMaximal(p0.conns, p0.active);
    TryNextCompliance(cfg, p1, env);
    SetActiveGranted(p2, mux, NextIface(p0.conns, p0.active).value);
    TryNextHasSession(cfg, p1, env);
  }

  lemma {:induction false} TryNextHasSession(cfg: Config, p: PeerState, env: Env)
    requires cfg.station && p.active.Some? && env.sessionId.Some?
    ensures TryNext(cfg, p, env).session.Some?
  {
  }

  lemma {:induction false} DisconnectForced(cfg: Config, p: PeerState, mux: map<Mac, string>, i: Iface, env: Env)
    requires cfg.forceNc && ForcedInv(p) && ActiveConnected(p) && Granted(env) && |mux| < MAX_FILTERS
    ensures var (o, drop) := DisconnectPeer(cfg, p, mux, i, env); !drop && o.Done? ==> ForcedInv(o.peer)
  {
    hide SetActive, TryNext, NextIface, DelConn, HasIface, AddrOf;
    var (left, switching) := LeaveSession(p, mux, i, env);
    var forced := left.peer.active == Some(i);
    SetInactive(left.peer, left.mux);
    var (p1, mux1, _) := if forced then SetActive(left.peer, left.mux, None, true) else (left.peer, left.mux, true);
    var p2 := p1.(conns := DelConn(p1.conns, i));
    AddrOfDelConn(p1.conns, i, i);
    if p2.conns != [] {
      var next := NextIface(p2.conns, p2.active);
      NextIfaceIsMaximal(p2.conns, p2.active);
      if forced {
        assert p2.conns[0] in p2.conns;
        SetActiveGranted(p2, mux1, next.value);
      }
      var p3 := if forced then SetActive(p2, mux1, next, true).0 else p2;
      assert ForcedInv(p3);
      TryNextSteersNothing(cfg, p3, env);
      TryNextForced(cfg, p3, env);
    }
  }

  lemma {:induction false} InitialForced(cfg: Config, p: PeerState, mux: map<Mac, string>, reason: Reason, again: bool, env: Env)
    requires cfg.forceNc && p.session.Some? && ForcedInv(p) && (reason == Switch ==> InProgress(p))
    ensures var o := InitialPeer(cfg, p, mux, reason, again, env); o.Done? ==> ForcedInv(o.peer)
  {
    hide SetActive, TryNext;
    TryNextSteersNothing(cfg, p.(session := None), env);
    TryNextForced(cfg, p.(session := None), env);
  }

  lemma {:induction false} ForcedActs(cfg: Config, g: GroupState, ev: Event, env: Env, k: nat)
    requires cfg.station && cfg.forceNc && Orderly(g, ev) && EffectOf(cfg, g, ev, env) == Acts(k)
    requires ForcedInv(g.peers[k]) && ActiveConnected(g.peers[k]) && Granted(env) && |g.mux| < MAX_FILTERS
    ensures var o := Acted(cfg, g, ev, env, k); o.Done? && !Leaves(cfg, g, ev, env, k) ==> ForcedInv(o.peer)
  {
    hide ForcedInv, ConnectPeer, DisconnectPeer, InitialPeer, TransferPeer, AddMap, PeerByAddr, PeerByOtherAddr,
         ScanOverread, ActiveConnected;
    var p := g.peers[k];
    NotInProgress(p);
    match ev
    case Connect(ifname, addr) =>
      LinkedPeer(g.peers, FindIface(cfg.ifaces, ifname).value, addr, env, 0);
      ConnectForced(cfg, p, g.mux, FindIface(cfg.ifaces, ifname).value, addr, env);
    case Disconnect(ifname, _) => DisconnectForced(cfg, p, g.mux, FindIface(cfg.ifaces, ifname).value, env);
    case Establish(_) =>
    case StateChange(_, _, reason) => InitialForced(cfg, p, g.mux, reason, Again(cfg, g, reason), env);
    case SetupRequest(_, _) =>
    case Transfer(_, _) =>
  }

  lemma {:induction false} StepKeepsForced(cfg: Config, g: GroupState, ev: Event, env: Env)
    requires cfg.station && cfg.forceNc && All(g.peers, ForcedInv) && MapInv(g)
    requires Orderly(g, ev) && (EffectOf(cfg, g, ev, env).Acts? ==> Granted(env) && Room(g))
    ensures var r := Step(cfg, g, ev, env); r.Some? ==> All(r.value.peers, ForcedInv)
  {
    hide ForcedInv, Step, EffectOf, Acted, Leaves, All, Orderly, MapInv, ActiveConnected, Fresh;
    MapSize(g);
    AppearsFresh(cfg, g, ev, env);
    var e := EffectOf(cfg, g, ev, env);
    if e.Acts? {
      AllAt(g.peers, e.k, ForcedInv);
      PeerFacts(g, e.k);
      ForcedActs(cfg, g, ev, env, e.k);
    } else if e.Appears? {
      FreshForced(cfg, e.p);
    }
    StepKeeps(cfg, g, ev, env, ForcedInv);
  }

  lemma {:induction false} NotInProgress(p: PeerState)
    requires ForcedInv(p)
    ensures !InProgress(p)
  {
  }

  lemma {:induction false} FreshForced(cfg: Config, p: PeerState)
    requires cfg.forceNc && Fresh(cfg, p)
    ensures ForcedInv(p)
  {
  }

  // ---------------------------------------------------------------- every run of a station

  /** Whichever external calls fail: a session that is initiated or established leaves from the active interface
      of its peer, and every session in progress goes to another, connected interface. */
  lemma {:induction false} SessionsOverRuns(cfg: Config, inputs: seq<Input>, states: seq<GroupState>, n: nat)
    requires cfg.station && Run(cfg, inputs, states) && n < |states|
    requires forall k | 0 <= k < n :: Orderly(states[k], inputs[k].0)
    ensures All(states[n].peers, SessionInv)
  {
    hide Step, Orderly, SessionInv;
    if n > 0 {
      SessionsOverRuns(cfg, inputs, states, n - 1);
      assert Step(cfg, states[n - 1], inputs[n - 1].0, inputs[n - 1].1) == Some(states[n - 1 + 1]);
      StepKeepsSessions(cfg, states[n - 1], inputs[n - 1].0, inputs[n - 1].1);
    }
  }

  /** The world numbers addresses properly, reports in order, gives no dump that is overread, and grants filters and
      sessions to the peers there are; a new peer may be refused. */
  ghost predicate Obliging(cfg: Config, g: GroupState, input: Input) {
    && OneOwner(cfg, g, input.0, input.1) && Orderly(g, input.0)
    && !EffectOf(cfg, g, input.0, input.1).Overreads?
    && (EffectOf(cfg, g, input.0, input.1).Acts? ==> Granted(input.1) && Room(g))
  }

  /** If filters and sessions are granted, no handover or disconnection leaves a connected peer without an
      active interface, and no event handler dereferences null. */
  lemma {:induction false} LiveOverRuns(cfg: Config, inputs: seq<Input>, states: seq<GroupState>, n: nat)
    requires cfg.station && Run(cfg, inputs, states) && n < |states|
    requires forall k | 0 <= k < n :: Obliging(cfg, states[k], inputs[k])
    ensures All(states[n].peers, Live) && All(states[n].peers, ActiveConnected)
    ensures forall input: Input | Obliging(cfg, states[n], input) :: Step(cfg, states[n], input.0, input.1).Some?
  {
    hide Step, OneOwner, Orderly, Granted, Room, Live;
    RunKeepsMap(cfg, inputs, states, n);
    SessionsOverRuns(cfg, inputs, states, n);
    if n > 0 {
      LiveOverRuns(cfg, inputs, states, n - 1);
      RunKeepsMap(cfg, inputs, states, n - 1);
      SessionsOverRuns(cfg, inputs, states, n - 1);
      assert Step(cfg, states[n - 1], inputs[n - 1].0, inputs[n - 1].1) == Some(states[n - 1 + 1]);
      StepKeepsLive(cfg, states[n - 1], inputs[n - 1].0, inputs[n - 1].1);
    }
    forall input: Input | Obliging(cfg, states[n], input) ensures Step(cfg, states[n], input.0, input.1).Some? {
      StepKeepsLive(cfg, states[n], input.0, input.1);
    }
  }

  /** In forced non-compliant mode the active interface always has the highest priority the peer is connected on. */
  lemma {:induction false} ForcedOverRuns(cfg: Config, inputs: seq<Input>, states: seq<GroupState>, n: nat)
    requires cfg.station && cfg.forceNc && Run(cfg, inputs, states) && n < |states|
    requires forall k | 0 <= k < n :: Obliging(cfg, states[k], inputs[k])
    ensures All(states[n].peers, ForcedInv)
  {
    hide Step, OneOwner, Orderly, Granted, Room, ForcedInv;
    if n > 0 {
      ForcedOverRuns(cfg, inputs, states, n - 1);
      RunKeepsMap(cfg, inputs, states, n - 1);
      assert Step(cfg, states[n - 1], inputs[n - 1].0, inputs[n - 1].1) == Some(states[n - 1 + 1]);
      StepKeepsForced(cfg, states[n - 1], inputs[n - 1].0, inputs[n - 1].1);
    }
  }

  // ---------------------------------------------------------------- when a handler dereferences null

  /** A new connection of the k-th peer, to which its elements lead. */
  predicate Joins(cfg: Config, g: GroupState, ev: Event, env: Env, k: nat) {
    ev.Connect? && EffectOf(cfg, g, ev, env) == Acts(k)
  }

  /** A peer whose non-compliant session has nowhere to go from. */
  predicate Stranded(p: PeerState) {
    p.active.None? && p.session.Some? && p.session.value.nonCompliant
  }

  lemma {:induction false} ConnectCrash(cfg: Config, p: PeerState, mux: map<Mac, string>, i: Iface, a: Mac, env: Env)
    requires cfg.station && SessionInv(p) && exists c | c in p.conns :: c.iface != i
    ensures ConnectPeer(cfg, p, mux, i, a, env).Crash? <==> Stranded(p)
  {
    hide SetActive, AddrOf, NonCompliant, HasIface, NextIface, NcTransfer;
    var p0 := p.(conns := p.conns + [Conn(i, a)]);
    var p1 := if p0.session.Some? && p0.session.value.newIface.Some?
                 && i.priority > p0.session.value.newIface.value.priority
              then p0.(session := Some(p0.session.value.(phase := Idle))) else p0;
    TryNextSteersNothing(cfg, p1, env);
    TwoIfaces(p0.conns, p0.active, i);
    if p.active.Some? {
      TryNextCompliance(cfg, p1, env);
    }
  }

  /** On a station, whatever fails: a handler goes wrong exactly when it overreads a dump, or when a stranded peer
      connects anew; then it dereferences null. */
  lemma {:induction false} StationCrashesIff(cfg: Config, g: GroupState, ev: Event, env: Env)
    requires cfg.station && All(g.peers, SessionInv) && Orderly(g, ev)
    ensures Step(cfg, g, ev, env).None? <==>
            EffectOf(cfg, g, ev, env).Overreads? || exists k: nat :: Joins(cfg, g, ev, env, k) && Stranded(g.peers[k])
  {
    hide SessionInv, ConnectPeer, Step, All, Stranded, Orderly, PeerByOtherAddr, ScanOverread, AddMap, IsConnected;
    StepKeepsSessions(cfg, g, ev, env);
    StepIs(cfg, g, ev, env);
    var e := EffectOf(cfg, g, ev, env);
    if ev.Connect? && e.Acts? {
      var i := FindIface(cfg.ifaces, ev.ifname).value;
      AllAt(g.peers, e.k, SessionInv);
      LinkedPeer(g.peers, i, ev.addr, env, 0);
      ConnectCrash(cfg, g.peers[e.k], g.mux, i, ev.addr, env);
    }
  }

  /** The scan comes as far as the j-th connection of the k-th peer: none before it is linked to the new one. */
  predicate ScannedTo(peers: seq<PeerState>, i: Iface, a: Mac, env: Env, k: nat, j: nat)
    requires k < |peers| && j < |peers[k].conns|
  {
    && (forall p | p in peers[..k] :: forall c | c in p.conns :: !Linked(c, i, a, env))
    && (forall c | c in peers[k].conns[..j] :: !Linked(c, i, a, env))
  }

  /** Of the two dumps asked for a connection on another interface, the first is cut short, or the second after the
      first said no. */
  ghost predicate CutShortFor(c: Conn, i: Iface, a: Mac, env: Env) {
    && c.iface.name != i.name
    && var first, second := env.mbies(c.iface.name, c.addr), env.mbies(i.name, a);
       CutShort(first, a) || (DumpSays(first, a) == Some(false) && CutShort(second, c.addr))
  }

  /** And it overreads a dump exactly when the scan for the peer of a new connection comes to a connection for which a
      dump is cut short. */
  lemma {:induction false} OverreadsIff(cfg: Config, g: GroupState, ev: Event, env: Env)
    ensures EffectOf(cfg, g, ev, env).Overreads? <==>
      Heard(cfg, g, ev, env) && var i := FindIface(cfg.ifaces, ev.ifname).value;
        exists k, j | 0 <= k < |g.peers| && 0 <= j < |g.peers[k].conns| ::
          ScannedTo(g.peers, i, ev.addr, env, k, j) && CutShortFor(g.peers[k].conns[j], i, ev.addr, env)
    ensures EffectOf(cfg, g, ev, env).Overreads? ==> Step(cfg, g, ev, env).None?
  {
    hide ScanOverread, PeerByOtherAddr, PeerByAddr, IsConnected, AddMap, ConnectPeer, ScannedTo, CutShortFor;
    if Heard(cfg, g, ev, env) {
      ScanOverreadIff(g.peers, FindIface(cfg.ifaces, ev.ifname).value, ev.addr, env);
    }
  }

  lemma {:induction false} CutShortForIff(c: Conn, i: Iface, a: Mac, env: Env)
    ensures Overread(c, i, a, env) <==> CutShortFor(c, i, a, env)
  {
    hide CutShort, DumpSays;
    DumpOverreadIff(env.mbies(c.iface.name, c.addr), a);
    DumpOverreadIff(env.mbies(i.name, a), c.addr);
  }

  lemma {:induction false} PeerOverreadIff(conns: seq<Conn>, i: Iface, a: Mac, env: Env, j: nat)
    requires j <= |conns| && forall c | c in conns[..j] :: !Linked(c, i, a, env)
    ensures PeerOverread(conns, i, a, env, j) <==>
            exists n | j <= n < |conns| :: Overread(conns[n], i, a, env) && forall c | c in conns[..n] :: !Linked(c, i, a, env)
    decreases |conns| - j
  {
    hide Linked, Overread;
    if j < |conns| {
      assert conns[..j + 1] == conns[..j] + [conns[j]];
      if !Linked(conns[j], i, a, env) {
        PeerOverreadIff(conns, i, a, env, j + 1);
      } else {
        forall n | j < n < |conns| ensures conns[j] in conns[..n] {
          assert conns[..n][j] == conns[j];
        }
      }
    }
  }

  lemma {:induction false} ScanOverreadFrom(peers: seq<PeerState>, i: Iface, a: Mac, env: Env, k: nat)
    requires k <= |peers| && forall p | p in peers[..k] :: forall c | c in p.conns :: !Linked(c, i, a, env)
    ensures ScanOverread(peers, i, a, env, k) <==>
            exists m, j | k <= m < |peers| && 0 <= j < |peers[m].conns| ::
              ScannedTo(peers, i, a, env, m, j) && Overread(peers[m].conns[j], i, a, env)
    decreases |peers| - k
  {
    hide Linked, Overread, PeerOverread;
    if k < |peers| {
      PeerOverreadIff(peers[k].conns, i, a, env, 0);
      assert peers[..k + 1] == peers[..k] + [peers[k]];
      if exists c | c in peers[k].conns :: Linked(c, i, a, env) {
        forall m | k < m < |peers| ensures peers[k] in peers[..m] {
          assert peers[..m][k] == peers[k];
        }
      } else {
        ScanOverreadFrom(peers, i, a, env, k + 1);
      }
    }
  }

  lemma {:induction false} ScanOverreadIff(peers: seq<PeerState>, i: Iface, a: Mac, env: Env)
    ensures ScanOverread(peers, i, a, env) <==>
            exists k, j | 0 <= k < |peers| && 0 <= j < |peers[k].conns| ::
              ScannedTo(peers, i, a, env, k, j) && CutShortFor(peers[k].conns[j], i, a, env)
  {
    hide ScanOverread, ScannedTo, Overread, CutShortFor;
    ScanOverreadFrom(peers, i, a, env, 0);
    forall k, j | 0 <= k < |peers| && 0 <= j < |peers[k].conns|
      ensures Overread(peers[k].conns[j], i, a, env) <==> CutShortFor(peers[k].conns[j], i, a, env)
    {
      CutShortForIff(peers[k].conns[j], i, a, env);
    }
  }

  /** One refused filter strands a peer: the forced transfer to a better interface left it without any. */
  lemma {:induction false} RefusedFilterStrands(cfg: Config, p: PeerState, mux: map<Mac, string>, i: Iface, a: Mac, env: Env)
    requires cfg.station && ForcedInv(p) && ActiveConnected(p) && cfg.forceNc && env.sessionId.Some? && !env.addLast
    requires (forall c | c in p.conns :: c.iface.priority < i.priority) && p.conns != []
    ensures var o := ConnectPeer(cfg, p, mux, i, a, env);
      o.Done? && Stranded(o.peer) && o.peer.conns == p.conns + [Conn(i, a)]
  {
    hide NonCompliant, NextIface, HasIface, AddrOf, TryNext, SetActive;
    var p0 := p.(conns := p.conns + [Conn(i, a)]);
    var p1 := if p0.session.Some? && p0.session.value.newIface.Some?
                 && i.priority > p0.session.value.newIface.value.priority
              then p0.(session := Some(p0.session.value.(phase := Idle))) else p0;
    TryNextHasSession(cfg, p1, env);
    TryNextSteersNothing(cfg, p1, env);
    TryNextForced(cfg, p1, env);
    assert p.conns[0] in p.conns && p0.conns[|p.conns|] == Conn(i, a);
    TwoIfaces(p0.conns, p0.active, i);
    NextIfaceIsMaximal(p0.conns, p0.active);
    TryNextCompliance(cfg, p1, env);
    AddrOfFound(p.conns, p.active.value);
    assert p.active.value.priority < i.priority;
    AppendStays(p, i, a);
    var p2 := TryNext(cfg, p1, env);
    Refused(p2, mux, p2.session.value.newIface.value);
  }

  lemma {:induction false} AppendStays(p: PeerState, i: Iface, a: Mac)
    requires ActiveConnected(p)
    ensures ActiveConnected(p.(conns := p.conns + [Conn(i, a)]))
  {
    if p.active.Some? {
      AddrOfAppend(p.conns, Conn(i, a), p.active.value);
    }
  }

  lemma {:induction false} Refused(p: PeerState, mux: map<Mac, string>, i: Iface)
    requires ActiveConnected(p) && p.active != Some(i)
    ensures SetActive(p, mux, Some(i), false).0 == p.(active := None)
  {
    hide AddrOf;
  }

  // ---------------------------------------------------------------- runs that end in a null dereference

  /** A world that answers yes, except to filter additions unless `granted`, and in which every dump is that of an
      access point with BSSID `a`. */
  function World(a: Mac, granted: bool): Env {
    Env(Some(1), true, true, true, true, true, true, true, true, true, true, granted, (_, _) => ApDump(a))
  }

  /** In it no scan overreads, and a connection of `a` on another interface is linked. */
  lemma {:induction false} WorldLinks(peers: seq<PeerState>, i: Iface, a: Mac, b: Mac, c: Conn, granted: bool)
    requires |peers| == 1 && c in peers[0].conns && c.addr == a && c.iface.name != i.name
    ensures !ScanOverread(peers, i, b, World(a, granted)) && PeerByOtherAddr(peers, i, b, World(a, granted)) == 0
  {
    hide DumpSays, ApDump;
    ApDumpNames(a, b);
    ApDumpNames(a, a);
    WorldReads(peers[0].conns, i, a, b, granted, 0);
    assert Linked(c, i, b, World(a, granted));
  }

  lemma {:induction false} WorldReads(conns: seq<Conn>, i: Iface, a: Mac, b: Mac, granted: bool, j: nat)
    requires j <= |conns|
    ensures !PeerOverread(conns, i, b, World(a, granted), j)
    decreases |conns| - j
  {
    hide DumpSays, ApDump;
    if j < |conns| {
      ApDumpNames(a, b);
      ApDumpNames(a, conns[j].addr);
      WorldReads(conns, i, a, b, granted, j + 1);
    }
  }

  /** The first connection there is. */
  lemma {:induction false} FirstPeer(cfg: Config, i: Iface, a: Mac)
    requires FindIface(cfg.ifaces, i.name) == Some(i) && |cfg.ifaces| >= 2
    ensures var p := PeerState(Some(NewSession(1, cfg.forceNc)), Some(i), [Conn(i, a)]);
      Step(cfg, START, Connect(i.name, a), World(a, true)) == Some(GroupState([p], map[a := i.name], 0))
  {
    hide ApDump;
    var p := PeerState(Some(NewSession(1, cfg.forceNc)), Some(i), [Conn(i, a)]);
    assert START.mux - {a} == START.mux;
    assert AddMap(START.mux, a, i.name, true) == (map[a := i.name], true);
    assert START.peers + [p] == [p];
    assert !ScanOverread(START.peers, i, a, World(a, true)) && PeerByOtherAddr(START.peers, i, a, World(a, true)) == 0;
  }

  lemma {:induction false} SecondConnection(cfg: Config, g: GroupState, i: Iface, b: Mac, c: Conn, granted: bool)
    requires FindIface(cfg.ifaces, i.name) == Some(i) && |cfg.ifaces| >= 2 && |g.peers| == 1
    requires c in g.peers[0].conns && c.iface.name != i.name && Conn(i, b) !in g.peers[0].conns
    requires forall d | d in g.peers[0].conns && d.iface.name == i.name :: d.iface == i
    ensures var ev, env := Connect(i.name, b), World(c.addr, granted);
      && Joins(cfg, g, ev, env, 0) && Step(cfg, g, ev, env) == Put(g, 0, ConnectPeer(cfg, g.peers[0], g.mux, i, b, env))
  {
    hide ApDump, ScanOverread, PeerByOtherAddr, ConnectPeer, Put;
    WorldLinks(g.peers, i, c.addr, b, c, granted);
    assert forall p | p in g.peers :: p == g.peers[0];
    assert !IsConnected(g.peers, i.name, b);
  }

  /** Every station in the forced mode, whatever its peers' addresses: a peer that connects on `x`, then on `y` of
      higher priority with its filter refused, and then on `z` makes it dereference null. Nothing else is refused. */
  lemma {:induction false} ForcedStationReachesNull(cfg: Config, x: Iface, y: Iface, z: Iface, a: Mac, b: Mac, c: Mac)
    returns (inputs: seq<Input>, states: seq<GroupState>)
    requires cfg.station && cfg.forceNc && |cfg.ifaces| >= 2
    requires forall i | i in {x, y, z} :: FindIface(cfg.ifaces, i.name) == Some(i)
    requires x.priority < y.priority && z.name != x.name && (z.name == y.name ==> c != b)
    ensures inputs == [(Connect(x.name, a), World(a, true)), (Connect(y.name, b), World(a, false))]
    ensures Run(cfg, inputs, states) && forall k | 0 <= k < 2 :: Orderly(states[k], inputs[k].0)
    ensures var ev, env := Connect(z.name, c), World(a, true);
      !EffectOf(cfg, states[2], ev, env).Overreads? && Step(cfg, states[2], ev, env).None?
  {
    hide ApDump, Step, ConnectPeer, EffectOf, ForcedInv, ActiveConnected, Stranded;
    assert FindIface(cfg.ifaces, x.name) == Some(x) && FindIface(cfg.ifaces, y.name) == Some(y);
    assert x.name != y.name;
    FirstPeer(cfg, x, a);
    var p := PeerState(Some(NewSession(1, true)), Some(x), [Conn(x, a)]);
    var g1 := GroupState([p], map[a := x.name], 0);
    FirstIsForced(p, x, a);
    SecondConnection(cfg, g1, y, b, Conn(x, a), false);
    RefusedFilterStrands(cfg, p, g1.mux, y, b, World(a, false));
    ConnectSession(cfg, p, g1.mux, y, b, World(a, false));
    var o := ConnectPeer(cfg, p, g1.mux, y, b, World(a, false));
    var g2 := Put(g1, 0, o).value;
    assert g2.peers == [o.peer];
    assert o.peer.conns[0] == Conn(x, a);
    SecondConnection(cfg, g2, z, c, Conn(x, a), true);
    ConnectCrash(cfg, o.peer, o.mux, z, c, World(a, true));
    inputs := [(Connect(x.name, a), World(a, true)), (Connect(y.name, b), World(a, false))];
    states := [START, g1, g2];
  }

  /** Any manager, forced or not: two connections are enough for a dump of two bytes to be overread. */
  lemma {:induction false} TruncatedDumpIsReached(cfg: Config, x: Iface, y: Iface, a: Mac, b: Mac)
    requires |cfg.ifaces| >= 2 && x.name != y.name
    requires FindIface(cfg.ifaces, x.name) == Some(x) && FindIface(cfg.ifaces, y.name) == Some(y)
    ensures var g := Step(cfg, START, Connect(x.name, a), World(a, true));
      g.Some? && EffectOf(cfg, g.value, Connect(y.name, b), World(a, true).(mbies := (_, _) => "9e16")).Overreads?
  {
    hide ApDump, Step, DumpSays, PeerByOtherAddr;
    FirstPeer(cfg, x, a);
    TwoBytesAreOverread(b);
    var g := Step(cfg, START, Connect(x.name, a), World(a, true)).value;
    var env := World(a, true).(mbies := (_, _) => "9e16");
    assert env.mbies(x.name, a) == "9e16";
    assert Overread(g.peers[0].conns[0], y, b, env);
    assert PeerOverread(g.peers[0].conns, y, b, env);
  }

  lemma {:induction false} FirstIsForced(p: PeerState, i: Iface, a: Mac)
    requires p == PeerState(Some(NewSession(1, true)), Some(i), [Conn(i, a)])
    ensures SessionInv(p) && ForcedInv(p) && ActiveConnected(p)
  {
    assert p.conns[0].iface == i;
  }

  // ---------------------------------------------------------------- access points

  /** On an access point a non-compliant session is one no setup request has filled. */
  predicate ApInv(p: PeerState) {
    p.session.Some? ==>
      && (p.session.value.nonCompliant ==> p.session.value.newIface.None? && p.session.value.phase == Idle)
      && (p.session.value.phase != Idle ==> p.session.value.newIface.Some?)
  }

  predicate Compliant(p: PeerState) {
    p.session.Some? ==> !p.session.value.nonCompliant
  }

  lemma {:induction false} ApConnect(cfg: Config, p: PeerState, mux: map<Mac, string>, i: Iface, a: Mac, env: Env)
    requires !cfg.station && ApInv(p)
    ensures var o := ConnectPeer(cfg, p, mux, i, a, env);
      && (o.Crash? <==> !Compliant(p))
      && (o.Done? ==> ApInv(o.peer) && Compliant(o.peer))
  {
    hide NcTransfer;
  }

  lemma {:induction false} ApDisconnect(cfg: Config, p: PeerState, mux: map<Mac, string>, i: Iface, env: Env)
    requires !cfg.station && ApInv(p)
    ensures var (o, _) := DisconnectPeer(cfg, p, mux, i, env);
      o.Done? && ApInv(o.peer) && (Compliant(p) ==> Compliant(o.peer))
  {
    hide SetActive, DelConn, NextIface;
    SetActiveKeepsRest(p, mux, None, true);
    var (left, switching) := LeaveSession(p, mux, i, env);
    var (p1, mux1, _) := if left.peer.active == Some(i) then SetActive(left.peer, left.mux, None, true)
                         else (left.peer, left.mux, true);
    SetActiveKeepsRest(left.peer, left.mux, None, true);
    var p2 := p1.(conns := DelConn(p1.conns, i));
    if switching {
      SetActiveKeepsRest(p2, mux1, p2.session.value.newIface, env.addLast);
    }
    SetActiveKeepsRest(p2, mux1, NextIface(p2.conns, p2.active), env.addLast);
  }

  lemma {:induction false} ApSessionSteps(cfg: Config, p: PeerState, mux: map<Mac, string>, reason: Reason, again: bool,
                                          env: Env)
    requires !cfg.station && ApInv(p) && p.session.Some?
    ensures var o := InitialPeer(cfg, p, mux, reason, again, env);
      && ((reason == Switch ==> InProgress(p)) ==> o.Done?)
      && (o.Done? ==> ApInv(o.peer) && Compliant(o.peer))
    ensures var o := TransferPeer(cfg, p, mux, env);
      InProgress(p) ==> o.Done? && ApInv(o.peer) && Compliant(o.peer)
  {
    hide SetActive, AddrOf;
    SetActiveKeepsRest(p.(session := Some(p.session.value.(phase := InTransition))), mux, p.session.value.newIface, env.addLast);
    SetActiveKeepsRest(p, mux, p.session.value.newIface, env.addLast);
  }

  lemma {:induction false} ApSetup(p: PeerState, mux: map<Mac, string>, oldI: Iface, newI: Iface, llt: nat,
                                   id: Option<nat>, env: Env)
    requires ApInv(p)
    ensures var o := SetupPeer(p, mux, oldI, newI, llt, id, env);
      o.Done? && ApInv(o.peer) && (Compliant(p) ==> Compliant(o.peer))
  {
    hide SetActive;
    SetActiveKeepsRest(p, mux, Some(oldI), env.addLast);
  }

  lemma {:induction false} ApActs(cfg: Config, g: GroupState, ev: Event, env: Env, k: nat)
    requires !cfg.station && Orderly(g, ev) && EffectOf(cfg, g, ev, env) == Acts(k) && ApInv(g.peers[k])
    ensures var o := Acted(cfg, g, ev, env, k);
      && (o.Crash? <==> ev.Connect? && !Compliant(g.peers[k]))
      && (o.Done? ==> ApInv(o.peer) && (Compliant(g.peers[k]) ==> Compliant(o.peer)))
  {
    hide ApInv, Compliant, ConnectPeer, DisconnectPeer, InitialPeer, TransferPeer, SetupPeer, AddMap, PeerByAddr,
         PeerByOtherAddr, ScanOverread;
    var p := g.peers[k];
    match ev
    case Connect(ifname, addr) => ApConnect(cfg, p, g.mux, FindIface(cfg.ifaces, ifname).value, addr, env);
    case Disconnect(ifname, _) => ApDisconnect(cfg, p, g.mux, FindIface(cfg.ifaces, ifname).value, env);
    case Establish(_) => ApEstablish(p, Acted(cfg, g, ev, env, k).peer);
    case StateChange(_, _, reason) => ApSessionSteps(cfg, p, g.mux, reason, Again(cfg, g, reason), env);
    case SetupRequest(id, info) =>
      ApSetup(p, g.mux, FindIface(cfg.ifaces, info.oldIfname).value, FindIface(cfg.ifaces, info.newIfname).value, info.llt,
              if id == INVALID_SESSION_ID then env.sessionId else Some(id), env);
    case Transfer(_, _) => ApSessionSteps(cfg, p, g.mux, Unknown, false, env);
  }

  lemma {:induction false} StepKeepsAp(cfg: Config, g: GroupState, ev: Event, env: Env)
    requires !cfg.station && All(g.peers, ApInv) && Orderly(g, ev)
    ensures var r := Step(cfg, g, ev, env);
      && (r.None? <==> EffectOf(cfg, g, ev, env).Overreads? ||
                       exists k: nat :: Joins(cfg, g, ev, env, k) && !Compliant(g.peers[k]))
      && (r.Some? ==> All(r.value.peers, ApInv))
      && (r.Some? && !cfg.forceNc && All(g.peers, Compliant) ==> All(r.value.peers, Compliant))
  {
    hide ApInv, Compliant, Step, EffectOf, Acted, Leaves, All, Orderly, Fresh;
    StepIs(cfg, g, ev, env);
    AppearsFresh(cfg, g, ev, env);
    var e := EffectOf(cfg, g, ev, env);
    if e.Acts? {
      AllAt(g.peers, e.k, ApInv);
      ApActs(cfg, g, ev, env, e.k);
    } else if e.Appears? {
      FreshAp(cfg, e.p);
    }
    StepKeeps(cfg, g, ev, env, ApInv);
    if !cfg.forceNc && All(g.peers, Compliant) {
      if e.Acts? {
        AllAt(g.peers, e.k, Compliant);
      }
      StepKeeps(cfg, g, ev, env, Compliant);
    }
  }

  lemma {:induction false} FreshAp(cfg: Config, p: PeerState)
    requires Fresh(cfg, p)
    ensures ApInv(p) && (!cfg.forceNc ==> Compliant(p))
  {
  }

  lemma {:induction false} ApEstablish(p: PeerState, q: PeerState)
    requires ApInv(p) && p.session.Some? && SetUp(p.session.value)
    requires q.session == Some(p.session.value.(phase := Established))
    ensures ApInv(q) && (Compliant(p) ==> Compliant(q))
  {
  }

  /** On an access point, over every run: apart from overread dumps a handler goes wrong exactly when a known peer
      whose session is non-compliant connects anew, by dereferencing null; without the forced mode no session is,
      and none ever does. */
  lemma {:induction false} AccessPointCrashesIff(cfg: Config, inputs: seq<Input>, states: seq<GroupState>, n: nat,
                                                 ev: Event, env: Env)
    requires !cfg.station && Run(cfg, inputs, states) && n < |states| && Orderly(states[n], ev)
    requires forall k | 0 <= k < n :: Orderly(states[k], inputs[k].0)
    ensures Step(cfg, states[n], ev, env).None? <==>
            EffectOf(cfg, states[n], ev, env).Overreads? ||
            exists k: nat :: Joins(cfg, states[n], ev, env, k) && !Compliant(states[n].peers[k])
    ensures !cfg.forceNc ==> (Step(cfg, states[n], ev, env).None? <==> EffectOf(cfg, states[n], ev, env).Overreads?)
  {
    hide Step, Orderly, ApInv, Compliant, EffectOf;
    ApOverRuns(cfg, inputs, states, n);
    StepKeepsAp(cfg, states[n], ev, env);
    if !cfg.forceNc {
      forall k: nat | Joins(cfg, states[n], ev, env, k) ensures Compliant(states[n].peers[k]) {
        AllAt(states[n].peers, k, Compliant);
      }
    }
  }

  lemma {:induction false} ApOverRuns(cfg: Config, inputs: seq<Input>, states: seq<GroupState>, n: nat)
    requires !cfg.station && Run(cfg, inputs, states) && n < |states|
    requires forall k | 0 <= k < n :: Orderly(states[k], inputs[k].0)
    ensures All(states[n].peers, ApInv) && (!cfg.forceNc ==> All(states[n].peers, Compliant))
  {
    hide Step, Orderly, ApInv, Compliant, Joins;
    if n > 0 {
      ApOverRuns(cfg, inputs, states, n - 1);
      assert Step(cfg, states[n - 1], inputs[n - 1].0, inputs[n - 1].1) == Some(states[n - 1 + 1]);
      StepKeepsAp(cfg, states[n - 1], inputs[n - 1].0, inputs[n - 1].1);
    }
  }

  /** In the forced mode two events are enough: whatever interfaces and addresses, the second connection of a
      new peer is such a step. */
  lemma {:induction false} ForcedAccessPointCrashes(cfg: Config, first: Event, env: Env, second: Event, env': Env)
    requires !cfg.station && cfg.forceNc && |cfg.ifaces| >= 2
    requires first.Connect? && FindIface(cfg.ifaces, first.ifname).Some? && env.cfgConnect
    requires env.addLast && env.sessionId.Some?
    ensures var g := Step(cfg, START, first, env);
      && g.Some? && |g.value.peers| == 1
      && (Joins(cfg, g.value, second, env', 0) ==> Step(cfg, g.value, second, env').None?)
  {
    hide DumpNames, Joins;
    var i := FindIface(cfg.ifaces, first.ifname).value;
    var p := PeerState(Some(NewSession(env.sessionId.value, true)), Some(i), [Conn(i, first.addr)]);
    AddMapLookup(map[], first.addr, i.name, true);
    var g := Step(cfg, START, first, env);
    assert g.value.peers == [p];
    if Joins(cfg, g.value, second, env', 0) {
      JoinsOrderly(cfg, g.value, second, env', 0);
      StepKeepsAp(cfg, g.value, second, env');
    }
  }

  /** Every access point in the forced mode: its first peer need only connect on a second interface. */
  lemma {:induction false} ForcedAccessPointReachesNull(cfg: Config, x: Iface, y: Iface, a: Mac, b: Mac)
    returns (inputs: seq<Input>, states: seq<GroupState>)
    requires !cfg.station && cfg.forceNc && |cfg.ifaces| >= 2 && x.name != y.name
    requires FindIface(cfg.ifaces, x.name) == Some(x) && FindIface(cfg.ifaces, y.name) == Some(y)
    ensures inputs == [(Connect(x.name, a), World(a, true))] && Run(cfg, inputs, states) && Orderly(states[0], inputs[0].0)
    ensures var ev, env := Connect(y.name, b), World(a, true);
      !EffectOf(cfg, states[1], ev, env).Overreads? && Step(cfg, states[1], ev, env).None?
  {
    hide ApDump, Step, ConnectPeer, EffectOf, ApInv, Compliant;
    FirstPeer(cfg, x, a);
    var p := PeerState(Some(NewSession(1, true)), Some(x), [Conn(x, a)]);
    var g := GroupState([p], map[a := x.name], 0);
    FirstAp(p);
    SecondConnection(cfg, g, y, b, Conn(x, a), true);
    ApConnect(cfg, p, g.mux, y, b, World(a, true));
    inputs := [(Connect(x.name, a), World(a, true))];
    states := [START, g];
  }

  lemma {:induction false} FirstAp(p: PeerState)
    requires p.session == Some(NewSession(1, true))
    ensures ApInv(p) && !Compliant(p)
  {
  }

  lemma {:induction false} JoinsOrderly(cfg: Config, g: GroupState, ev: Event, env: Env, k: nat)
    requires Joins(cfg, g, ev, env, k)
    ensures Orderly(g, ev)
  {
  }

  // ---------------------------------------------------------------- the best backup

  /** A session that was set up goes to the best interface there is besides the active one. */
  predicate BestBackup(p: PeerState) {
    p.session.Some? && SetUp(p.session.value) ==>
      p.session.value.newIface.Some? &&
      forall c | c in p.conns && Some(c.iface) != p.active :: c.iface.priority <= p.session.value.newIface.value.priority
  }

  lemma {:induction false} NotSetUp(p: PeerState)
    requires p.session.None? || !SetUp(p.session.value)
    ensures BestBackup(p)
  {
  }

  lemma {:induction false} TryNextBest(cfg: Config, p: PeerState, env: Env)
    requires BestBackup(p)
    ensures BestBackup(TryNext(cfg, p, env))
  {
    NextIfaceIsMaximal(p.conns, p.active);
    hide NextIface, HasIface, AddrOf, NonCompliant;
  }

  lemma {:induction false} ConnectBest(cfg: Config, p: PeerState, mux: map<Mac, string>, i: Iface, a: Mac, env: Env)
    requires BestBackup(p)
    ensures var o := ConnectPeer(cfg, p, mux, i, a, env); o.Done? ==> BestBackup(o.peer)
  {
    hide TryNext, SetActive;
    var p0 := p.(conns := p.conns + [Conn(i, a)]);
    var p1 := if p0.session.Some? && p0.session.value.newIface.Some?
                 && i.priority > p0.session.value.newIface.value.priority
              then p0.(session := Some(p0.session.value.(phase := Idle))) else p0;
    assert BestBackup(p1);
    TryNextBest(cfg, p1, env);
    var p2 := TryNext(cfg, p1, env);
    if p2.session.Some? {
      SetActiveKeepsRest(p2, mux, p2.session.value.newIface, env.addLast);
    }
  }

  lemma {:induction false} DisconnectBest(cfg: Config, p: PeerState, mux: map<Mac, string>, i: Iface, env: Env)
    requires SessionInv(p) && BestBackup(p)
    ensures var (o, drop) := DisconnectPeer(cfg, p, mux, i, env); o.Done? && !drop ==> BestBackup(o.peer)
  {
    hide SetActive, TryNext, DelConn, NextIface, HasIface;
    LeaveSessionInv(p, mux, i, env);
    var (left, switching) := LeaveSession(p, mux, i, env);
    var forced := left.peer.active == Some(i);
    SetActiveKeepsRest(left.peer, left.mux, None, true);
    var (p1, mux1, _) := if forced then SetActive(left.peer, left.mux, None, true) else (left.peer, left.mux, true);
    var p2 := p1.(conns := DelConn(p1.conns, i));
    AddrOfDelConn(p1.conns, i, i);
    assert BestBackup(p2);
    if switching {
      SetActiveKeepsRest(p2, mux1, p2.session.value.newIface, env.addLast);
    } else if p2.conns != [] {
      SetActiveKeepsRest(p2, mux1, NextIface(p2.conns, p2.active), env.addLast);
      var (p3, mux3, _) := if forced then SetActive(p2, mux1, NextIface(p2.conns, p2.active), env.addLast)
                           else (p2, mux1, true);
      assert BestBackup(p3);
      TryNextBest(cfg, p3, env);
    }
  }

  lemma {:induction false} InitialBest(cfg: Config, p: PeerState, mux: map<Mac, string>, reason: Reason, again: bool, env: Env)
    requires p.session.Some?
    ensures var o := InitialPeer(cfg, p, mux, reason, again, env); o.Done? ==> BestBackup(o.peer)
  {
    hide SetActive, TryNext, BestBackup;
    var p1 := if reason == Switch then SetActive(p, mux, p.session.value.newIface, env.addLast).0 else p;
    NotSetUp(p1.(session := None));
    TryNextBest(cfg, p1.(session := None), env);
  }

  lemma {:induction false} TransferBest(cfg: Config, p: PeerState, mux: map<Mac, string>, env: Env)
    requires p.session.Some?
    ensures var o := TransferPeer(cfg, p, mux, env); o.Done? && BestBackup(o.peer)
  {
    hide SetActive, TryNext, BestBackup;
    var s := p.session.value;
    var p0 := p.(session := Some(s.(phase := InTransition)));
    SetActiveKeepsRest(p0, mux, s.newIface, env.addLast);
    var p1 := if env.transfer then SetActive(p0, mux, s.newIface, env.addLast).0 else p.(session := None);
    NotSetUp(p1);
    TryNextBest(cfg, p1, env);
  }

  lemma {:induction false} EstablishBest(p: PeerState)
    requires BestBackup(p) && p.session.Some? && SetUp(p.session.value)
    ensures BestBackup(p.(session := Some(p.session.value.(phase := Established))))
  {
  }

  lemma {:induction false} BestActs(cfg: Config, g: GroupState, ev: Event, env: Env, k: nat)
    requires cfg.station && Orderly(g, ev) && EffectOf(cfg, g, ev, env) == Acts(k)
    requires SessionInv(g.peers[k]) && BestBackup(g.peers[k])
    ensures var o := Acted(cfg, g, ev, env, k); o.Done? && !Leaves(cfg, g, ev, env, k) ==> BestBackup(o.peer)
  {
    hide SessionInv, BestBackup, ConnectPeer, DisconnectPeer, InitialPeer, TransferPeer, AddMap, PeerByAddr,
         PeerByOtherAddr, ScanOverread;
    var p := g.peers[k];
    match ev
    case Connect(ifname, addr) => ConnectBest(cfg, p, g.mux, FindIface(cfg.ifaces, ifname).value, addr, env);
    case Disconnect(ifname, _) => DisconnectBest(cfg, p, g.mux, FindIface(cfg.ifaces, ifname).value, env);
    case Establish(_) => EstablishBest(p);
    case StateChange(_, _, reason) => InitialBest(cfg, p, g.mux, reason, Again(cfg, g, reason), env);
    case SetupRequest(_, _) =>
    case Transfer(_, _) => TransferBest(cfg, p, g.mux, env);
  }

  lemma {:induction false} StepKeepsBest(cfg: Config, g: GroupState, ev: Event, env: Env)
    requires cfg.station && All(g.peers, SessionInv) && All(g.peers, BestBackup) && Orderly(g, ev)
    ensures var r := Step(cfg, g, ev, env); r.Some? ==> All(r.value.peers, BestBackup)
  {
    hide SessionInv, BestBackup, Step, EffectOf, Acted, Leaves, All, Orderly, Fresh;
    AppearsFresh(cfg, g, ev, env);
    var e := EffectOf(cfg, g, ev, env);
    if e.Acts? {
      AllAt(g.peers, e.k, SessionInv);
      AllAt(g.peers, e.k, BestBackup);
      BestActs(cfg, g, ev, env, e.k);
    } else if e.Appears? {
      FreshBest(cfg, e.p);
    }
    StepKeeps(cfg, g, ev, env, BestBackup);
  }

  lemma {:induction false} FreshBest(cfg: Config, p: PeerState)
    requires Fresh(cfg, p)
    ensures BestBackup(p)
  {
  }

  /** Station, every run, whichever external calls fail: a session that was set up, and is not yet switching, always
      goes to the best interface besides the active one; a better one that connects replaces it. */
  lemma {:induction false} BestBackupOverRuns(cfg: Config, inputs: seq<Input>, states: seq<GroupState>, n: nat)
    requires cfg.station && Run(cfg, inputs, states) && n < |states|
    requires forall k | 0 <= k < n :: Orderly(states[k], inputs[k].0)
    ensures All(states[n].peers, BestBackup)
  {
    hide Step, Orderly, BestBackup;
    if n > 0 {
      SessionsOverRuns(cfg, inputs, states, n - 1);
      BestBackupOverRuns(cfg, inputs, states, n - 1);
      assert Step(cfg, states[n - 1], inputs[n - 1].0, inputs[n - 1].1) == Some(states[n - 1 + 1]);
      StepKeepsBest(cfg, states[n - 1], inputs[n - 1].0, inputs[n - 1].1);
    }
  }

  // ---------------------------------------------------------------- link-loss timeouts and retries

  /** A session set up with a positive link-loss timeout moves to an interface that does not outrank the one it leaves. */
  predicate TimeoutInv(p: PeerState) {
    p.session.Some? && SetUp(p.session.value) && p.session.value.llt > 0 ==>
      var s := p.session.value;
      s.oldIface.Some? && s.newIface.Some? && s.newIface.value.priority <= s.oldIface.value.priority
  }

  lemma {:induction false} NoTimeout(p: PeerState)
    requires p.session.None? || !SetUp(p.session.value)
    ensures TimeoutInv(p)
  {
  }

  lemma {:induction false} TryNextTimeout(cfg: Config, p: PeerState, env: Env)
    requires TimeoutInv(p)
    ensures TimeoutInv(TryNext(cfg, p, env))
  {
    hide NextIface, AddrOf, NonCompliant, MsToLlt;
  }

  lemma {:induction false} ConnectTimeout(cfg: Config, p: PeerState, mux: map<Mac, string>, i: Iface, a: Mac, env: Env)
    requires TimeoutInv(p)
    ensures var o := ConnectPeer(cfg, p, mux, i, a, env); o.Done? ==> TimeoutInv(o.peer)
  {
    hide TryNext, SetActive;
    var p0 := p.(conns := p.conns + [Conn(i, a)]);
    var p1 := if p0.session.Some? && p0.session.value.newIface.Some?
                 && i.priority > p0.session.value.newIface.value.priority
              then p0.(session := Some(p0.session.value.(phase := Idle))) else p0;
    TryNextTimeout(cfg, p1, env);
  }

  lemma {:induction false} DisconnectTimeout(cfg: Config, p: PeerState, mux: map<Mac, string>, i: Iface, env: Env)
    requires SessionInv(p) && TimeoutInv(p)
    ensures var (o, drop) := DisconnectPeer(cfg, p, mux, i, env); o.Done? && !drop ==> TimeoutInv(o.peer)
  {
    hide SetActive, TryNext, DelConn, NextIface, HasIface, LeaveSession;
    LeaveSessionInv(p, mux, i, env);
    LeaveTimeout(p, mux, i, env);
    var (left, switching) := LeaveSession(p, mux, i, env);
    SetActiveKeepsRest(left.peer, left.mux, None, true);
    var forced := left.peer.active == Some(i);
    var (p1, mux1, _) := if forced then SetActive(left.peer, left.mux, None, true) else (left.peer, left.mux, true);
    var p2 := p1.(conns := DelConn(p1.conns, i));
    if switching {
      SetActiveKeepsRest(p2, mux1, p2.session.value.newIface, env.addLast);
    } else if p2.conns != [] {
      SetActiveKeepsRest(p2, mux1, NextIface(p2.conns, p2.active), env.addLast);
      var p3 := if forced then SetActive(p2, mux1, NextIface(p2.conns, p2.active), env.addLast).0 else p2;
      TryNextTimeout(cfg, p3, env);
    }
  }

  lemma {:induction false} LeaveTimeout(p: PeerState, mux: map<Mac, string>, i: Iface, env: Env)
    requires TimeoutInv(p)
    ensures var o := LeaveSession(p, mux, i, env).0; o.Done? ==> TimeoutInv(o.peer)
  {
    hide SetActive;
  }

  lemma {:induction false} TimeoutActs(cfg: Config, g: GroupState, ev: Event, env: Env, k: nat)
    requires cfg.station && Orderly(g, ev) && EffectOf(cfg, g, ev, env) == Acts(k)
    requires SessionInv(g.peers[k]) && TimeoutInv(g.peers[k])
    ensures var o := Acted(cfg, g, ev, env, k); o.Done? && !Leaves(cfg, g, ev, env, k) ==> TimeoutInv(o.peer)
  {
    hide SessionInv, ConnectPeer, DisconnectPeer, AddMap, PeerByAddr, PeerByOtherAddr, ScanOverread, TryNext, SetActive;
    var p := g.peers[k];
    match ev
    case Connect(ifname, addr) => ConnectTimeout(cfg, p, g.mux, FindIface(cfg.ifaces, ifname).value, addr, env);
    case Disconnect(ifname, _) => DisconnectTimeout(cfg, p, g.mux, FindIface(cfg.ifaces, ifname).value, env);
    case Establish(_) =>
    case StateChange(_, _, reason) =>
      var p1 := if reason == Switch then SetActive(p, g.mux, p.session.value.newIface, env.addLast).0 else p;
      NoTimeout(p1.(session := None));
      TryNextTimeout(cfg, p1.(session := None), env);
    case SetupRequest(_, _) =>
    case Transfer(_, _) =>
      var s := p.session.value;
      var p0 := p.(session := Some(s.(phase := InTransition)));
      SetActiveKeepsRest(p0, g.mux, s.newIface, env.addLast);
      var p1 := if env.transfer then SetActive(p0, g.mux, s.newIface, env.addLast).0 else p.(session := None);
      NoTimeout(p1);
      TryNextTimeout(cfg, p1, env);
  }

  lemma {:induction false} StepKeepsTimeouts(cfg: Config, g: GroupState, ev: Event, env: Env)
    requires cfg.station && All(g.peers, SessionInv) && All(g.peers, TimeoutInv) && Orderly(g, ev)
    ensures var r := Step(cfg, g, ev, env); r.Some? ==> All(r.value.peers, TimeoutInv)
  {
    hide SessionInv, TimeoutInv, Step, EffectOf, Acted, Leaves, All, Orderly, Fresh;
    AppearsFresh(cfg, g, ev, env);
    var e := EffectOf(cfg, g, ev, env);
    if e.Acts? {
      AllAt(g.peers, e.k, SessionInv);
      AllAt(g.peers, e.k, TimeoutInv);
      TimeoutActs(cfg, g, ev, env, e.k);
    } else if e.Appears? {
      FreshTimeout(cfg, e.p);
    }
    StepKeeps(cfg, g, ev, env, TimeoutInv);
  }

  lemma {:induction false} FreshTimeout(cfg: Config, p: PeerState)
    requires Fresh(cfg, p)
    ensures TimeoutInv(p)
  {
  }

  lemma {:induction false} TimeoutsOverRuns(cfg: Config, inputs: seq<Input>, states: seq<GroupState>, n: nat)
    requires cfg.station && Run(cfg, inputs, states) && n < |states|
    requires forall k | 0 <= k < n :: Orderly(states[k], inputs[k].0)
    ensures All(states[n].peers, TimeoutInv)
  {
    hide Step, Orderly, TimeoutInv;
    if n > 0 {
      SessionsOverRuns(cfg, inputs, states, n - 1);
      TimeoutsOverRuns(cfg, inputs, states, n - 1);
      assert Step(cfg, states[n - 1], inputs[n - 1].0, inputs[n - 1].1) == Some(states[n - 1 + 1]);
      StepKeepsTimeouts(cfg, states[n - 1], inputs[n - 1].0, inputs[n - 1].1);
    }
  }

  /** Station, every run, whichever external calls fail: while a session set up with a positive link-loss timeout
      waits, the peer is active on the best interface it has; the timeout guards that one. */
  lemma {:induction false} TimeoutGuardsTheBestOverRuns(cfg: Config, inputs: seq<Input>, states: seq<GroupState>, n: nat,
                                                        p: PeerState)
    requires cfg.station && Run(cfg, inputs, states) && n < |states| && p in states[n].peers
    requires forall k | 0 <= k < n :: Orderly(states[k], inputs[k].0)
    ensures p.session.Some? && SetUp(p.session.value) && p.session.value.llt > 0 ==> TopActive(p)
  {
    hide Step, Orderly, HasIface;
    SessionsOverRuns(cfg, inputs, states, n);
    BestBackupOverRuns(cfg, inputs, states, n);
    TimeoutsOverRuns(cfg, inputs, states, n);
    assert SessionInv(p) && BestBackup(p) && TimeoutInv(p);
  }

  /** A station asks for a positive link-loss timeout only when no connected interface outranks the active one: the
      timeout guards the best interface, with a backup to fall back to. */
  lemma {:induction false} TimeoutGuardsTheBest(cfg: Config, p: PeerState, env: Env)
    requires cfg.station && !InProgress(p)
    ensures var q := TryNext(cfg, p, env);
      InProgress(q) && q.session.value.llt > 0 ==>
        q.active.Some? && q.session.value.newIface.Some? && q.session.value.newIface != q.active &&
        forall c | c in q.conns :: c.iface.priority <= q.active.value.priority
  {
    NextIfaceIsMaximal(p.conns, p.active);
    hide NextIface, HasIface, AddrOf, NonCompliant, MsToLlt;
  }

  /** The timeout is the configured one, rounded down to units of 32 microseconds, exactly if it is at most
      4294967 ms: beyond, the product wraps. */
  lemma {:induction false} TimeoutIsExactIff(ms: nat)
    ensures MsToLlt(ms) == ms * 1000 / 32 <==> ms <= 4294967
  {
    if ms > 4294967 {
      assert ms * 1000 >= 0x1_0000_0000;
      assert MsToLlt(ms) < 0x1_0000_0000 / 32;
      assert ms * 1000 / 32 >= 0x1_0000_0000 / 32;
    }
  }

  /** Over every run, at most maxRetries setups in a row follow state-timeout failures. */
  lemma {:induction false} RetriesBounded(cfg: Config, inputs: seq<Input>, states: seq<GroupState>, n: nat)
    requires Run(cfg, inputs, states) && n < |states|
    ensures states[n].retries == 0 || states[n].retries < cfg.maxRetries
  {
    hide Step;
    if n > 0 {
      RetriesBounded(cfg, inputs, states, n - 1);
      assert Step(cfg, states[n - 1], inputs[n - 1].0, inputs[n - 1].1) == Some(states[n - 1 + 1]);
      StepRetries(cfg, states[n - 1], inputs[n - 1].0, inputs[n - 1].1);
    }
  }

  lemma {:induction false} StepRetries(cfg: Config, g: GroupState, ev: Event, env: Env)
    ensures var r := Step(cfg, g, ev, env);
      r.Some? ==> r.value.retries == g.retries || r.value.retries == 0 || r.value.retries < cfg.maxRetries
  {
    hide ConnectPeer, DisconnectPeer, InitialPeer, TransferPeer, SetupPeer, AddMap, PeerByAddr, PeerByOtherAddr, IsConnected;
  }
}

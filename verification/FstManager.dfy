/** fst_manager.c on the heap: one group with its peers, sessions and multiplexer. Every handler is proved to
    compute the corresponding function of module FstSession on the state the objects stand for, and to keep the
    list of sessions and the peers that hold one in one-to-one correspondence. */
module FstManager {
  import opened FstTypes
  import opened FstTc
  import opened FstMuxBooks
  import opened FstMux
  import opened MultiBand
  import opened FstSession
  import FstRuns

  /** What the supplicant notifies the manager of, and the request of fst_manager_session_transfer. */
  datatype Notification =
    | PeerConnected(ifname: string, addr: Mac)
    | PeerDisconnected(ifname: string, addr: Mac)
    | SessionEstablished(sessionId: nat)
    | SessionStateChanged(sessionId: nat, initial: bool, reason: Reason)
    | SetupRequested(sessionId: nat, info: SetupInfo)
    | TransferRequested(ifname: string, addr: Mac)

  /** struct fst_mgr_session */
  class Session {
    const id: nat
    var phase: Phase
    var oldIface: Option<Iface>
    var newIface: Option<Iface>
    var llt: nat
    var nonCompliant: bool
    ghost var owner: Peer?

    constructor (id: nat, nonCompliant: bool, ghost owner: Peer)
      ensures View() == NewSession(id, nonCompliant) && this.owner == owner
    {
      this.id := id;
      phase, oldIface, newIface, llt := Idle, None, None, 0;
      this.nonCompliant := nonCompliant;
      this.owner := owner;
    }

    ghost function View(): SessionState
      reads this`phase, this`oldIface, this`newIface, this`llt, this`nonCompliant
    {
      SessionState(phase, id, oldIface, newIface, llt, nonCompliant)
    }

    /** The configuring calls and the initiation of _fst_mgr_peer_try_to_initiate_next_setup. */
    method Setup(conns: seq<Conn>, active: Iface, i: Iface, llt: nat, oldAddr: Option<Mac>, newAddr: Option<Mac>, env: Env)
      requires oldAddr == AddrOf(conns, active) && newAddr == AddrOf(conns, i)
      modifies this`phase, this`oldIface, this`newIface, this`llt
      ensures View() == Configure(old(View()), conns, active, i, llt, env)
    {
      if !nonCompliant && !env.setOld {
        return;
      }
      oldIface := Some(active);
      if !nonCompliant && !env.setNew {
        return;
      }
      newIface := Some(i);
      if !nonCompliant {
        if oldAddr.None? || newAddr.None? || !env.setOldAddr || !env.setNewAddr || !env.setLlt {
          return;
        }
      }
      this.llt := llt;
      if !nonCompliant && env.initiate {
        phase := Initiated;
      }
    }
  }

  /** struct fst_mgr_peer */
  class Peer {
    var session: Session?
    var active: Option<Iface>
    var conns: seq<Conn>

    constructor (active: Iface, addr: Mac)
      ensures session == null && this.active == Some(active) && conns == [Conn(active, addr)]
    {
      session, this.active, conns := null, Some(active), [Conn(active, addr)];
    }

    /** The session the peer holds, as a set. */
    ghost function Held(): set<Session>
      reads this`session
    {
      if session == null then {} else {session}
    }

    ghost function View(): PeerState
      reads this`session, this`active, this`conns
      reads Held()`phase, Held()`oldIface, Held()`newIface, Held()`llt, Held()`nonCompliant
    {
      PeerState(if session == null then None else Some(session.View()), active, conns)
    }

    /** _fst_mgr_peer_get_addr_of_iface */
    method GetAddrOfIface(i: Iface) returns (addr: Option<Mac>)
      ensures addr == AddrOf(conns, i)
    {
      var k := 0;
      while k < |conns|
        invariant 0 <= k <= |conns|
        invariant AddrOf(conns, i) == AddrOf(conns[k..], i)
      {
        if conns[k].iface == i {
          return Some(conns[k].addr);
        }
        assert conns[k..][1..] == conns[k + 1..];
        k := k + 1;
      }
      return None;
    }

    /** _fst_mgr_peer_get_next_iface */
    method GetNextIface() returns (i: Option<Iface>)
      ensures i == NextIface(conns, active)
    {
      i := None;
      var maxPriority := -1;
      var k := 0;
      while k < |conns|
        invariant 0 <= k <= |conns|
        invariant i == NextIface(conns[..k], active)
        invariant maxPriority == if i.None? then -1 else i.value.priority
      {
        assert conns[..k + 1][..k] == conns[..k];
        var candidate := conns[k].iface;
        if Some(candidate) != active && (maxPriority == -1 || maxPriority < candidate.priority) {
          maxPriority := candidate.priority;
          i := Some(candidate);
        }
        k := k + 1;
      }
      assert conns[..k] == conns;
    }

    /** _fst_mgr_peer_check_compliance */
    method CheckCompliance(cfg: Config, env: Env)
      requires session != null
      modifies session`nonCompliant
      ensures session.nonCompliant == NonCompliant(cfg, conns, env)
    {
      session.nonCompliant := true;
      if cfg.forceNc {
        return;
      }
      var k := 0;
      while k < |conns|
        invariant 0 <= k <= |conns| && session.nonCompliant
        invariant forall c | c in conns[..k] :: env.mbies(c.iface.name, c.addr) == ""
      {
        if env.mbies(conns[k].iface.name, conns[k].addr) != "" {
          session.nonCompliant := false;
          assert conns[k] in conns;
          return;
        }
        assert conns[..k + 1] == conns[..k] + [conns[k]];
        k := k + 1;
      }
      assert conns[..k] == conns;
    }

    /** Configures the session for a setup from the active interface to `i` and initiates it. */
    method SetupTowards(cfg: Config, i: Iface, env: Env)
      requires session != null && active.Some?
      modifies session`phase, session`oldIface, session`newIface, session`llt, session`nonCompliant
      ensures session.View() ==
        Configure(old(session.View()).(nonCompliant := NonCompliant(cfg, conns, env)), conns, active.value, i,
                  if active.value.priority < i.priority then 0 else MsToLlt(i.llt), env)
    {
      hide Configure, NonCompliant, MsToLlt;
      CheckCompliance(cfg, env);
      var llt := if active.value.priority < i.priority then 0 else MsToLlt(i.llt);
      var oldAddr := GetAddrOfIface(active.value);
      var newAddr := GetAddrOfIface(i);
      session.Setup(conns, active.value, i, llt, oldAddr, newAddr, env);
    }

    /** _fst_mgr_peer_del_iface */
    method DelIface(i: Iface)
      modifies this`conns
      ensures conns == DelConn(old(conns), i)
    {
      var k := 0;
      while k < |conns|
        invariant 0 <= k <= |conns| && conns == old(conns)
        invariant forall j | 0 <= j < k :: conns[j].iface != i
      {
        if conns[k].iface == i {
          FstRuns.DelConnAt(conns, i, k);
          conns := conns[..k] + conns[k + 1..];
          return;
        }
        k := k + 1;
      }
      FstRuns.DelConnAt(conns, i, k);
    }
  }

  /** struct fst_mgr_group, with the counter of repeated setups. `state` is the value the objects stand for. */
  class Group {
    const cfg: Config
    const drv: Mux
    var sessions: seq<Session>
    var peers: seq<Peer>
    var retries: nat
    ghost var state: GroupState
    // the events handled so far, with what the world answered, and the states they went through
    ghost var inputs: seq<FstRuns.Input>
    ghost var states: seq<GroupState>

    constructor (cfg: Config, drv: Mux)
      requires drv.Valid() && drv.Map() == map[] && drv.Steering()
      requires forall i | i in cfg.ifaces :: i.name in drv.Names()
      ensures Valid() && Logged() && state == FstRuns.START && inputs == []
      ensures this.cfg == cfg && this.drv == drv
    {
      this.cfg, this.drv := cfg, drv;
      sessions, peers, retries := [], [], 0;
      state := FstRuns.START;
      inputs, states := [], [FstRuns.START];
    }

    ghost function PeerSet(): set<Peer>
      reads this`peers
    {
      set p | p in peers
    }

    ghost function SessionSet(): set<Session>
      reads this`sessions
    {
      set s | s in sessions
    }

    /** The session list and the peers that hold a session are in one-to-one correspondence. */
    ghost predicate OneToOne()
      reads this`peers, this`sessions, PeerSet()`session, SessionSet()`owner
    {
      && NoDup(peers) && NoDup(sessions)
      && (forall p | p in peers && p.session != null :: p.session in sessions && p.session.owner == p)
      && (forall s | s in sessions :: s.owner != null && s.owner in peers && s.owner.session == s)
    }

    /** The multiplexer steers and knows the interfaces of the group and of the connections. */
    ghost predicate DrvReady()
      reads drv`ifaces, drv`books, drv.tc`filters, drv.tc`kernel, drv.IfaceSet()`filters, drv.IfaceSet()`queueId
    {
      drv.Valid() && drv.Steering() && forall i | i in cfg.ifaces :: i.name in drv.Names()
    }

    ghost predicate Registered(p: Peer)
      reads p`conns
    {
      forall c | c in p.conns :: c.iface in cfg.ifaces
    }

    ghost predicate Valid()
      reads this`peers, this`sessions, this`retries, this`state, drv`ifaces, drv`books, drv.tc`filters, drv.tc`kernel, drv.IfaceSet()`filters, drv.IfaceSet()`queueId, PeerSet(), SessionSet()
    {
      && OneToOne() && DrvReady()
      && |state.peers| == |peers|
      && (forall k | 0 <= k < |peers| :: Registered(peers[k]) && peers[k].View() == state.peers[k])
      && state.mux == drv.Map() && state.retries == retries
    }

    /** The log is a run up to the present state. */
    ghost predicate Logged()
      reads this`inputs, this`states, this`state
    {
      FstRuns.Run(cfg, inputs, states) && states[|inputs|] == state
    }

    /** The group is in order and `p` is one of its peers. */
    ghost predicate Ready(p: Peer)
      reads this`peers, this`sessions, PeerSet()`session, SessionSet()`owner, p`conns
      reads drv`ifaces, drv`books, drv.tc`filters, drv.tc`kernel, drv.IfaceSet()`filters, drv.IfaceSet()`queueId
    {
      OneToOne() && DrvReady() && p in peers && Registered(p)
    }

    /** The first part of _fst_mgr_peer_set_active_iface. */
    method LeaveActiveIface(p: Peer)
      requires Ready(p)
      modifies p`active, drv`books, drv.tc`filters, drv.tc`kernel, drv.IfaceSet()`filters
      ensures Ready(p)
      ensures Deactivate(old(p.View()), old(drv.Map())) == (p.View(), drv.Map())
    {
      hide Mux.Valid, Mux.Steering, MapOf;
      if p.active.Some? {
        var addr := p.GetAddrOfIface(p.active.value);
        if addr.Some? {
          DelEntry(addr.value);
          p.active := None;
        }
      }
    }

    /** _fst_mgr_peer_set_active_iface */
    method SetActiveIface(p: Peer, i: Option<Iface>, granted: bool) returns (ok: bool)
      requires Ready(p)
      modifies p`active, drv`books, drv.tc`filters, drv.tc`kernel, drv.IfaceSet()`filters
      ensures Ready(p)
      ensures SetActive(old(p.View()), old(drv.Map()), i, granted) == (p.View(), drv.Map(), ok)
    {
      hide OneToOne, Registered, DrvReady, AddMap, Deactivate;
      if i.Some? && p.active == i {
        return true;
      }
      LeaveActiveIface(p);
      if i.None? {
        return true;
      }
      ok := EnterIface(p, i.value, granted);
    }

    method AddPeerEntry(p: Peer, addr: Mac, i: Iface, granted: bool) returns (ok: bool)
      requires Ready(p) && AddrOf(p.conns, i).Some?
      modifies drv`books, drv.tc`filters, drv.tc`kernel, drv.IfaceSet()`filters
      ensures Ready(p)
      ensures (drv.Map(), ok) == AddMap(old(drv.Map()), addr, i.name, granted)
    {
      hide Books.Agree, Books.Steered, Books.Queued, AddMap, MapOf;
      AddrRegistered(p, i);
      ok := AddEntry(addr, i.name, granted);
    }

    /** The last part of _fst_mgr_peer_set_active_iface. */
    method EnterIface(p: Peer, i: Iface, granted: bool) returns (ok: bool)
      requires Ready(p)
      modifies p`active, drv`books, drv.tc`filters, drv.tc`kernel, drv.IfaceSet()`filters
      ensures Ready(p)
      ensures var b := AddrOf(old(p.conns), i);
        if b.None? then !ok && p.View() == old(p.View()) && drv.Map() == old(drv.Map())
        else (drv.Map(), ok) == AddMap(old(drv.Map()), b.value, i.name, granted) &&
             p.View() == if ok then old(p.View()).(active := Some(i)) else old(p.View())
    {
      hide AddMap, MapOf;
      var addr := p.GetAddrOfIface(i);
      if addr.None? {
        return false;
      }
      ok := AddPeerEntry(p, addr.value, i, granted);
      if ok {
        p.active := Some(i);
      }
    }

    lemma {:induction false} AddrRegistered(p: Peer, i: Iface)
      requires DrvReady() && Registered(p) && AddrOf(p.conns, i).Some?
      ensures i in cfg.ifaces && i.name in drv.Names()
    {
      FstRuns.AddrOfFound(p.conns, i);
    }

    /** fst_mux_del_map_entry, whose deletion is granted. */
    method DelEntry(addr: Mac)
      requires DrvReady()
      modifies drv`books, drv.tc`filters, drv.tc`kernel, drv.IfaceSet()`filters
      ensures DrvReady() && drv.Map() == old(drv.Map()) - {addr}
    {
      hide Mux.Valid, Mux.Steering, Tc.Synced, MapOf;
      var _ := drv.DelMapEntry(addr, GRANTED);
    }

    /** fst_mux_add_map_entry on an interface the multiplexer knows. */
    method AddEntry(addr: Mac, name: string, granted: bool) returns (ok: bool)
      requires DrvReady() && name in drv.Names()
      modifies drv`books, drv.tc`filters, drv.tc`kernel, drv.IfaceSet()`filters
      ensures DrvReady()
      ensures (drv.Map(), ok) == AddMap(old(drv.Map()), addr, name, granted)
    {
      hide Mux.Valid, Mux.Steering, Tc.Synced, MapOf;
      var r := drv.AddMapEntry(addr, name, GRANTED, Netlink(granted, granted, true));
      ok := r == 0;
    }

    /** _fst_mgr_session_init for `p`; the session is on the list, not yet with the peer. */
    method SessionInit(p: Peer, id: nat) returns (s: Session)
      modifies this`sessions
      ensures fresh(s) && s.View() == NewSession(id, cfg.forceNc) && s.owner == p
      ensures sessions == old(sessions) + [s]
    {
      s := new Session(id, cfg.forceNc, p);
      sessions := sessions + [s];
    }

    /** _fst_mgr_peer_session_deinit */
    method PeerSessionDeinit(p: Peer)
      requires Ready(p)
      modifies this`sessions, p`session, p.Held()`phase
      ensures Ready(p)
      ensures p.View() == old(p.View()).(session := None)
    {
      hide Books.Agree, Books.Steered, Books.Queued, Without;
      if p.session != null {
        p.session.phase := Idle;
        WithoutNoDup(sessions, p.session);
        sessions := Without(sessions, p.session);
        p.session := null;
      }
    }

    /** _fst_mgr_peer_try_to_initiate_next_setup */
    method TryToInitiateNextSetup(p: Peer, env: Env)
      requires Ready(p)
      modifies this`sessions, p`session, p.Held()
      ensures Ready(p) && fresh(p.Held() - old(p.Held()))
      ensures p.View() == TryNext(cfg, old(p.View()), env)
    {
      hide OneToOne, Registered, DrvReady, Configure, NonCompliant;
      if !cfg.station || (p.session != null && p.session.phase != Idle) || p.active.None? {
        return;
      }
      if p.session == null {
        if env.sessionId.None? {
          return;
        }
        AttachSession(p, env.sessionId.value);
      }
      ConfigureNext(p, env);
    }

    method AttachSession(p: Peer, id: nat)
      requires Ready(p) && p.session == null
      modifies this`sessions, p`session
      ensures Ready(p) && p.session != null && fresh(p.session)
      ensures p.View() == old(p.View()).(session := Some(NewSession(id, cfg.forceNc)))
    {
      hide Books.Agree, Books.Steered, Books.Queued;
      var s := SessionInit(p, id);
      p.session := s;
    }

    /** Its rest, with an idle session and an active interface. */
    method ConfigureNext(p: Peer, env: Env)
      requires Ready(p) && cfg.station && p.session != null && p.session.phase == Idle && p.active.Some?
      modifies p.session`phase, p.session`oldIface, p.session`newIface, p.session`llt, p.session`nonCompliant
      ensures Ready(p) && p.View() == TryNext(cfg, old(p.View()), env)
    {
      hide Books.Agree, Books.Steered, Books.Queued, Configure, NonCompliant, MsToLlt;
      var next := p.GetNextIface();
      if next.Some? {
        p.SetupTowards(cfg, next.value, env);
      }
    }

    /** _fst_mgr_session_reset, without the request to the supplicant. */
    method SessionReset(p: Peer)
      requires Ready(p) && p.session != null
      modifies p.session`phase
      ensures Ready(p) && p.View() == old(p.View()).(session := Some(old(p.session.View()).(phase := Idle)))
    {
      hide OneToOne, DrvReady, Registered;
      p.session.phase := Idle;
    }

    /** _fst_mgr_session_transfer */
    method SessionTransfer(p: Peer, env: Env) returns (ok: bool)
      requires Ready(p) && p.session != null
      modifies p.session`phase
      ensures ok == env.transfer && Ready(p)
      ensures p.View() == if !ok then old(p.View())
                          else old(p.View()).(session := Some(old(p.session.View()).(phase := InTransition)))
    {
      hide OneToOne, DrvReady, Registered;
      if !env.transfer {
        return false;
      }
      p.session.phase := InTransition;
      ok := true;
    }

    /** _fst_mgr_session_nc_transfer */
    method SessionNcTransfer(p: Peer, granted: bool)
      requires Ready(p) && p.session != null && NcTransferDefined(p.session.View())
      modifies p`active, p.session`phase, drv`books, drv.tc`filters, drv.tc`kernel, drv.IfaceSet()`filters
      ensures Ready(p)
      ensures NcTransfer(old(p.View()), old(drv.Map()), granted) == (p.View(), drv.Map())
    {
      hide OneToOne, Registered, DrvReady, SetActive, MapOf;
      var _ := SetActiveIface(p, p.session.newIface, granted);
      SessionReset(p);
    }

    /** _fst_mgr_peer_add_iface */
    method PeerAddIface(p: Peer, i: Iface, addr: Mac)
      requires Ready(p) && i in cfg.ifaces
      modifies p`conns
      ensures Ready(p) && p.View() == old(p.View()).(conns := old(p.conns) + [Conn(i, addr)])
    {
      p.conns := p.conns + [Conn(i, addr)];
    }

    /** A connection of higher priority than the new interface of the session resets the session. */
    method ResetOutranked(p: Peer, i: Iface)
      requires Ready(p)
      modifies p.Held()`phase
      ensures Ready(p)
      ensures var v := old(p.View());
        p.View() == if v.session.Some? && v.session.value.newIface.Some?
                       && i.priority > v.session.value.newIface.value.priority
                    then v.(session := Some(v.session.value.(phase := Idle))) else v
    {
      hide OneToOne, Registered, DrvReady;
      if p.session != null && p.session.newIface.Some? && i.priority > p.session.newIface.value.priority {
        SessionReset(p);
      }
    }

    /** The last step of a connection, with _fst_mgr_session_check_for_nc_transfer. */
    method CheckForNcTransfer(p: Peer, granted: bool)
      requires Ready(p)
      requires p.session != null && p.session.nonCompliant ==>
                 p.active.Some? && p.session.newIface.Some? &&
                 (p.active.value.priority < p.session.newIface.value.priority ==> p.session.oldIface.Some?)
      modifies p`active, p.Held()`phase, drv`books, drv.tc`filters, drv.tc`kernel, drv.IfaceSet()`filters
      ensures Ready(p)
      ensures var v := old(p.View());
        (p.View(), drv.Map()) ==
          if v.session.Some? && v.session.value.nonCompliant && v.active.value.priority < v.session.value.newIface.value.priority
          then NcTransfer(v, old(drv.Map()), granted) else (v, old(drv.Map()))
    {
      hide OneToOne, Registered, DrvReady, NcTransfer, MapOf;
      if p.session != null && p.session.nonCompliant {
        if p.active.value.priority < p.session.newIface.value.priority {
          SessionNcTransfer(p, granted);
        }
      }
    }

    /** What _fst_mgr_on_peer_connected does to a known peer. */
    method ConnectKnown(p: Peer, i: Iface, addr: Mac, env: Env)
      requires Ready(p) && i in cfg.ifaces
      requires ConnectPeer(cfg, p.View(), drv.Map(), i, addr, env).Done?
      modifies this`sessions, p, p.Held(), drv`books, drv.tc`filters, drv.tc`kernel, drv.IfaceSet()`filters
      ensures Ready(p)
      ensures ConnectPeer(cfg, old(p.View()), old(drv.Map()), i, addr, env) == Done(p.View(), drv.Map())
    {
      hide Mux.Valid, Mux.Steering, OneToOne, Registered, DrvReady, TryNext, NcTransfer, MapOf;
      PeerAddIface(p, i, addr);
      ResetOutranked(p, i);
      TryToInitiateNextSetup(p, env);
      CheckForNcTransfer(p, env.addLast);
    }

    /** The session part of _fst_mgr_on_peer_disconnected. */
    method LeaveIface(p: Peer, i: Iface, env: Env) returns (switching: bool)
      requires Ready(p) && LeaveSession(p.View(), drv.Map(), i, env).0.Done?
      modifies this`sessions, p`session, p`active, p.Held()`phase
      modifies drv`books, drv.tc`filters, drv.tc`kernel, drv.IfaceSet()`filters
      ensures Ready(p) && p.Held() <= old(p.Held())
      ensures LeaveSession(old(p.View()), old(drv.Map()), i, env) == (Done(p.View(), drv.Map()), switching)
      ensures switching ==> p.session != null
    {
      hide OneToOne, Registered, DrvReady, NcTransfer, MapOf;
      switching := false;
      if p.session == null {
        return;
      }
      if p.session.oldIface == Some(i) && p.session.phase == Established {
        if p.session.nonCompliant {
          SessionNcTransfer(p, env.addFirst);
          switching := true;
        } else {
          switching := SessionTransfer(p, env);
          if !switching {
            PeerSessionDeinit(p);
          }
        }
      } else if p.session.oldIface == Some(i) || p.session.newIface == Some(i) {
        PeerSessionDeinit(p);
      }
    }

    method PeerDelIface(p: Peer, i: Iface)
      requires Ready(p)
      modifies p`conns
      ensures Ready(p) && p.View() == old(p.View()).(conns := DelConn(old(p.conns), i))
    {
      FstRuns.AddrOfDelConn(p.conns, i, i);
      p.DelIface(i);
    }

    method SetNextActive(p: Peer, granted: bool)
      requires Ready(p)
      modifies p`active, drv`books, drv.tc`filters, drv.tc`kernel, drv.IfaceSet()`filters
      ensures Ready(p)
      ensures var old' := old(p.View());
        var (q, m, _) := SetActive(old', old(drv.Map()), NextIface(old'.conns, old'.active), granted);
        (q, m) == (p.View(), drv.Map())
    {
      hide SetActive, MapOf;
      var next := p.GetNextIface();
      var _ := SetActiveIface(p, next, granted);
    }

    /** The connection on `i` goes, and so does the map entry when `i` is active. */
    method LoseIface(p: Peer, i: Iface) returns (forced: bool)
      requires Ready(p)
      modifies p`active, p`conns, drv`books, drv.tc`filters, drv.tc`kernel, drv.IfaceSet()`filters
      ensures Ready(p) && forced == (old(p.active) == Some(i))
      ensures var (q, m, _) := if forced then SetActive(old(p.View()), old(drv.Map()), None, true)
                               else (old(p.View()), old(drv.Map()), true);
        drv.Map() == m && p.View() == q.(conns := DelConn(q.conns, i))
    {
      hide OneToOne, Registered, DrvReady, SetActive, MapOf;
      forced := p.active == Some(i);
      if forced {
        var _ := SetActiveIface(p, None, true);
      }
      PeerDelIface(p, i);
    }

    /** Its end, for a peer that stays connected. */
    method SettleOn(p: Peer, forced: bool, env: Env)
      requires Ready(p)
      modifies this`sessions, p`session, p`active, p.Held(), drv`books, drv.tc`filters, drv.tc`kernel, drv.IfaceSet()`filters
      ensures Ready(p)
      ensures var q, m := old(p.View()), old(drv.Map());
        var (q', m', _) := if forced then SetActive(q, m, NextIface(q.conns, q.active), env.addLast) else (q, m, true);
        p.View() == TryNext(cfg, q', env) && drv.Map() == m'
    {
      hide OneToOne, Registered, DrvReady, SetActive, TryNext, NextIface, MapOf;
      if forced {
        SetNextActive(p, env.addLast);
      }
      TryToInitiateNextSetup(p, env);
    }

    /** What _fst_mgr_on_peer_disconnected does to the peer; `drop` tells that the peer is to be freed. */
    method DisconnectKnown(p: Peer, i: Iface, env: Env) returns (drop: bool)
      requires Ready(p) && DisconnectPeer(cfg, p.View(), drv.Map(), i, env).0.Done?
      modifies this`sessions, p, p.Held(), drv`books, drv.tc`filters, drv.tc`kernel, drv.IfaceSet()`filters
      ensures Ready(p)
      ensures DisconnectPeer(cfg, old(p.View()), old(drv.Map()), i, env) == (Done(p.View(), drv.Map()), drop)
    {
      hide Books.Agree, Books.Steered, Books.Queued, OneToOne, Registered, DrvReady, LeaveSession, SetActive, TryNext, MapOf;
      var switching := LeaveIface(p, i, env);
      var forced := LoseIface(p, i);
      drop := false;
      if switching {
        var _ := SetActiveIface(p, p.session.newIface, env.addLast);
      } else if p.conns == [] {
        drop := true;
      } else {
        SettleOn(p, forced, env);
      }
    }

    /** What a return of the session to its initial state does to the peer. */
    method InitialKnown(p: Peer, reason: Reason, again: bool, env: Env)
      requires Ready(p) && p.session != null
      requires InitialPeer(cfg, p.View(), drv.Map(), reason, again, env).Done?
      modifies this`sessions, p, p.Held(), drv`books, drv.tc`filters, drv.tc`kernel, drv.IfaceSet()`filters
      ensures Ready(p)
      ensures InitialPeer(cfg, old(p.View()), old(drv.Map()), reason, again, env) == Done(p.View(), drv.Map())
    {
      hide OneToOne, Registered, DrvReady, SetActive, TryNext, MapOf;
      if reason == Switch {
        var _ := SetActiveIface(p, p.session.newIface, env.addLast);
        SessionReset(p);
      }
      PeerSessionDeinit(p);
      if again {
        TryToInitiateNextSetup(p, env);
      }
    }

    /** fst_manager_session_transfer on the peer of an established session. */
    method TransferKnown(p: Peer, env: Env)
      requires Ready(p) && p.session != null
      modifies this`sessions, p, p.Held(), drv`books, drv.tc`filters, drv.tc`kernel, drv.IfaceSet()`filters
      ensures Ready(p)
      ensures TransferPeer(cfg, old(p.View()), old(drv.Map()), env) == Done(p.View(), drv.Map())
    {
      hide OneToOne, Registered, DrvReady, SetActive, TryNext, MapOf;
      var ok := SessionTransfer(p, env);
      if ok {
        var _ := SetActiveIface(p, p.session.newIface, env.addLast);
      } else {
        PeerSessionDeinit(p);
      }
      TryToInitiateNextSetup(p, env);
    }

    /** The end of _fst_mgr_on_setup: a session for the request replaces the one of the peer. */
    method AnswerSetup(p: Peer, oldI: Iface, newI: Iface, llt: nat, id: nat, env: Env)
      requires Ready(p)
      modifies this`sessions, p`session, p.Held()`phase
      ensures Ready(p)
      ensures p.View() == old(p.View()).(session := Some(
        SessionState(if env.respond then Established else Initiated, id, Some(oldI), Some(newI),
                     if newI.priority > oldI.priority then 0 else llt, false)))
    {
      // The source puts the new session on the list before it drops the old one; the list ends up the same.
      PeerSessionDeinit(p);
      AttachSession(p, id);
      FillSession(p, oldI, newI, llt, env);
    }

    method FillSession(p: Peer, oldI: Iface, newI: Iface, llt: nat, env: Env)
      requires Ready(p) && p.session != null
      modifies p.session`phase, p.session`oldIface, p.session`newIface, p.session`llt, p.session`nonCompliant
      ensures Ready(p)
      ensures p.View() == old(p.View()).(session := Some(
        SessionState(if env.respond then Established else Initiated, p.session.id, Some(oldI), Some(newI),
                     if newI.priority > oldI.priority then 0 else llt, false)))
    {
      hide OneToOne, DrvReady, Registered;
      var s := p.session;
      s.oldIface, s.newIface, s.llt, s.phase, s.nonCompliant := Some(oldI), Some(newI), llt, Initiated, false;
      if newI.priority > oldI.priority {
        s.llt := 0;
      }
      if env.respond {
        s.phase := Established;
      }
    }

    /** _fst_mgr_on_setup for a peer and two interfaces of the group. */
    method SetupKnown(p: Peer, oldI: Iface, newI: Iface, llt: nat, id: Option<nat>, env: Env)
      requires Ready(p)
      modifies this`sessions, p, p.Held(), drv`books, drv.tc`filters, drv.tc`kernel, drv.IfaceSet()`filters
      ensures Ready(p)
      ensures SetupPeer(old(p.View()), old(drv.Map()), oldI, newI, llt, id, env) == Done(p.View(), drv.Map())
    {
      hide OneToOne, Registered, DrvReady, SetActive, MapOf;
      if p.active != Some(oldI) {
        var ok := SetActiveIface(p, Some(oldI), env.addLast);
        if !ok {
          return;
        }
      }
      if id.None? {
        return;
      }
      AnswerSetup(p, oldI, newI, llt, id.value, env);
    }

    /** _fst_mgr_group_by_ifname, in this group. */
    method IfaceByName(ifname: string) returns (i: Option<Iface>)
      ensures i == FindIface(cfg.ifaces, ifname)
      ensures i.Some? ==> i.value in cfg.ifaces && i.value.name == ifname
    {
      var k := 0;
      while k < |cfg.ifaces|
        invariant 0 <= k <= |cfg.ifaces|
        invariant FindIface(cfg.ifaces, ifname) == FindIface(cfg.ifaces[k..], ifname)
      {
        if cfg.ifaces[k].name == ifname {
          return Some(cfg.ifaces[k]);
        }
        assert cfg.ifaces[k..][1..] == cfg.ifaces[k + 1..];
        k := k + 1;
      }
      return None;
    }

    /** _fst_mgr_group_peer_by_addr: the position of the first peer known by the address. */
    method IndexByAddr(addr: Mac) returns (k: nat)
      requires Valid()
      ensures k == PeerByAddr(state.peers, addr)
    {
      hide OneToOne, DrvReady, Registered;
      k := 0;
      while k < |peers|
        invariant 0 <= k <= |peers|
        invariant PeerByAddr(state.peers, addr) == PeerByAddr(state.peers, addr, k)
      {
        var p, j := peers[k], 0;
        while j < |p.conns|
          invariant 0 <= j <= |p.conns|
          invariant forall c | c in p.conns[..j] :: c.addr != addr
        {
          if p.conns[j].addr == addr {
            assert HasAddr(p.View(), addr);
            return;
          }
          assert p.conns[..j + 1] == p.conns[..j] + [p.conns[j]];
          j := j + 1;
        }
        assert p.conns[..j] == p.conns && !HasAddr(p.View(), addr);
        k := k + 1;
      }
    }

    /** _fst_mgr_group_peer_by_other_addr; None where the scan overreads a dump. */
    method IndexByOtherAddr(i: Iface, addr: Mac, env: Env) returns (at: Option<nat>)
      requires Valid()
      ensures at == if ScanOverread(state.peers, i, addr, env) then None
                    else Some(PeerByOtherAddr(state.peers, i, addr, env))
    {
      hide OneToOne, DrvReady, Registered, DumpSays;
      var k := 0;
      while k < |peers|
        invariant 0 <= k <= |peers|
        invariant PeerByOtherAddr(state.peers, i, addr, env) == PeerByOtherAddr(state.peers, i, addr, env, k)
        invariant ScanOverread(state.peers, i, addr, env) == ScanOverread(state.peers, i, addr, env, k)
      {
        var found := PeerScan(peers[k], i, addr, env);
        if found.None? {
          return None;
        }
        if found.value {
          return Some(k);
        }
        k := k + 1;
      }
      at := Some(k);
    }

    /** The scan of one peer's connections. */
    method PeerScan(p: Peer, i: Iface, addr: Mac, env: Env) returns (found: Option<bool>)
      ensures found == if PeerOverread(p.conns, i, addr, env) then None
                       else Some(exists c | c in p.conns :: Linked(c, i, addr, env))
    {
      hide DumpSays, Linked, PeerOverread;
      NoScan(p.conns, i, addr, env);
      var j := 0;
      while j < |p.conns|
        invariant 0 <= j <= |p.conns|
        invariant forall c | c in p.conns[..j] :: !Linked(c, i, addr, env)
        invariant PeerOverread(p.conns, i, addr, env) == PeerOverread(p.conns, i, addr, env, j)
      {
        var c := p.conns[j];
        ScanOne(p.conns, j, i, addr, env);
        if c.iface.name != i.name {
          var known := IsOtherAddrInMbies(env.mbies(c.iface.name, c.addr), addr);
          if known == Some(false) {
            known := IsOtherAddrInMbies(env.mbies(i.name, addr), c.addr);
          }
          if known.None? || known.value {
            return known;
          }
        }
        assert p.conns[..j + 1] == p.conns[..j] + [c];
        j := j + 1;
      }
      assert p.conns[..j] == p.conns;
      found := Some(false);
    }

    /** _fst_mgr_is_peer_connected */
    method IsPeerConnected(ifname: string, addr: Mac) returns (r: bool)
      requires Valid()
      ensures r == IsConnected(state.peers, ifname, addr)
    {
      hide OneToOne, DrvReady, Registered;
      var k := 0;
      while k < |peers|
        invariant 0 <= k <= |peers|
        invariant forall q, c | q in state.peers[..k] && c in q.conns :: !(c.iface.name == ifname && c.addr == addr)
      {
        var p, j := peers[k], 0;
        while j < |p.conns|
          invariant 0 <= j <= |p.conns|
          invariant forall c | c in p.conns[..j] :: !(c.iface.name == ifname && c.addr == addr)
        {
          if p.conns[j].iface.name == ifname && p.conns[j].addr == addr {
            assert state.peers[k] in state.peers && p.conns[j] in state.peers[k].conns;
            return true;
          }
          assert p.conns[..j + 1] == p.conns[..j] + [p.conns[j]];
          j := j + 1;
        }
        assert p.conns[..j] == p.conns == state.peers[k].conns;
        assert state.peers[..k + 1] == state.peers[..k] + [state.peers[k]];
        k := k + 1;
      }
      assert state.peers[..k] == state.peers;
      r := false;
    }

    /** _fst_mgr_group_by_session_id: the first session on the list with the id. */
    method SessionById(id: nat) returns (s: Session?)
      requires Valid()
      ensures s != null ==> s in sessions && s.id == id
      ensures s == null ==> forall p | p in state.peers && p.session.Some? :: p.session.value.id != id
    {
      hide DrvReady, Registered;
      var k := 0;
      while k < |sessions|
        invariant 0 <= k <= |sessions|
        invariant forall s | s in sessions[..k] :: s.id != id
      {
        if sessions[k].id == id {
          return sessions[k];
        }
        assert sessions[..k + 1] == sessions[..k] + [sessions[k]];
        k := k + 1;
      }
      assert sessions[..k] == sessions;
      forall p | p in state.peers && p.session.Some? ensures p.session.value.id != id {
        var j :| 0 <= j < |state.peers| && state.peers[j] == p;
        assert peers[j].View() == p && peers[j].session in sessions;
      }
      return null;
    }

    /** _fst_mgr_group_peer_by_session. The result the source asserts to be non-null cannot be null: each
        session on the list is held by exactly one peer. */
    method PeerBySession(s: Session) returns (p: Peer?, k: nat)
      requires Valid() && s in sessions
      ensures p != null && k < |peers| && peers[k] == p && p.session == s
      ensures forall q | q in peers && q.session == s :: q == p
    {
      hide DrvReady, Registered;
      assert s.owner in peers && s.owner.session == s;
      var j := 0;
      while j < |peers|
        invariant 0 <= j <= |peers|
        invariant forall m | 0 <= m < j :: peers[m].session != s
      {
        if peers[j].session == s {
          return peers[j], j;
        }
        j := j + 1;
      }
      assert false;
    }

    /** The objects a handler may change. */
    ghost predicate Apart(k: nat)
      requires k < |peers|
      reads this`peers, PeerSet()`session
    {
      forall j | 0 <= j < |peers| && j != k :: peers[j] != peers[k] && peers[j].Held() !! peers[k].Held()
    }

    lemma {:induction false} PeersApart(k: nat)
      requires OneToOne() && k < |peers|
      ensures Apart(k) && peers[k] in PeerSet() && peers[k].Held() <= SessionSet()
    {
      forall j | 0 <= j < |peers| && j != k ensures peers[j] != peers[k] && peers[j].Held() !! peers[k].Held() {
        assert peers[j] in peers && peers[k] in peers;
      }
    }

    /** A known peer connects. */
    method ConnectAt(k: nat, i: Iface, addr: Mac, env: Env)
      requires Valid() && k < |peers| && i in cfg.ifaces
      requires ConnectPeer(cfg, state.peers[k], state.mux, i, addr, env).Done?
      modifies this`sessions, this`peers, this`retries, this`state
      modifies PeerSet(), SessionSet(), drv`books, drv.tc`filters, drv.tc`kernel, drv.IfaceSet()`filters
      ensures Valid()
      ensures Some(state) == Put(old(state), k, ConnectPeer(cfg, old(state).peers[k], old(state).mux, i, addr, env))
    {
      hide Registered, OneToOne, ConnectPeer, DrvReady, MapOf;
      PeersApart(k);
      ConnectKnown(peers[k], i, addr, env);
      state := state.(peers := state.peers[k := peers[k].View()], mux := drv.Map());
    }

    /** _fst_mgr_peer_init, for a session that can be created. */
    method PeerInit(addr: Mac, i: Iface, id: nat)
      requires OneToOne() && DrvReady() && i in cfg.ifaces
      modifies this`sessions, this`peers
      ensures OneToOne() && DrvReady() && |peers| == |old(peers)| + 1 && peers[..|old(peers)|] == old(peers)
      ensures Registered(peers[|old(peers)|])
      ensures peers[|old(peers)|].View() == PeerState(Some(NewSession(id, cfg.forceNc)), Some(i), [Conn(i, addr)])
    {
      hide Books.Agree, Books.Steered, Books.Queued;
      var p := new Peer(i, addr);
      var s := SessionInit(p, id);
      p.session := s;
      peers := peers + [p];
    }

    /** A new peer connects. */
    method ConnectNew(i: Iface, addr: Mac, env: Env)
      requires Valid() && i in cfg.ifaces
      modifies this`sessions, this`peers, this`retries, this`state
      modifies drv`books, drv.tc`filters, drv.tc`kernel, drv.IfaceSet()`filters
      ensures Valid()
      ensures var (mux, ok) := AddMap(old(state).mux, addr, i.name, env.addLast);
        state == if ok && env.sessionId.Some?
                 then old(state).(peers := old(state).peers +
                                             [PeerState(Some(NewSession(env.sessionId.value, cfg.forceNc)), Some(i), [Conn(i, addr)])],
                                  mux := mux)
                 else old(state).(mux := mux)
    {
      hide AddMap, MapOf, OneToOne, DrvReady;
      var ok := MapNew(addr, i, env.addLast);
      if ok && env.sessionId.Some? {
        Join(addr, i, env.sessionId.value);
      }
    }

    method MapNew(addr: Mac, i: Iface, granted: bool) returns (ok: bool)
      requires Valid() && i in cfg.ifaces
      modifies this`state, drv`books, drv.tc`filters, drv.tc`kernel, drv.IfaceSet()`filters
      ensures Valid()
      ensures var (mux, added) := AddMap(old(state).mux, addr, i.name, granted);
        ok == added && state == old(state).(mux := mux)
    {
      hide AddMap, MapOf, Mux.Valid, Mux.Steering, Tc.Synced;
      ok := AddEntry(addr, i.name, granted);
      state := state.(mux := drv.Map());
    }

    method Join(addr: Mac, i: Iface, id: nat)
      requires Valid() && i in cfg.ifaces
      modifies this`sessions, this`peers, this`state
      ensures Valid()
      ensures state == old(state).(peers := old(state).peers +
                                             [PeerState(Some(NewSession(id, cfg.forceNc)), Some(i), [Conn(i, addr)])])
    {
      hide Books.Agree, Books.Steered, Books.Queued, MapOf;
      PeerInit(addr, i, id);
      state := state.(peers := state.peers + [peers[|state.peers|].View()]);
    }

    /** _fst_mgr_on_peer_connected */
    method OnPeerConnected(ifname: string, addr: Mac, env: Env)
      requires Valid() && OnConnected(cfg, state, ifname, addr, env).Some?
      modifies this`sessions, this`peers, this`retries, this`state
      modifies PeerSet(), SessionSet(), drv`books, drv.tc`filters, drv.tc`kernel, drv.IfaceSet()`filters
      ensures Valid() && Some(state) == OnConnected(cfg, old(state), ifname, addr, env)
    {
      hide ConnectPeer, DrvReady, OneToOne, AddMap, MapOf, IsConnected, Linked, ScanOverread;
      var i := IfaceByName(ifname);
      if i.None? {
        return;
      }
      var connected := IsPeerConnected(ifname, addr);
      if connected || |cfg.ifaces| < 2 || !env.cfgConnect {
        return;
      }
      var at := IndexByOtherAddr(i.value, addr, env);
      var k := at.value;
      if k == |peers| {
        ConnectNew(i.value, addr, env);
      } else {
        ConnectAt(k, i.value, addr, env);
      }
    }

    /** _fst_mgr_peer_deinit, and the deletion of the map entry after it. */
    method PeerDeinit(k: nat, addr: Mac)
      requires OneToOne() && DrvReady() && k < |peers|
      modifies this`sessions, this`peers, drv`books, drv.tc`filters, drv.tc`kernel, drv.IfaceSet()`filters
      ensures OneToOne() && DrvReady() && drv.Map() == old(drv.Map()) - {addr}
      ensures peers == old(peers[..k] + peers[k + 1..])
    {
      hide Books.Agree, Books.Steered, Books.Queued;
      var p := peers[k];
      RemoveDistinct(peers, k);
      peers := peers[..k] + peers[k + 1..];
      if p.session != null {
        WithoutNoDup(sessions, p.session);
        sessions := Without(sessions, p.session);
      }
      DelEntry(addr);
    }

    /** The first part of _fst_mgr_on_peer_disconnected, up to the freeing of the peer. */
    method DisconnectAt(k: nat, i: Iface, env: Env) returns (drop: bool)
      requires Valid() && k < |peers| && DisconnectPeer(cfg, state.peers[k], state.mux, i, env).0.Done?
      modifies this`sessions, this`peers, this`retries, this`state
      modifies PeerSet(), SessionSet(), drv`books, drv.tc`filters, drv.tc`kernel, drv.IfaceSet()`filters
      ensures Valid() && peers == old(peers)
      ensures drop == DisconnectPeer(cfg, old(state).peers[k], old(state).mux, i, env).1
      ensures Some(state) == Put(old(state), k, DisconnectPeer(cfg, old(state).peers[k], old(state).mux, i, env).0)
    {
      hide Registered, OneToOne, DisconnectPeer, DrvReady, MapOf;
      PeersApart(k);
      drop := DisconnectKnown(peers[k], i, env);
      state := state.(peers := state.peers[k := peers[k].View()], mux := drv.Map());
    }

    method DropAt(k: nat, addr: Mac)
      requires Valid() && k < |peers|
      modifies this`sessions, this`peers, this`retries, this`state
      modifies PeerSet(), drv`books, drv.tc`filters, drv.tc`kernel, drv.IfaceSet()`filters
      ensures Valid()
      ensures state == old(state).(peers := old(state).peers[..k] + old(state).peers[k + 1..], mux := old(state).mux - {addr})
    {
      hide OneToOne, DrvReady, MapOf;
      PeersApart(k);
      FstRuns.RemoveIndex(peers, k);
      FstRuns.RemoveIndex(state.peers, k);
      PeerDeinit(k, addr);
      state := state.(peers := state.peers[..k] + state.peers[k + 1..], mux := drv.Map());
    }

    /** _fst_mgr_on_peer_disconnected */
    method OnPeerDisconnected(ifname: string, addr: Mac, env: Env)
      requires Valid() && OnDisconnected(cfg, state, ifname, addr, env).Some?
      modifies this`sessions, this`peers, this`retries, this`state
      modifies PeerSet(), SessionSet(), drv`books, drv.tc`filters, drv.tc`kernel, drv.IfaceSet()`filters
      ensures Valid() && Some(state) == OnDisconnected(cfg, old(state), ifname, addr, env)
    {
      hide DisconnectPeer, DrvReady, OneToOne, MapOf, OnDisconnected, Put, PeerByAddr;
      DisconnectedInTwo(cfg, state, ifname, addr, env);
      var i := IfaceByName(ifname);
      var k := IndexByAddr(addr);
      if i.None? || k == |peers| {
        return;
      }
      var drop := DisconnectAt(k, i.value, env);
      if drop {
        DropAt(k, addr);
      }
    }

    method InitialAt(k: nat, reason: Reason, again: bool, env: Env)
      requires Valid() && k < |peers| && state.peers[k].session.Some?
      requires InitialPeer(cfg, state.peers[k], state.mux, reason, again, env).Done?
      modifies this`sessions, this`peers, this`retries, this`state
      modifies PeerSet(), SessionSet(), drv`books, drv.tc`filters, drv.tc`kernel, drv.IfaceSet()`filters
      ensures Valid()
      ensures Some(state) == Put(old(state), k, InitialPeer(cfg, old(state).peers[k], old(state).mux, reason, again, env))
    {
      hide Registered, OneToOne, InitialPeer, DrvReady, MapOf;
      PeersApart(k);
      InitialKnown(peers[k], reason, again, env);
      state := state.(peers := state.peers[k := peers[k].View()], mux := drv.Map());
    }

    method TransferAt(k: nat, env: Env)
      requires Valid() && k < |peers| && state.peers[k].session.Some?
      modifies this`sessions, this`peers, this`retries, this`state
      modifies PeerSet(), SessionSet(), drv`books, drv.tc`filters, drv.tc`kernel, drv.IfaceSet()`filters
      ensures Valid()
      ensures Some(state) == Put(old(state), k, TransferPeer(cfg, old(state).peers[k], old(state).mux, env))
    {
      hide Registered, OneToOne, TransferPeer, DrvReady, MapOf;
      PeersApart(k);
      TransferKnown(peers[k], env);
      state := state.(peers := state.peers[k := peers[k].View()], mux := drv.Map());
    }

    method SetupAt(k: nat, oldI: Iface, newI: Iface, llt: nat, id: Option<nat>, env: Env)
      requires Valid() && k < |peers|
      modifies this`sessions, this`peers, this`retries, this`state
      modifies PeerSet(), SessionSet(), drv`books, drv.tc`filters, drv.tc`kernel, drv.IfaceSet()`filters
      ensures Valid()
      ensures Some(state) == Put(old(state), k, SetupPeer(old(state).peers[k], old(state).mux, oldI, newI, llt, id, env))
    {
      hide Registered, OneToOne, SetupPeer, DrvReady, MapOf;
      PeersApart(k);
      SetupKnown(peers[k], oldI, newI, llt, id, env);
      state := state.(peers := state.peers[k := peers[k].View()], mux := drv.Map());
    }

    /** The peer a notification is about, by the id of its session. The second lookup always succeeds. */
    method NotifiedPeer(sessionId: nat) returns (s: Session?, k: nat)
      requires Valid()
      ensures s != null ==> k < |peers| && peers[k].session == s && s in sessions && s.id == sessionId
      ensures s == null ==> k == |peers| && (sessionId == INVALID_SESSION_ID || Unknown(sessionId))
    {
      s, k := null, |peers|;
      if sessionId != INVALID_SESSION_ID {
        s := SessionById(sessionId);
        if s != null {
          var p;
          p, k := PeerBySession(s);
        }
      }
    }

    /** No peer has a session with the id. */
    ghost predicate Unknown(sessionId: nat)
      reads this`state
    {
      forall p | p in state.peers && p.session.Some? :: p.session.value.id != sessionId
    }

    /** EVENT_FST_ESTABLISHED; `k` is the peer whose session it is. */
    method OnSessionEstablished(sessionId: nat) returns (ghost k: nat)
      requires Valid()
      modifies this`state, SessionSet()`phase
      ensures Valid() && state == OnEstablished(old(state), k)
      ensures if k < |peers| then old(state).peers[k].session.Some? && old(state).peers[k].session.value.id == sessionId
              else sessionId == INVALID_SESSION_ID || old(Unknown(sessionId))
    {
      var s, at := NotifiedPeer(sessionId);
      k := at;
      if s != null {
        EstablishAt(at);
      }
    }

    method EstablishAt(k: nat)
      requires Valid() && k < |peers| && peers[k].session != null
      modifies this`state, peers[k].Held()`phase
      ensures Valid() && state == OnEstablished(old(state), k)
    {
      hide OneToOne, DrvReady, Registered, MapOf;
      PeersApart(k);
      var p := peers[k];
      p.session.phase := Established;
      state := state.(peers := state.peers[k := p.View()]);
    }

    method CountRetry(reason: Reason) returns (again: bool)
      requires Valid()
      modifies this`retries, this`state
      ensures Valid()
      ensures var n := if reason == Stt then old(state).retries + 1 else 0;
        && again == (reason != Setup && n < cfg.maxRetries)
        && state == old(state).(retries := if again then n else 0)
    {
      hide OneToOne, DrvReady, Registered, MapOf;
      retries := if reason == Stt then retries + 1 else 0;
      again := reason != Setup && retries < cfg.maxRetries;
      if !again {
        retries := 0;
      }
      state := state.(retries := retries);
    }

    /** _fst_mgr_on_ctrl_notification_state_change; `k` is the peer whose session it is. */
    method OnSessionStateChange(sessionId: nat, initial: bool, reason: Reason, env: Env) returns (ghost k: nat)
      requires Valid()
      requires forall j: nat | j < |peers| && state.peers[j].session.Some? && state.peers[j].session.value.id == sessionId ::
                 OnStateChange(cfg, state, j, initial, reason, env).Some?
      modifies this`sessions, this`peers, this`retries, this`state
      modifies PeerSet(), SessionSet(), drv`books, drv.tc`filters, drv.tc`kernel, drv.IfaceSet()`filters
      ensures Valid() && Some(state) == OnStateChange(cfg, old(state), k, initial, reason, env)
      ensures if k < |old(peers)| then old(state).peers[k].session.Some? && old(state).peers[k].session.value.id == sessionId
              else sessionId == INVALID_SESSION_ID || old(Unknown(sessionId))
    {
      hide MapOf, InitialPeer;
      var s, at := NotifiedPeer(sessionId);
      k := at;
      if s == null || !initial {
        return;
      }
      var again := CountRetry(reason);
      InitialAt(at, reason, again, env);
    }

    /** _fst_mgr_on_setup, with what the supplicant knows of the session. */
    method OnSetupRequest(sessionId: nat, info: SetupInfo, env: Env)
      requires Valid()
      modifies this`sessions, this`peers, this`retries, this`state
      modifies PeerSet(), SessionSet(), drv`books, drv.tc`filters, drv.tc`kernel, drv.IfaceSet()`filters
      ensures Valid() && Some(state) == OnSetup(cfg, old(state), sessionId, info, env)
    {
      hide DrvReady, OneToOne, MapOf, SetupPeer;
      if cfg.station {
        return;
      }
      var oldI := IfaceByName(info.oldIfname);
      if oldI.None? {
        return;
      }
      var newI := IfaceByName(info.newIfname);
      if newI.None? {
        return;
      }
      Requested(sessionId, info, oldI.value, newI.value, env);
    }

    method Requested(sessionId: nat, info: SetupInfo, oldI: Iface, newI: Iface, env: Env)
      requires Valid() && !cfg.station
      requires FindIface(cfg.ifaces, info.oldIfname) == Some(oldI) && FindIface(cfg.ifaces, info.newIfname) == Some(newI)
      modifies this`sessions, this`peers, this`retries, this`state
      modifies PeerSet(), SessionSet(), drv`books, drv.tc`filters, drv.tc`kernel, drv.IfaceSet()`filters
      ensures Valid() && Some(state) == OnSetup(cfg, old(state), sessionId, info, env)
    {
      hide MapOf, SetupPeer, AddMap;
      var k := IndexByAddr(info.oldAddr);
      if k == |peers| {
        return;
      }
      var k' := IndexByAddr(info.newAddr);
      if k != k' {
        return;
      }
      var id := if sessionId == INVALID_SESSION_ID then env.sessionId else Some(sessionId);
      SetupAt(k, oldI, newI, info.llt, id, env);
    }

    /** fst_manager_session_transfer */
    method OnTransferRequest(ifname: string, addr: Mac, env: Env) returns (res: int)
      requires Valid()
      modifies this`sessions, this`peers, this`retries, this`state
      modifies PeerSet(), SessionSet(), drv`books, drv.tc`filters, drv.tc`kernel, drv.IfaceSet()`filters
      ensures Valid() && Some(state) == OnTransfer(cfg, old(state), ifname, addr, env)
      ensures res == if TransferApplies(cfg, old(state), ifname, addr) then 0 else -1
    {
      hide MapOf, TransferPeer, PeerByAddr, HasAddr;
      var i := IfaceByName(ifname);
      var k := IndexByAddr(addr);
      if i.None? || k == |peers| || peers[k].session == null {
        return -1;
      }
      var s := peers[k].session;
      if s.oldIface != i || s.phase != Established {
        return -1;
      }
      TransferAt(k, env);
      res := 0;
    }

    /** The notification can be handled: it neither dereferences null nor overreads a dump. */
    ghost predicate Defined(n: Notification, env: Env)
      reads this`peers, this`state
    {
      match n
      case PeerConnected(ifname, addr) => OnConnected(cfg, state, ifname, addr, env).Some?
      case PeerDisconnected(ifname, addr) => OnDisconnected(cfg, state, ifname, addr, env).Some?
      case SessionStateChanged(id, initial, reason) =>
        forall j: nat | j < |peers| && j < |state.peers| && state.peers[j].session.Some? && state.peers[j].session.value.id == id ::
          OnStateChange(cfg, state, j, initial, reason, env).Some?
      case _ => true
    }

    /** The event a notification amounts to: one about a session id is about the peer whose session has it, or nobody. */
    ghost predicate Means(n: Notification, ev: Event)
      reads this`state
    {
      match n
      case PeerConnected(ifname, addr) => ev == Connect(ifname, addr)
      case PeerDisconnected(ifname, addr) => ev == Disconnect(ifname, addr)
      case SessionEstablished(id) => ev.Establish? && Names(id, ev.k)
      case SessionStateChanged(id, initial, reason) => ev.StateChange? && ev == StateChange(ev.k, initial, reason) && Names(id, ev.k)
      case SetupRequested(id, info) => ev == SetupRequest(id, info)
      case TransferRequested(ifname, addr) => ev == Transfer(ifname, addr)
    }

    ghost predicate Names(id: nat, k: nat)
      reads this`state
    {
      if k < |state.peers| then state.peers[k].session.Some? && state.peers[k].session.value.id == id
      else id == INVALID_SESSION_ID || Unknown(id)
    }

    /** _fst_mgr_ctrl_notification_cb_func and, for the last one, fst_manager_session_transfer. */
    method Dispatch(n: Notification, env: Env) returns (ghost ev: Event)
      requires Valid() && Defined(n, env)
      modifies this`sessions, this`peers, this`retries, this`state
      modifies PeerSet(), SessionSet(), drv`books, drv.tc`filters, drv.tc`kernel, drv.IfaceSet()`filters
      ensures Valid() && Step(cfg, old(state), ev, env) == Some(state) && old(Means(n, ev))
    {
      hide OneToOne, DrvReady, Registered, OnConnected, OnDisconnected, OnEstablished, OnStateChange, OnSetup, OnTransfer, MapOf,
           Unknown;
      ghost var k;
      match n {
        case PeerConnected(ifname, addr) =>
          OnPeerConnected(ifname, addr, env);
          ev := Connect(ifname, addr);
        case PeerDisconnected(ifname, addr) =>
          OnPeerDisconnected(ifname, addr, env);
          ev := Disconnect(ifname, addr);
        case SessionEstablished(id) =>
          k := OnSessionEstablished(id);
          ev := Establish(k);
        case SessionStateChanged(id, initial, reason) =>
          k := OnSessionStateChange(id, initial, reason, env);
          ev := StateChange(k, initial, reason);
        case SetupRequested(id, info) =>
          OnSetupRequest(id, info, env);
          ev := SetupRequest(id, info);
        case TransferRequested(ifname, addr) =>
          var _ := OnTransferRequest(ifname, addr, env);
          ev := Transfer(ifname, addr);
      }
    }

    /** Every event goes on the log, with what the world answered to it. */
    method Handle(n: Notification, env: Env) returns (ghost ev: Event)
      requires Valid() && Logged() && Defined(n, env)
      modifies this`sessions, this`peers, this`retries, this`state, this`inputs, this`states
      modifies PeerSet(), SessionSet(), drv`books, drv.tc`filters, drv.tc`kernel, drv.IfaceSet()`filters
      ensures Valid() && Logged() && old(Means(n, ev)) && inputs == old(inputs) + [(ev, env)]
    {
      hide Step, FstRuns.Run, OneToOne, DrvReady, MapOf, Means;
      ev := Dispatch(n, env);
      FstRuns.RunSnoc(cfg, inputs, states, (ev, env), state);
      inputs, states := inputs + [(ev, env)], states + [state];
    }

    /** Some peer object has `a` on its active interface, called `name`. */
    ghost predicate Steered(a: Mac, name: string)
      reads this`peers, PeerSet()`active, PeerSet()`conns
    {
      exists k | 0 <= k < |peers| ::
        peers[k].active.Some? && AddrOf(peers[k].conns, peers[k].active.value) == Some(a) &&
        peers[k].active.value.name == name
    }

    /** After any run in which each address belongs to one peer, the multiplexer beneath the group maps exactly the
        addresses of its peers on their active interfaces. */
    lemma {:induction false} MultiplexerFollowsPeers(a: Mac, name: string)
      requires Valid() && Logged()
      requires forall k | 0 <= k < |inputs| :: FstRuns.OneOwner(cfg, states[k], inputs[k].0, inputs[k].1)
      ensures a in drv.Map() && drv.Map()[a] == name <==> Steered(a, name)
    {
      hide OneToOne, DrvReady, FstSession.Step, FstRuns.OneOwner, MapOf;
      FstRuns.MapOverRuns(cfg, inputs, states, |inputs|);
      if Steered(a, name) {
        var k :| 0 <= k < |peers| && peers[k].active.Some? && AddrOf(peers[k].conns, peers[k].active.value) == Some(a) &&
                 peers[k].active.value.name == name;
        assert state.peers[k] in state.peers && peers[k].View() == state.peers[k];
        assert FstRuns.Reached(state.peers, a, name);
      }
      if FstRuns.Reached(state.peers, a, name) {
        var p :| p in state.peers && FstRuns.ActiveAddr(p) == Some(a) && p.active.value.name == name;
        var k :| 0 <= k < |state.peers| && state.peers[k] == p;
        assert peers[k].View() == p;
      }
    }

    /** From a peer to its queue: on an access point whose interfaces have their queues, after any such run, a frame
        to the address of a peer on its active interface meets a filter, and gets the queue of that interface and of
        no other; a frame to any other address meets none. */
    lemma {:induction false} FrameReachesTheActiveInterface(skb: Skb)
      requires Valid() && Logged()
      requires forall k | 0 <= k < |inputs| :: FstRuns.OneOwner(cfg, states[k], inputs[k].0, inputs[k].1)
      requires !drv.tc.isSta && drv.QueuesAssigned() && skb.Valid()
      ensures forall p | p in drv.tc.kernel :: KeysInHeader(drv.tc.kernel[p].keys)
      ensures (exists name :: Steered(skb.Dest(), name)) ==> exists p :: FirstMatch(drv.tc.kernel, skb, p)
      ensures (forall name :: !Steered(skb.Dest(), name)) ==> forall p | p in drv.tc.kernel :: !RuleMatches(drv.tc.kernel[p], skb)
      ensures forall name, p, i | Steered(skb.Dest(), name) && FirstMatch(drv.tc.kernel, skb, p) && i in drv.ifaces ::
                drv.tc.kernel[p].queue == i.queueId <==> i.ifname == name
    {
      hide OneToOne, FstSession.Step, FstRuns.OneOwner, MapOf, Mux.Valid, Mux.Steering, Mux.QueuesAssigned, RuleMatches, KeysInHeader,
           FstRuns.Run, Steered, FirstMatch;
      drv.FrameGoesToTheMappedInterface(skb);
      var d := skb.Dest();
      forall name ensures d in drv.Map() && drv.Map()[d] == name <==> Steered(d, name) {
        MultiplexerFollowsPeers(d, name);
      }
      if d in drv.Map() {
        assert Steered(d, drv.Map()[d]);
      }
    }
  }

  /** The answers of the two dumps, the second asked only if the first says no; of none, on the same interface. */
  function Asked(c: Conn, i: Iface, addr: Mac, env: Env): Option<bool> {
    if c.iface.name == i.name then Some(false)
    else
      var first := DumpSays(env.mbies(c.iface.name, c.addr), addr);
      if first == Some(false) then DumpSays(env.mbies(i.name, addr), c.addr) else first
  }

  lemma {:induction false} NoScan(conns: seq<Conn>, i: Iface, addr: Mac, env: Env)
    ensures !PeerOverread(conns, i, addr, env, |conns|)
  {
  }

  /** What the scan finds at the j-th connection, none before it being linked. */
  lemma {:induction false} ScanOne(conns: seq<Conn>, j: nat, i: Iface, addr: Mac, env: Env)
    requires j < |conns| && PeerOverread(conns, i, addr, env) == PeerOverread(conns, i, addr, env, j)
    ensures var known := Asked(conns[j], i, addr, env);
      && (known.None? ==> PeerOverread(conns, i, addr, env))
      && (known == Some(true) ==> !PeerOverread(conns, i, addr, env) && exists c | c in conns :: Linked(c, i, addr, env))
      && (known == Some(false) ==> !Linked(conns[j], i, addr, env))
      && (known == Some(false) ==> PeerOverread(conns, i, addr, env) == PeerOverread(conns, i, addr, env, j + 1))
  {
    hide DumpSays;
    if Asked(conns[j], i, addr, env) == Some(true) {
      assert Linked(conns[j], i, addr, env);
    }
  }

  /** A disconnection as a step of the peer and, if it is to be dropped, its removal. */
  lemma {:induction false} DisconnectedInTwo(cfg: Config, g: GroupState, ifname: string, addr: Mac, env: Env)
    ensures var i, k, r := FindIface(cfg.ifaces, ifname), PeerByAddr(g.peers, addr), OnDisconnected(cfg, g, ifname, addr, env);
      if i.None? || k == |g.peers| then r == Some(g)
      else
        var (o, drop) := DisconnectPeer(cfg, g.peers[k], g.mux, i.value, env);
        && (drop || r.Some? ==> o.Done?)
        && (!drop ==> r == Put(g, k, o))
        && (drop ==> var g' := Put(g, k, o).value;
              r == Some(g'.(peers := g'.peers[..k] + g'.peers[k + 1..], mux := g'.mux - {addr})))
  {
    hide LeaveSession, SetActive, TryNext, PeerByAddr;
    var i, k := FindIface(cfg.ifaces, ifname), PeerByAddr(g.peers, addr);
    if i.Some? && k < |g.peers| {
      var o := DisconnectPeer(cfg, g.peers[k], g.mux, i.value, env).0;
      if o.Done? {
        assert g.peers[k := o.peer][..k] + g.peers[k := o.peer][k + 1..] == g.peers[..k] + g.peers[k + 1..];
      }
    }
  }

  lemma {:induction false} RemoveDistinct<T>(s: seq<T>, k: nat)
    requires NoDup(s) && k < |s|
    ensures var rest := s[..k] + s[k + 1..];
      NoDup(rest) && forall x :: x in rest <==> x in s && x != s[k]
  {
    FstRuns.RemoveIndex(s, k);
  }
}

/** What the events of fst_manager.c bring about: when a session is set up and what it says, where a peer is active
    after a connection, a disconnection, a switch, a setup request or a transfer, and what the map says then. */
module FstOutcomes {
  import opened FstTypes
  import opened MultiBand
  import opened FstSession
  import opened FstRuns
  import opened FstStation

  // ---------------------------------------------------------------- the change of active interface

  /** Where a peer is active after it was told to go to `i`: there, if it is connected there and the filter is granted,
      and otherwise nowhere. */
  function Moved(conns: seq<Conn>, active: Option<Iface>, i: Iface, granted: bool): Option<Iface> {
    if active == Some(i) || (granted && exists c | c in conns :: c.iface == i) then Some(i) else None
  }

  lemma {:induction false} SetActiveIs(p: PeerState, mux: map<Mac, string>, i: Iface, granted: bool)
    requires ActiveConnected(p) && |mux| < MAX_FILTERS
    ensures var (q, _, ok) := SetActive(p, mux, Some(i), granted);
      q == p.(active := Moved(p.conns, p.active, i, granted)) && (ok <==> q.active == Some(i))
  {
    hide AddrOf, Deactivate, AddMap;
    AddrOfFound(p.conns, i);
    DeactivateIs(p, mux);
    if AddrOf(p.conns, i).Some? {
      AddMapIs(Deactivate(p, mux).1, AddrOf(p.conns, i).value, i.name, granted);
    }
  }

  lemma {:induction false} DeactivateIs(p: PeerState, mux: map<Mac, string>)
    requires ActiveConnected(p)
    ensures var (q, mux') := Deactivate(p, mux); q == p.(active := None) && |mux'| <= |mux|
  {
    hide AddrOf;
    if p.active.Some? {
      Shrink(mux, AddrOf(p.conns, p.active.value).value);
    }
  }

  lemma {:induction false} AddMapIs(mux: map<Mac, string>, a: Mac, name: string, granted: bool)
    requires |mux| < MAX_FILTERS
    ensures AddMap(mux, a, name, granted).1 == granted
  {
    Shrink(mux, a);
  }

  lemma {:induction false} SetInactiveIs(p: PeerState, mux: map<Mac, string>)
    requires ActiveConnected(p)
    ensures var (q, mux', _) := SetActive(p, mux, None, true);
      q == p.(active := None) && |mux'| <= |mux|
    ensures SetActive(p, mux, None, false).0 == p.(active := None)
  {
    SetInactive(p, mux);
  }

  // ---------------------------------------------------------------- the setup of a session

  /** `i` is the first connected interface of highest priority besides the active one. */
  ghost predicate IsBackup(conns: seq<Conn>, active: Option<Iface>, i: Iface) {
    exists n | 0 <= n < |conns| ::
      && conns[n].iface == i && Some(i) != active
      && (forall m | 0 <= m < |conns| && Some(conns[m].iface) != active :: conns[m].iface.priority <= i.priority)
      && (forall m | 0 <= m < n && Some(conns[m].iface) != active :: conns[m].iface.priority < i.priority)
  }

  lemma {:induction false} NextIfaceIsBackup(conns: seq<Conn>, active: Option<Iface>)
    ensures var r := NextIface(conns, active); r.Some? ==> IsBackup(conns, active, r.value)
    ensures NextIface(conns, active).Some? <==> exists c | c in conns :: Some(c.iface) != active
  {
    NextIfaceIsMaximal(conns, active);
    if NextIface(conns, active).Some? {
      var n := BackupAt(conns, active);
      assert forall m | 0 <= m < |conns| :: conns[m] in conns;
    }
  }

  lemma {:induction false} BackupAt(conns: seq<Conn>, active: Option<Iface>) returns (n: nat)
    requires NextIface(conns, active).Some?
    ensures n < |conns| && conns[n].iface == NextIface(conns, active).value && Some(conns[n].iface) != active
    ensures forall m | 0 <= m < n && Some(conns[m].iface) != active :: conns[m].iface.priority < conns[n].iface.priority
  {
    var last := |conns| - 1;
    var best, i := NextIface(conns[..last], active), conns[last].iface;
    NextIfaceIsMaximal(conns[..last], active);
    if NextIface(conns, active) == best {
      n := BackupAt(conns[..last], active);
      assert forall m | 0 <= m <= n :: conns[..last][m] == conns[m];
    } else {
      n := last;
      forall m | 0 <= m < last && Some(conns[m].iface) != active ensures conns[m].iface.priority < i.priority {
        assert conns[..last][m] == conns[m] && conns[m] in conns[..last];
      }
    }
  }

  /** Everything it takes to set up a session: a station, not in the forced mode; an active interface, on which the
      peer is connected, and another one; a session, held or new; elements of the peer on some interface; and every
      call of the supplicant granted. */
  predicate CanSetUp(cfg: Config, conns: seq<Conn>, active: Option<Iface>, held: bool, env: Env) {
    && cfg.station && !cfg.forceNc && (held || env.sessionId.Some?)
    && active.Some? && (exists c | c in conns :: c.iface == active.value) && (exists c | c in conns :: Some(c.iface) != active)
    && (exists c | c in conns :: env.mbies(c.iface.name, c.addr) != "")
    && env.setOld && env.setNew && env.setOldAddr && env.setNewAddr && env.setLlt && env.initiate
  }

  /** A session that was just initiated: it leaves from the active interface for the best backup, at once if that
      outranks the active one and else when the link was lost for the configured time. */
  ghost predicate JustInitiated(q: PeerState) {
    && q.session.Some? && q.active.Some? && var s := q.session.value;
       && s.phase == Initiated && !s.nonCompliant && s.oldIface == q.active
       && s.newIface.Some? && IsBackup(q.conns, q.active, s.newIface.value)
       && s.llt == if q.active.value.priority < s.newIface.value.priority then 0 else MsToLlt(s.newIface.value.llt)
  }

  /** The id of a session that was held, or else the new one. */
  predicate IdOf(q: PeerState, session: Option<SessionState>, env: Env) {
    q.session.Some? ==> q.session.value.id == if session.Some? then session.value.id
                                               else if env.sessionId.Some? then env.sessionId.value else q.session.value.id
  }

  lemma {:induction false} CompliantIff(cfg: Config, conns: seq<Conn>, env: Env)
    ensures NonCompliant(cfg, conns, env) <==> cfg.forceNc || !exists c | c in conns :: env.mbies(c.iface.name, c.addr) != ""
  {
  }

  /** An access point, an inactive peer, or no session to be had: nothing is tried. */
  predicate NothingToTry(cfg: Config, active: Option<Iface>, session: Option<SessionState>, env: Env) {
    !cfg.station || active.None? || (session.None? && env.sessionId.None?)
  }

  /** The setup attempt: without a session in progress, one is set up if and only if `CanSetUp`, and then it says what
      it must. One in progress is left alone. */
  lemma {:induction false} SetupIff(cfg: Config, p: PeerState, env: Env)
    ensures var q := TryNext(cfg, p, env);
      && q.conns == p.conns && q.active == p.active && IdOf(q, p.session, env)
      && (InProgress(p) ==> q == p)
      && (NothingToTry(cfg, p.active, p.session, env) ==> q == p)
      && (!InProgress(p) ==> (InProgress(q) <==> CanSetUp(cfg, p.conns, p.active, p.session.Some?, env)))
      && (!InProgress(p) && InProgress(q) ==> JustInitiated(q))
  {
    hide NextIface, AddrOf, NonCompliant, MsToLlt, IsBackup;
    NextIfaceIsBackup(p.conns, p.active);
    CompliantIff(cfg, p.conns, env);
    if p.active.Some? {
      AddrOfFound(p.conns, p.active.value);
    }
    var next := NextIface(p.conns, p.active);
    if next.Some? {
      AddrOfFound(p.conns, next.value);
      NextIfaceIsMaximal(p.conns, p.active);
    }
  }

  /** What an attempt leaves of a peer with these connections, active there and with no session in progress. */
  ghost predicate Attempted(cfg: Config, conns: seq<Conn>, active: Option<Iface>, session: Option<SessionState>, env: Env, q: PeerState) {
    && q.conns == conns && q.active == active && IdOf(q, session, env)
    && (InProgress(q) <==> CanSetUp(cfg, conns, active, session.Some?, env)) && (InProgress(q) ==> JustInitiated(q))
    && (NothingToTry(cfg, active, session, env) ==> q.session == session)
  }

  lemma {:induction false} AttemptIs(cfg: Config, p: PeerState, env: Env)
    requires !InProgress(p)
    ensures Attempted(cfg, p.conns, p.active, p.session, env, TryNext(cfg, p, env))
  {
    hide JustInitiated, CanSetUp, TryNext;
    SetupIff(cfg, p, env);
  }

  // ---------------------------------------------------------------- reports about a session

  /** A session that leaves from a connected interface but goes nowhere: its switch dereferences null. */
  predicate NowhereToGo(conns: seq<Conn>, s: SessionState) {
    s.newIface.None? && s.oldIface.Some? && exists c | c in conns :: c.iface == s.oldIface.value
  }

  /** The session of the peer returned to its initial state: a switch moves the peer to the session's new interface,
      any other reason leaves it where it is; that session is gone, and unless it is given up, the next is tried. */
  lemma {:induction false} InitialIs(cfg: Config, p: PeerState, mux: map<Mac, string>, reason: Reason, again: bool, env: Env)
    requires p.session.Some? && ActiveConnected(p) && |mux| < MAX_FILTERS
    ensures var o, s := InitialPeer(cfg, p, mux, reason, again, env), p.session.value;
      var active := if reason != Switch then p.active
                    else if s.newIface.None? then None
                    else Moved(p.conns, p.active, s.newIface.value, env.addLast);
      && (o.Crash? <==> reason == Switch && NowhereToGo(p.conns, s))
      && (o.Done? ==>
        && (reason != Switch ==> o.mux == mux)
        && (if again then Attempted(cfg, p.conns, active, None, env, o.peer)
            else o.peer == PeerState(None, active, p.conns)))
  {
    hide SetActive, TryNext, Moved, Attempted, AddrOf;
    var s := p.session.value;
    if s.oldIface.Some? {
      AddrOfFound(p.conns, s.oldIface.value);
    }
    SetActiveKeepsRest(p, mux, s.newIface, env.addLast);
    if s.newIface.Some? {
      SetActiveIs(p, mux, s.newIface.value, env.addLast);
    } else {
      SetInactiveIs(p, mux);
    }
    var p1 := if reason == Switch then SetActive(p, mux, s.newIface, env.addLast).0 else p;
    AttemptIs(cfg, p1.(session := None), env);
  }

  /** A transfer on demand: granted, it moves the peer to the session's new interface, and the session is in
      transition; refused, the session is gone and the next is tried. */
  lemma {:induction false} TransferIs(cfg: Config, p: PeerState, mux: map<Mac, string>, env: Env)
    requires p.session.Some? && p.session.value.newIface.Some? && ActiveConnected(p) && |mux| < MAX_FILTERS
    ensures var o, s := TransferPeer(cfg, p, mux, env), p.session.value;
      && o.Done?
      && (env.transfer ==> o.peer == PeerState(Some(s.(phase := InTransition)),
                                               Moved(p.conns, p.active, s.newIface.value, env.addLast), p.conns))
      && (!env.transfer ==> Attempted(cfg, p.conns, p.active, None, env, o.peer) && o.mux == mux)
  {
    hide SetActive, TryNext, Moved, Attempted;
    var s := p.session.value;
    var p0 := p.(session := Some(s.(phase := InTransition)));
    SetActiveIs(p0, mux, s.newIface.value, env.addLast);
    SetupIff(cfg, p0.(active := Moved(p.conns, p.active, s.newIface.value, env.addLast)), env);
    AttemptIs(cfg, p.(session := None), env);
  }

  // ---------------------------------------------------------------- setup requests

  /** The request is accepted: the peer is active on the old interface or can be brought there, and a session with the
      requested id, or a new one if there is none, can be created. */
  predicate Accepts(p: PeerState, oldI: Iface, id: Option<nat>, env: Env) {
    Moved(p.conns, p.active, oldI, env.addLast) == Some(oldI) && id.Some?
  }

  /** The session a request asks for. */
  predicate IsRequested(s: SessionState, oldI: Iface, newI: Iface, llt: nat, id: nat, env: Env) {
    && s.id == id && s.oldIface == Some(oldI) && s.newIface == Some(newI) && !s.nonCompliant
    && s.phase == (if env.respond then Established else Initiated)
    && (s.llt == 0 || s.llt == llt) && (s.llt == 0 <==> newI.priority > oldI.priority || llt == 0)
  }

  lemma {:induction false} SetupRequestIs(p: PeerState, mux: map<Mac, string>, oldI: Iface, newI: Iface, llt: nat,
                                          id: Option<nat>, env: Env)
    requires ActiveConnected(p) && |mux| < MAX_FILTERS
    ensures var o := SetupPeer(p, mux, oldI, newI, llt, id, env);
      && o.Done? && o.peer.conns == p.conns && o.peer.active == Moved(p.conns, p.active, oldI, env.addLast)
      && (Accepts(p, oldI, id, env) ==> o.peer.session.Some? && IsRequested(o.peer.session.value, oldI, newI, llt, id.value, env))
      && (!Accepts(p, oldI, id, env) ==> o.peer.session == p.session)
  {
    hide SetActive;
    SetActiveIs(p, mux, oldI, env.addLast);
  }

  // ---------------------------------------------------------------- connections and disconnections

  /** A session in progress says where it goes, and is compliant: kept by stations and access points alike. */
  predicate InOrder(p: PeerState) {
    InProgress(p) ==> p.session.value.newIface.Some? && !p.session.value.nonCompliant
  }

  lemma {:induction false} InvariantsOrder(p: PeerState)
    ensures SessionInv(p) || ApInv(p) ==> InOrder(p)
  {
  }

  /** The disconnection starts the switch of an established session. */
  predicate Switches(p: PeerState, i: Iface, env: Env) {
    p.session.Some? && p.session.value.oldIface == Some(i) && p.session.value.phase == Established && env.transfer
  }

  /** The session of the peer leaves from or goes to `i`. */
  predicate Concerned(p: PeerState, i: Iface) {
    p.session.Some? && (p.session.value.oldIface == Some(i) || p.session.value.newIface == Some(i))
  }

  /** What remains of the session of a peer that disconnects from `i` without a switch. */
  function Remaining(p: PeerState, i: Iface): Option<SessionState> {
    if Concerned(p, i) then None else p.session
  }

  /** The first connection on `i`, if there is one, is gone, and no other. */
  ghost predicate Gone(conns: seq<Conn>, i: Iface, conns': seq<Conn>) {
    if exists c | c in conns :: c.iface == i then
      exists n | 0 <= n < |conns| ::
        conns[n].iface == i && (forall m | 0 <= m < n :: conns[m].iface != i) && conns' == conns[..n] + conns[n + 1..]
    else conns' == conns
  }

  lemma {:induction false} DelConnIs(conns: seq<Conn>, i: Iface)
    ensures Gone(conns, i, DelConn(conns, i))
  {
    var n := FirstOn(conns, i);
    DelConnAt(conns, i, n);
    assert n < |conns| ==> conns[n] in conns;
  }

  lemma {:induction false} FirstOn(conns: seq<Conn>, i: Iface) returns (n: nat)
    ensures n <= |conns| && (forall m | 0 <= m < n :: conns[m].iface != i) && (n < |conns| ==> conns[n].iface == i)
  {
    n := 0;
    while n < |conns| && conns[n].iface != i
      invariant n <= |conns| && forall m | 0 <= m < n :: conns[m].iface != i
    {
      n := n + 1;
    }
  }

  /** What a peer that disconnected from `i` and stays is like: an established session that left from there takes it to
      its new interface, if the transfer is granted. Otherwise a peer that was active there is active on the best
      interface it has left, any other where it was, and the next setup is tried. */
  ghost predicate Disconnected(cfg: Config, p: PeerState, i: Iface, env: Env, q: PeerState) {
    && Gone(p.conns, i, q.conns)
    && if Switches(p, i, env) then
         var s, active := p.session.value, if p.active == Some(i) then None else p.active;
         && q.session == Some(s.(phase := InTransition)) && s.newIface.Some?
         && q.active == Moved(q.conns, active, s.newIface.value, env.addLast)
       else SettledOn(q.conns, p.active, i, env.addLast, q.active) && LeftAlone(cfg, p, q.conns, q.active, i, env, q)
  }

  /** A peer is dropped if it has no connection left and no switch was started. */
  lemma {:induction false} DisconnectIs(cfg: Config, p: PeerState, mux: map<Mac, string>, i: Iface, env: Env)
    requires InOrder(p) && ActiveConnected(p) && |mux| < MAX_FILTERS
    ensures var (o, drop) := DisconnectPeer(cfg, p, mux, i, env);
      && o.Done? && (drop <==> !Switches(p, i, env) && Gone(p.conns, i, []))
      && (!drop ==> Disconnected(cfg, p, i, env, o.peer))
  {
    hide SetActive, TryNext, DelConn, NextIface, HasIface, Attempted, Moved, IsBackup, LeaveSession, Gone;
    LeaveIs(p, mux, i, env);
    DelConnIs(p.conns, i);
    var (left, switching) := LeaveSession(p, mux, i, env);
    var forced := left.peer.active == Some(i);
    SetInactiveIs(left.peer, left.mux);
    var (p1, mux1, _) := if forced then SetActive(left.peer, left.mux, None, true) else (left.peer, left.mux, true);
    var conns := DelConn(p.conns, i);
    var p2 := p1.(conns := conns);
    StillConnected(p1, i);
    GoneOnce(p.conns, i, conns);
    if switching {
      SetActiveIs(p2, mux1, p2.session.value.newIface.value, env.addLast);
    } else if conns != [] {
      var next := NextIface(conns, p2.active);
      NextIfaceIsBackup(conns, p2.active);
      if forced {
        assert conns[0] in conns;
        SetActiveIs(p2, mux1, next.value, env.addLast);
      }
      var p3 := if forced then SetActive(p2, mux1, next, env.addLast).0 else p2;
      SettledIs(conns, p.active, i, env.addLast, p3.active);
      SetupIff(cfg, p3, env);
      if !InProgress(p3) {
        AttemptIs(cfg, p3, env);
      }
      assert SettledOn(conns, p.active, i, env.addLast, p3.active);
      assert LeftAlone(cfg, p, conns, p3.active, i, env, TryNext(cfg, p3, env));
    }
  }

  /** Where a peer that was active on `active` is after it disconnected from `i`. */
  ghost predicate SettledOn(conns: seq<Conn>, active: Option<Iface>, i: Iface, granted: bool, active': Option<Iface>) {
    if active != Some(i) then active' == active
    else if !granted then active' == None
    else active'.Some? && IsBackup(conns, None, active'.value)
  }

  lemma {:induction false} SettledIs(conns: seq<Conn>, active: Option<Iface>, i: Iface, granted: bool, active': Option<Iface>)
    requires conns != []
    requires active != Some(i) ==> active' == active
    requires active == Some(i) ==>
      NextIface(conns, None).Some? && active' == Moved(conns, None, NextIface(conns, None).value, granted)
    ensures SettledOn(conns, active, i, granted, active')
  {
    hide NextIface, IsBackup;
    NextIfaceIsBackup(conns, None);
    NextIfaceIsMaximal(conns, None);
  }

  /** Its session: one in progress elsewhere is kept; else the next setup is tried. */
  ghost predicate LeftAlone(cfg: Config, p: PeerState, conns: seq<Conn>, active: Option<Iface>, i: Iface, env: Env, q: PeerState) {
    if InProgress(p) && !Concerned(p, i) then q == PeerState(p.session, active, conns)
    else Attempted(cfg, conns, active, Remaining(p, i), env, q)
  }

  lemma {:induction false} LeaveIs(p: PeerState, mux: map<Mac, string>, i: Iface, env: Env)
    requires InOrder(p)
    ensures var (o, switching) := LeaveSession(p, mux, i, env);
      && o.Done? && o.mux == mux && (switching <==> Switches(p, i, env))
      && (switching ==> o.peer == p.(session := Some(p.session.value.(phase := InTransition))) && p.session.value.newIface.Some?)
      && (!switching ==> o.peer == p.(session := Remaining(p, i)))
  {
    hide HasIface, NcTransfer;
  }

  // ---------------------------------------------------------------- a known peer connects

  /** A new connection on `i` outranks where the session goes. */
  predicate Outranked(p: PeerState, i: Iface) {
    p.session.Some? && p.session.value.newIface.Some? && i.priority > p.session.value.newIface.value.priority
  }

  function Reset(p: PeerState, i: Iface): Option<SessionState> {
    if Outranked(p, i) then Some(p.session.value.(phase := Idle)) else p.session
  }

  /** The setup that needs no session between the two sides: in the forced mode, or when no connection has elements. */
  predicate OneSided(cfg: Config, conns: seq<Conn>, env: Env) {
    cfg.forceNc || !exists c | c in conns :: env.mbies(c.iface.name, c.addr) != ""
  }

  lemma {:induction false} OneSidedIs(cfg: Config, p: PeerState, env: Env)
    requires cfg.station && !InProgress(p)
    ensures var q, next := TryNext(cfg, p, env), NextIface(p.conns, p.active);
      && q.conns == p.conns && q.active == p.active
      && (p.active.None? || (p.session.None? && env.sessionId.None?) ==> q == p)
      && (p.active.Some? && (p.session.Some? || env.sessionId.Some?) && next.Some? ==>
            && q.session.Some? && (q.session.value.nonCompliant <==> OneSided(cfg, p.conns, env))
            && (OneSided(cfg, p.conns, env) ==> q.session.value.phase == Idle && q.session.value.oldIface == p.active
                                                && q.session.value.newIface == next))
  {
    hide NextIface, AddrOf, MsToLlt, NonCompliant;
    CompliantIff(cfg, p.conns, env);
  }

  /** It moves the peer to the best interface it has, if that outranks the active one. */
  ghost predicate MovedUp(conns: seq<Conn>, active: Iface, session: Option<SessionState>, env: Env, q: PeerState) {
    && q.conns == conns && IdOf(q, session, env) && q.session.Some? && var s := q.session.value;
       && s.phase == Idle && s.nonCompliant && s.oldIface == Some(active)
       && s.newIface.Some? && IsBackup(conns, Some(active), s.newIface.value)
       && q.active == if active.priority < s.newIface.value.priority
                      then Moved(conns, Some(active), s.newIface.value, env.addLast) else Some(active)
  }

  /** A station's peer connects on one more interface: a session in progress stays unless it is outranked. Otherwise the
      next setup is tried; a one-sided one moves the peer at once. */
  lemma {:induction false} ConnectIs(cfg: Config, p: PeerState, mux: map<Mac, string>, i: Iface, a: Mac, env: Env)
    requires cfg.station && InOrder(p) && ActiveConnected(p) && |mux| < MAX_FILTERS
    requires exists c | c in p.conns :: c.iface != i
    ensures var o := ConnectPeer(cfg, p, mux, i, a, env); var conns, s := p.conns + [Conn(i, a)], Reset(p, i);
      o.Done? ==>
        if InProgress(p) && !Outranked(p, i) then o == Done(PeerState(p.session, p.active, conns), mux)
        else if p.active.Some? && (s.Some? || env.sessionId.Some?) && OneSided(cfg, conns, env)
        then MovedUp(conns, p.active.value, s, env, o.peer)
        else Attempted(cfg, conns, p.active, s, env, o.peer) && o.mux == mux
  {
    hide NcTransfer, NextIface, TryNext, Attempted, Moved, IsBackup, OneSided, ActiveConnected, JustInitiated, CanSetUp;
    var p0 := p.(conns := p.conns + [Conn(i, a)]);
    var p1 := p0.(session := Reset(p, i));
    var p2 := TryNext(cfg, p1, env);
    TwoIfaces(p1.conns, p1.active, i);
    NextIfaceIsBackup(p1.conns, p1.active);
    AppendStays(p, i, a);
    SetupIff(cfg, p1, env);
    if !InProgress(p1) {
      AttemptIs(cfg, p1, env);
      OneSidedIs(cfg, p1, env);
    }
    if p2.session.Some? && p2.session.value.newIface.Some? {
      SameActive(p0, p2);
      NcTransferIs(p2, mux, env.addLast);
    }
  }

  lemma {:induction false} SameActive(p: PeerState, q: PeerState)
    requires ActiveConnected(p) && q.active == p.active && q.conns == p.conns
    ensures ActiveConnected(q)
  {
  }

  lemma {:induction false} NcTransferIs(p: PeerState, mux: map<Mac, string>, granted: bool)
    requires p.session.Some? && p.session.value.newIface.Some? && ActiveConnected(p) && |mux| < MAX_FILTERS
    ensures NcTransfer(p, mux, granted).0 ==
            PeerState(Some(p.session.value.(phase := Idle)), Moved(p.conns, p.active, p.session.value.newIface.value, granted), p.conns)
  {
    hide SetActive, Moved;
    SetActiveIs(p, mux, p.session.value.newIface.value, granted);
  }

  /** On an access point the session is reset if it is outranked, and that is all. */
  lemma {:induction false} ConnectToAccessPointIs(cfg: Config, p: PeerState, mux: map<Mac, string>, i: Iface, a: Mac, env: Env)
    requires !cfg.station && ApInv(p)
    ensures var o := ConnectPeer(cfg, p, mux, i, a, env);
      o.Done? ==> o == Done(PeerState(Reset(p, i), p.active, p.conns + [Conn(i, a)]), mux)
  {
    hide SetActive;
  }

  /** The interface it is active on, if not the one that went, is still connected. */
  lemma {:induction false} StillConnected(p: PeerState, i: Iface)
    requires ActiveConnected(p) && p.active != Some(i)
    ensures ActiveConnected(p.(conns := DelConn(p.conns, i)))
  {
    if p.active.Some? {
      AddrOfDelConn(p.conns, i, p.active.value);
    }
  }

  // ---------------------------------------------------------------- the same of the group

  /** All peers but the k-th are as they were. */
  ghost predicate OnlyPeer(g: GroupState, g': GroupState, k: nat) {
    |g'.peers| == |g.peers| && forall j | 0 <= j < |g.peers| && j != k :: g'.peers[j] == g.peers[j]
  }

  lemma {:induction false} StepOfPeer(cfg: Config, g: GroupState, ev: Event, env: Env, k: nat)
    requires MapInv(g) && Room(g) && EffectOf(cfg, g, ev, env) == Acts(k)
    ensures ActiveConnected(g.peers[k]) && |g.mux| < MAX_FILTERS
    ensures var r, o := Step(cfg, g, ev, env), Acted(cfg, g, ev, env, k);
      && (r.Some? <==> o.Done?)
      && (o.Done? && !Leaves(cfg, g, ev, env, k) ==> OnlyPeer(g, r.value, k) && r.value.peers[k] == o.peer)
    ensures var r := Step(cfg, g, ev, env); r.Some? ==> (MapInv(r.value) <==> OneOwner(cfg, g, ev, env))
  {
    hide Step, Acted, Leaves, EffectOf, MapInv, ActiveConnected, OneOwner;
    MapSize(g);
    PeerFacts(g, k);
    StepIs(cfg, g, ev, env);
    StepKeepsMapIff(cfg, g, ev, env);
  }

  /** A session of the k-th peer returned to its initial state. A switch moves the peer to the session's new interface,
      any other reason leaves it and the map alone; the session is gone; and unless the report says that the peer asked
      for a setup, or that as many setups in a row timed out as are allowed, the next one is tried. */
  lemma {:induction false} StateChangeBrings(cfg: Config, g: GroupState, k: nat, reason: Reason, env: Env)
    requires MapInv(g) && Room(g) && k < |g.peers| && g.peers[k].session.Some?
    ensures var r, p, s := Step(cfg, g, StateChange(k, true, reason), env), g.peers[k], g.peers[k].session.value;
      var n := if reason == Stt then g.retries + 1 else 0;
      var again := reason != Setup && n < cfg.maxRetries;
      var active := if reason != Switch then p.active
                    else if s.newIface.None? then None
                    else Moved(p.conns, p.active, s.newIface.value, env.addLast);
      && (r.None? <==> reason == Switch && NowhereToGo(p.conns, s))
      && (r.Some? ==>
        && OnlyPeer(g, r.value, k) && MapInv(r.value) && r.value.retries == (if again then n else 0)
        && (reason != Switch ==> r.value.mux == g.mux)
        && (if again then Attempted(cfg, p.conns, active, None, env, r.value.peers[k])
            else r.value.peers[k] == PeerState(None, active, p.conns)))
  {
    hide InitialPeer, Attempted, Moved, MapInv, ActiveConnected, NowhereToGo;
    var ev := StateChange(k, true, reason);
    StepOfPeer(cfg, g, ev, env, k);
    var n := if reason == Stt then g.retries + 1 else 0;
    InitialIs(cfg, g.peers[k], g.mux, reason, reason != Setup && n < cfg.maxRetries, env);
  }

  /** A report of any other state changes nothing. */
  lemma {:induction false} OtherStates(cfg: Config, g: GroupState, k: nat, reason: Reason, env: Env)
    ensures Step(cfg, g, StateChange(k, false, reason), env) == Some(g)
  {
  }

  /** The setup request is accepted: an access point, two interfaces of the group, one peer known by both addresses,
      which is active on the old interface or can be brought there, and an id for the session. */
  predicate RequestAccepted(cfg: Config, g: GroupState, id: nat, info: SetupInfo, env: Env) {
    && RequestUnderstood(cfg, g, info)
    && (id != INVALID_SESSION_ID || env.sessionId.Some?)
    && var p, oldI := g.peers[PeerByAddr(g.peers, info.oldAddr)], FindIface(cfg.ifaces, info.oldIfname).value;
       p.active == Some(oldI) || (env.addLast && exists c | c in p.conns :: c.iface == oldI)
  }

  predicate RequestUnderstood(cfg: Config, g: GroupState, info: SetupInfo) {
    && !cfg.station && FindIface(cfg.ifaces, info.oldIfname).Some? && FindIface(cfg.ifaces, info.newIfname).Some?
    && PeerByAddr(g.peers, info.oldAddr) == PeerByAddr(g.peers, info.newAddr) < |g.peers|
  }

  /** An accepted request leaves the peer active on the interface it names as the old one, with the session it asks
      for: from that one to the one it names as the new one. A request that is not accepted changes no session. */
  lemma {:induction false} SetupRequestBrings(cfg: Config, g: GroupState, id: nat, info: SetupInfo, env: Env)
    requires MapInv(g) && Room(g)
    ensures var r, k := Step(cfg, g, SetupRequest(id, info), env), PeerByAddr(g.peers, info.oldAddr);
      var sid := if id == INVALID_SESSION_ID then env.sessionId else Some(id);
      && r.Some? && MapInv(r.value) && r.value.retries == g.retries && OnlyPeer(g, r.value, k)
      && (RequestAccepted(cfg, g, id, info, env) ==>
            var q := r.value.peers[k];
            && q.conns == g.peers[k].conns && q.session.Some?
            && q.active == FindIface(cfg.ifaces, info.oldIfname) && q.active.value.name == info.oldIfname
            && q.session.value.newIface == FindIface(cfg.ifaces, info.newIfname)
            && q.session.value.newIface.value.name == info.newIfname
            && IsRequested(q.session.value, q.active.value, q.session.value.newIface.value, info.llt, sid.value, env))
      && (!RequestAccepted(cfg, g, id, info, env) ==>
            forall j | 0 <= j < |g.peers| :: r.value.peers[j].session == g.peers[j].session)
      && (!RequestUnderstood(cfg, g, info) ==> r.value == g)
  {
    hide SetupPeer, PeerByAddr, FindIface, Moved, MapInv, ActiveConnected;
    var ev, k := SetupRequest(id, info), PeerByAddr(g.peers, info.oldAddr);
    FindIfaceIs(cfg.ifaces, info.oldIfname);
    FindIfaceIs(cfg.ifaces, info.newIfname);
    if RequestUnderstood(cfg, g, info) {
      StepOfPeer(cfg, g, ev, env, k);
      var oldI, newI := FindIface(cfg.ifaces, info.oldIfname).value, FindIface(cfg.ifaces, info.newIfname).value;
      var sid := if id == INVALID_SESSION_ID then env.sessionId else Some(id);
      SetupRequestIs(g.peers[k], g.mux, oldI, newI, info.llt, sid, env);
      MovedThere(g.peers[k].conns, g.peers[k].active, oldI, env.addLast);
    }
  }

  lemma {:induction false} MovedThere(conns: seq<Conn>, active: Option<Iface>, i: Iface, granted: bool)
    ensures Moved(conns, active, i, granted) == Some(i) <==>
            active == Some(i) || (granted && exists c | c in conns :: c.iface == i)
  {
  }

  /** Two events: an accepted request, and then a report of its switch, granted, leave a peer that is connected there
      active on the interface the request named as the new one. */
  lemma {:induction false} RequestedSwitchHandsOver(cfg: Config, g: GroupState, id: nat, info: SetupInfo, env: Env, env': Env)
    requires MapInv(g) && Room(g) && RequestAccepted(cfg, g, id, info, env) && env'.addLast
    requires var p := g.peers[PeerByAddr(g.peers, info.oldAddr)];
      exists c | c in p.conns :: Some(c.iface) == FindIface(cfg.ifaces, info.newIfname)
    ensures var k := PeerByAddr(g.peers, info.oldAddr); var r := Step(cfg, g, SetupRequest(id, info), env);
      r.Some? && k < |r.value.peers| && var r' := Step(cfg, r.value, StateChange(k, true, Switch), env');
      && r'.Some? && k < |r'.value.peers| && var q := r'.value.peers[k];
         && q.conns == g.peers[k].conns && q.session == None
         && q.active == FindIface(cfg.ifaces, info.newIfname) && q.active.value.name == info.newIfname
         && MapInv(r'.value)
  {
    hide SetupPeer, PeerByAddr, FindIface, MapInv, ActiveConnected, InitialPeer, Step;
    var k, newI := PeerByAddr(g.peers, info.oldAddr), FindIface(cfg.ifaces, info.newIfname);
    SetupRequestBrings(cfg, g, id, info, env);
    FindIfaceIs(cfg.ifaces, info.newIfname);
    var g1 := Step(cfg, g, SetupRequest(id, info), env).value;
    StateChangeBrings(cfg, g1, k, Switch, env');
    MovedThere(g1.peers[k].conns, g1.peers[k].active, newI.value, true);
  }

  // ---------------------------------------------------------------- handovers

  /** The k-th peer is active on `i`, and of its addresses the map has exactly the one there, mapped to that name. */
  ghost predicate HandedOver(g: GroupState, k: nat, i: Iface) {
    && k < |g.peers| && var q := g.peers[k];
       && q.active == Some(i) && AddrOf(q.conns, i).Some?
       && forall a | HasAddr(q, a) :: Lookup(g.mux, a) == if a == AddrOf(q.conns, i).value then Some(i.name) else None
  }

  lemma {:induction false} ActiveIsHandedOver(g: GroupState, k: nat, i: Iface)
    requires MapInv(g) && k < |g.peers| && g.peers[k].active == Some(i)
    ensures HandedOver(g, k, i)
  {
    hide AddrOf, HasAddr, Lookup;
    PeerFacts(g, k);
  }

  /** Station or access point, in any state with its invariants: the report of a switch hands the peer over to the
      session's new interface, if it is connected there and the filter granted. */
  lemma {:induction false} SwitchHandsOver(cfg: Config, g: GroupState, k: nat, env: Env)
    requires MapInv(g) && Room(g) && env.addLast && k < |g.peers|
    requires var p := g.peers[k]; p.session.Some? && p.session.value.newIface.Some? && HasIface(p.conns, p.session.value.newIface.value)
    ensures var r, i := Step(cfg, g, StateChange(k, true, Switch), env), g.peers[k].session.value.newIface.value;
      r.Some? && HandedOver(r.value, k, i) && r.value.peers[k].conns == g.peers[k].conns
  {
    hide Step, MapInv, HandedOver, InitialPeer;
    var i := g.peers[k].session.value.newIface.value;
    StateChangeBrings(cfg, g, k, Switch, env);
    MovedThere(g.peers[k].conns, g.peers[k].active, i, true);
    ActiveIsHandedOver(Step(cfg, g, StateChange(k, true, Switch), env).value, k, i);
  }

  /** The peer known by the address has an established session that leaves from the interface of that name. */
  ghost predicate CanTransfer(cfg: Config, peers: seq<PeerState>, ifname: string, addr: Mac) {
    exists k | 0 <= k < |peers| ::
      && HasAddr(peers[k], addr) && (forall j | 0 <= j < k :: !HasAddr(peers[j], addr))
      && peers[k].session.Some? && var s := peers[k].session.value;
         s.phase == Established && s.oldIface.Some? && s.oldIface == FindIface(cfg.ifaces, ifname)
  }

  lemma {:induction false} CanTransferIff(cfg: Config, g: GroupState, ifname: string, addr: Mac)
    ensures CanTransfer(cfg, g.peers, ifname, addr) <==> TransferApplies(cfg, g, ifname, addr)
  {
    hide HasAddr, FindIface;
    PeerByAddrIs(g.peers, addr, 0);
  }

  /** A transfer on demand that is granted does the same, and the session is in transition; one that does not apply
      changes nothing. */
  lemma {:induction false} TransferBrings(cfg: Config, g: GroupState, ifname: string, addr: Mac, env: Env)
    requires MapInv(g) && Room(g) && All(g.peers, InOrder)
    ensures var r, k := Step(cfg, g, Transfer(ifname, addr), env), PeerByAddr(g.peers, addr);
      if !CanTransfer(cfg, g.peers, ifname, addr) then r == Some(g)
      else
        && k < |g.peers| && g.peers[k].session.Some? && var p := g.peers[k]; var s := p.session.value;
        && r.Some? && OnlyPeer(g, r.value, k) && MapInv(r.value) && s.newIface.Some?
        && (env.transfer ==> r.value.peers[k] == PeerState(Some(s.(phase := InTransition)),
                                                           Moved(p.conns, p.active, s.newIface.value, env.addLast), p.conns))
        && (env.transfer && env.addLast && HasIface(p.conns, s.newIface.value) ==> HandedOver(r.value, k, s.newIface.value))
        && (!env.transfer ==> Attempted(cfg, p.conns, p.active, None, env, r.value.peers[k]))
  {
    hide TransferPeer, PeerByAddr, Moved, MapInv, ActiveConnected, Attempted, HandedOver, HasAddr, CanTransfer;
    var ev, k := Transfer(ifname, addr), PeerByAddr(g.peers, addr);
    CanTransferIff(cfg, g, ifname, addr);
    if TransferApplies(cfg, g, ifname, addr) {
      var p := g.peers[k];
      var s := p.session.value;
      AllAt(g.peers, k, InOrder);
      StepOfPeer(cfg, g, ev, env, k);
      TransferIs(cfg, p, g.mux, env);
      MovedThere(p.conns, p.active, s.newIface.value, env.addLast);
      var r := Step(cfg, g, ev, env);
      if r.Some? && r.value.peers[k].active == s.newIface {
        ActiveIsHandedOver(r.value, k, s.newIface.value);
      }
    }
  }

  /** A known peer disconnects from an interface of the group; the address given only tells which peer it is. */
  lemma {:induction false} DisconnectBrings(cfg: Config, g: GroupState, ifname: string, addr: Mac, env: Env)
    requires MapInv(g) && Room(g) && All(g.peers, InOrder)
    requires FindIface(cfg.ifaces, ifname).Some? && PeerByAddr(g.peers, addr) < |g.peers|
    ensures var r, k, i := Step(cfg, g, Disconnect(ifname, addr), env), PeerByAddr(g.peers, addr), FindIface(cfg.ifaces, ifname).value;
      r.Some? && MapInv(r.value) &&
      if !Switches(g.peers[k], i, env) && Gone(g.peers[k].conns, i, []) then r.value.peers == g.peers[..k] + g.peers[k + 1..]
      else OnlyPeer(g, r.value, k) && Disconnected(cfg, g.peers[k], i, env, r.value.peers[k])
  {
    hide Step, DisconnectPeer, PeerByAddr, FindIface, MapInv, ActiveConnected, Disconnected, Gone, Switches, OnlyPeer;
    var ev, k, i := Disconnect(ifname, addr), PeerByAddr(g.peers, addr), FindIface(cfg.ifaces, ifname).value;
    AllAt(g.peers, k, InOrder);
    StepOfPeer(cfg, g, ev, env, k);
    DisconnectIs(cfg, g.peers[k], g.mux, i, env);
    StepIs(cfg, g, ev, env);
  }

  lemma {:induction false} GoneOnce(conns: seq<Conn>, i: Iface, conns': seq<Conn>)
    requires Gone(conns, i, conns')
    ensures Gone(conns, i, []) <==> conns' == []
  {
    if exists c | c in conns :: c.iface == i {
      var n :| 0 <= n < |conns| && conns[n].iface == i && (forall m | 0 <= m < n :: conns[m].iface != i)
               && conns' == conns[..n] + conns[n + 1..];
    }
  }

  /** A known peer connects on one more interface of the group. */
  lemma {:induction false} ConnectBrings(cfg: Config, g: GroupState, ifname: string, addr: Mac, env: Env, k: nat)
    requires cfg.station && MapInv(g) && Room(g) && All(g.peers, InOrder) && Joins(cfg, g, Connect(ifname, addr), env, k)
    ensures var r, i := Step(cfg, g, Connect(ifname, addr), env), FindIface(cfg.ifaces, ifname).value; var p := g.peers[k];
      var conns, s := p.conns + [Conn(i, addr)], Reset(p, i);
      r.Some? ==>
        OnlyPeer(g, r.value, k) && var q := r.value.peers[k];
        if InProgress(p) && !Outranked(p, i) then q == PeerState(p.session, p.active, conns)
        else if p.active.Some? && (s.Some? || env.sessionId.Some?) && OneSided(cfg, conns, env)
        then MovedUp(conns, p.active.value, s, env, q)
        else Attempted(cfg, conns, p.active, s, env, q)
  {
    hide ConnectPeer, PeerByOtherAddr, ScanOverread, IsConnected, MapInv, ActiveConnected, Attempted, MovedUp, OneSided, Outranked, Reset,
         AddMap, InProgress;
    var ev, i := Connect(ifname, addr), FindIface(cfg.ifaces, ifname).value;
    AllAt(g.peers, k, InOrder);
    StepOfPeer(cfg, g, ev, env, k);
    LinkedPeer(g.peers, i, addr, env, 0);
    ConnectIs(cfg, g.peers[k], g.mux, i, addr, env);
  }

  lemma {:induction false} ConnectToAccessPointBrings(cfg: Config, g: GroupState, ifname: string, addr: Mac, env: Env, k: nat)
    requires !cfg.station && MapInv(g) && Room(g) && All(g.peers, ApInv) && Joins(cfg, g, Connect(ifname, addr), env, k)
    ensures var r, i := Step(cfg, g, Connect(ifname, addr), env), FindIface(cfg.ifaces, ifname).value; var p := g.peers[k];
      r.Some? ==> OnlyPeer(g, r.value, k) && r.value.peers[k] == PeerState(Reset(p, i), p.active, p.conns + [Conn(i, addr)])
                  && r.value.mux == g.mux
  {
    hide ConnectPeer, PeerByOtherAddr, ScanOverread, IsConnected, MapInv, ActiveConnected, Reset, AddMap;
    var ev, i := Connect(ifname, addr), FindIface(cfg.ifaces, ifname).value;
    AllAt(g.peers, k, ApInv);
    StepOfPeer(cfg, g, ev, env, k);
    ConnectToAccessPointIs(cfg, g.peers[k], g.mux, i, addr, env);
  }

  /** The session of the k-th peer, if there is one, is established. */
  lemma {:induction false} EstablishBrings(cfg: Config, g: GroupState, k: nat, env: Env)
    ensures var r := Step(cfg, g, Establish(k), env);
      && r.Some? && r.value.mux == g.mux && r.value.retries == g.retries && OnlyPeer(g, r.value, k)
      && (k < |g.peers| ==>
            var p, q := g.peers[k], r.value.peers[k];
            && q.conns == p.conns && q.active == p.active
            && q.session == if p.session.None? then None else Some(p.session.value.(phase := Established)))
  {
  }

  /** Over every run: a session in progress says where it goes. */
  lemma {:induction false} OrderOverRuns(cfg: Config, inputs: seq<Input>, states: seq<GroupState>, n: nat)
    requires Run(cfg, inputs, states) && n < |states|
    requires forall j | 0 <= j < n :: Orderly(states[j], inputs[j].0)
    ensures All(states[n].peers, InOrder)
  {
    hide Step, Orderly, SessionInv, ApInv, InOrder;
    if cfg.station {
      SessionsOverRuns(cfg, inputs, states, n);
    } else {
      ApOverRuns(cfg, inputs, states, n);
    }
    forall p | p in states[n].peers ensures InOrder(p) {
      InvariantsOrder(p);
    }
  }

  /** Station, after every run, whichever calls failed in it: every session in progress can be switched, on a report or
      on demand, and hands its peer over to its new interface if the filter is granted. */
  lemma {:induction false} HandoversOverRuns(cfg: Config, inputs: seq<Input>, states: seq<GroupState>, n: nat, k: nat, env: Env)
    requires cfg.station && Run(cfg, inputs, states) && n < |states| && k < |states[n].peers| && InProgress(states[n].peers[k])
    requires forall j | 0 <= j < n :: OneOwner(cfg, states[j], inputs[j].0, inputs[j].1) && Orderly(states[j], inputs[j].0)
    requires env.addLast && Room(states[n])
    ensures var s := states[n].peers[k].session.value; var r := Step(cfg, states[n], StateChange(k, true, Switch), env);
      s.newIface.Some? && s.newIface != s.oldIface && r.Some? && HandedOver(r.value, k, s.newIface.value)
  {
    hide Step, OneOwner, Orderly, HandedOver, MapInv;
    RunKeepsMap(cfg, inputs, states, n);
    SessionsOverRuns(cfg, inputs, states, n);
    AllAt(states[n].peers, k, SessionInv);
    SwitchHandsOver(cfg, states[n], k, env);
  }

  /** And the link of an established session is lost: the same, if the transfer is granted, too. */
  lemma {:induction false} LostLinksOverRuns(cfg: Config, inputs: seq<Input>, states: seq<GroupState>, n: nat, ifname: string, addr: Mac, env: Env)
    requires cfg.station && Run(cfg, inputs, states) && n < |states|
    requires forall j | 0 <= j < n :: OneOwner(cfg, states[j], inputs[j].0, inputs[j].1) && Orderly(states[j], inputs[j].0)
    requires env.addLast && env.transfer && Room(states[n])
    requires FindIface(cfg.ifaces, ifname).Some? && PeerByAddr(states[n].peers, addr) < |states[n].peers|
    requires var p := states[n].peers[PeerByAddr(states[n].peers, addr)];
      p.session.Some? && p.session.value.phase == Established && p.session.value.oldIface == FindIface(cfg.ifaces, ifname)
    ensures var k := PeerByAddr(states[n].peers, addr); var s := states[n].peers[k].session.value;
      var r := Step(cfg, states[n], Disconnect(ifname, addr), env);
      && s.newIface.Some? && s.newIface != s.oldIface && r.Some? && HandedOver(r.value, k, s.newIface.value)
      && r.value.peers[k].session == Some(s.(phase := InTransition))
  {
    hide Step, OneOwner, Orderly, HandedOver, MapInv, PeerByAddr, FindIface, Gone;
    var k, i := PeerByAddr(states[n].peers, addr), FindIface(cfg.ifaces, ifname).value;
    var p := states[n].peers[k];
    var j := p.session.value.newIface;
    RunKeepsMap(cfg, inputs, states, n);
    SessionsOverRuns(cfg, inputs, states, n);
    OrderOverRuns(cfg, inputs, states, n);
    AllAt(states[n].peers, k, SessionInv);
    DisconnectBrings(cfg, states[n], ifname, addr, env);
    var r := Step(cfg, states[n], Disconnect(ifname, addr), env);
    OthersStay(p.conns, i, r.value.peers[k].conns, j.value);
    ActiveIsHandedOver(r.value, k, j.value);
  }

  lemma {:induction false} OthersStay(conns: seq<Conn>, i: Iface, conns': seq<Conn>, j: Iface)
    requires Gone(conns, i, conns') && i != j && HasIface(conns, j)
    ensures HasIface(conns', j)
  {
    var c :| c in conns && c.iface == j;
    var m :| 0 <= m < |conns| && conns[m] == c;
    if exists c | c in conns :: c.iface == i {
      var n :| 0 <= n < |conns| && conns[n].iface == i && (forall m | 0 <= m < n :: conns[m].iface != i)
               && conns' == conns[..n] + conns[n + 1..];
      assert conns'[if m < n then m else m - 1] == c;
    }
  }
}

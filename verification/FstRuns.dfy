/** What holds over every run of the manager's events, proved on the functions of FstSession. */
module FstRuns {
  import opened FstTypes
  import opened FstSession

  function Lookup(mux: map<Mac, string>, a: Mac): Option<string> {
    if a in mux then Some(mux[a]) else None
  }

  // ---------------------------------------------------------------- lookups in a connection list

  predicate HasIface(conns: seq<Conn>, i: Iface) {
    exists c | c in conns :: c.iface == i
  }

  lemma {:induction false} AddrOfFound(conns: seq<Conn>, i: Iface)
    ensures AddrOf(conns, i).Some? <==> HasIface(conns, i)
    ensures AddrOf(conns, i).Some? ==> Conn(i, AddrOf(conns, i).value) in conns
  {
    if conns != [] && conns[0].iface != i {
      AddrOfFound(conns[1..], i);
      assert conns == [conns[0]] + conns[1..];
    }
  }

  lemma {:induction false} AddrOfAppend(conns: seq<Conn>, c: Conn, i: Iface)
    ensures AddrOf(conns + [c], i) ==
            if AddrOf(conns, i).Some? then AddrOf(conns, i) else if c.iface == i then Some(c.addr) else None
  {
    if conns != [] {
      assert (conns + [c])[1..] == conns[1..] + [c];
      AddrOfAppend(conns[1..], c, i);
    }
  }

  /** The address of an interface is that of the first connection on it. */
  lemma {:induction false} AddrOfIs(conns: seq<Conn>, i: Iface)
    ensures AddrOf(conns, i).Some? ==>
      exists n | 0 <= n < |conns| :: conns[n] == Conn(i, AddrOf(conns, i).value) && forall m | 0 <= m < n :: conns[m].iface != i
  {
    if AddrOf(conns, i).Some? && conns[0].iface != i {
      AddrOfIs(conns[1..], i);
      var n :| 0 <= n < |conns[1..]| && conns[1..][n] == Conn(i, AddrOf(conns[1..], i).value)
               && forall m | 0 <= m < n :: conns[1..][m].iface != i;
      assert conns[n + 1] == Conn(i, AddrOf(conns, i).value);
      assert forall m | 1 <= m < n + 1 :: conns[m] == conns[1..][m - 1];
    }
  }

  /** Deleting a connection keeps the first address of every other interface and invents no connection. */
  lemma {:induction false} AddrOfDelConn(conns: seq<Conn>, i: Iface, j: Iface)
    ensures i != j ==> AddrOf(DelConn(conns, i), j) == AddrOf(conns, j)
    ensures forall c | c in DelConn(conns, i) :: c in conns
    ensures forall c | c in conns && c.iface != i :: c in DelConn(conns, i)
  {
    if conns != [] {
      assert conns == [conns[0]] + conns[1..];
      if conns[0].iface != i {
        AddrOfDelConn(conns[1..], i, j);
        assert DelConn(conns, i)[1..] == DelConn(conns[1..], i);
      }
    }
  }

  lemma {:induction false} DelConnAt(conns: seq<Conn>, i: Iface, k: nat)
    requires k <= |conns| && forall j | 0 <= j < k :: conns[j].iface != i
    requires k < |conns| ==> conns[k].iface == i
    ensures DelConn(conns, i) == if k < |conns| then conns[..k] + conns[k + 1..] else conns
  {
    if k > 0 {
      DelConnAt(conns[1..], i, k - 1);
      assert conns == [conns[0]] + conns[1..];
    }
  }

  /** The maximum search: its result is connected, not active, and no other such interface outranks it. */
  lemma {:induction false} NextIfaceIsMaximal(conns: seq<Conn>, active: Option<Iface>)
    ensures var r := NextIface(conns, active);
      && (r.None? <==> forall c | c in conns :: Some(c.iface) == active)
      && (r.Some? ==> HasIface(conns, r.value) && r != active &&
                      forall c | c in conns && Some(c.iface) != active :: c.iface.priority <= r.value.priority)
  {
    if conns != [] {
      var n := |conns| - 1;
      assert conns == conns[..n] + [conns[n]];
      NextIfaceIsMaximal(conns[..n], active);
      var best := NextIface(conns[..n], active);
      if best.Some? {
        var c :| c in conns[..n] && c.iface == best.value;
        assert c in conns;
      }
    }
  }

  // ---------------------------------------------------------------- a peer and the multiplexer

  /** An active interface is one the peer is connected on. */
  predicate ActiveConnected(p: PeerState) {
    p.active.Some? ==> AddrOf(p.conns, p.active.value).Some?
  }

  /** The address a peer is reached at. */
  function ActiveAddr(p: PeerState): Option<Mac> {
    if p.active.Some? then AddrOf(p.conns, p.active.value) else None
  }

  /** Of the addresses of `p`, the map has exactly the active one, and maps it to the active interface. */
  ghost predicate PeerAgrees(p: PeerState, mux: map<Mac, string>) {
    forall a | HasAddr(p, a) ::
      Lookup(mux, a) == if ActiveAddr(p) == Some(a) then Some(p.active.value.name) else None
  }

  /** A step of one peer leaves the map alone outside the peer's addresses, and agrees on them. */
  ghost predicate Local(p: PeerState, mux: map<Mac, string>, p': PeerState, mux': map<Mac, string>) {
    && ActiveConnected(p') && PeerAgrees(p', mux')
    && (forall a | !HasAddr(p, a) && !HasAddr(p', a) :: Lookup(mux', a) == Lookup(mux, a))
    && (forall a | HasAddr(p, a) && !HasAddr(p', a) :: a !in mux')
  }

  lemma {:induction false} ActiveAddrHeld(p: PeerState)
    requires ActiveConnected(p)
    ensures ActiveAddr(p).Some? <==> p.active.Some?
    ensures ActiveAddr(p).Some? ==> HasAddr(p, ActiveAddr(p).value)
  {
    if p.active.Some? {
      AddrOfFound(p.conns, p.active.value);
    }
  }

  lemma {:induction false} Shrink(mux: map<Mac, string>, a: Mac)
    ensures |mux - {a}| <= |mux|
  {
    SubsetSize((mux - {a}).Keys, mux.Keys);
  }

  lemma {:induction false} DeactivateLocal(p: PeerState, mux: map<Mac, string>)
    requires ActiveConnected(p) && PeerAgrees(p, mux)
    ensures var (p', mux') := Deactivate(p, mux);
      Local(p, mux, p', mux') && p' == p.(active := None) && |mux'| <= |mux|
  {
    ActiveAddrHeld(p);
    var (p', mux') := Deactivate(p, mux);
    assert forall a :: HasAddr(p', a) <==> HasAddr(p, a);
    if p.active.Some? {
      Shrink(mux, ActiveAddr(p).value);
    }
  }

  lemma {:induction false} AddMapLookup(mux: map<Mac, string>, b: Mac, name: string, granted: bool)
    ensures var (mux', ok) := AddMap(mux, b, name, granted);
      && (forall a :: Lookup(mux', a) == if a == b then (if ok then Some(name) else None) else Lookup(mux, a))
      && (granted && |mux| < MAX_FILTERS ==> ok)
  {
    Shrink(mux, b);
  }

  lemma {:induction false} AddLocal(p: PeerState, mux: map<Mac, string>, i: Iface, b: Mac, granted: bool)
    requires p.active.None? && PeerAgrees(p, mux) && AddrOf(p.conns, i) == Some(b)
    ensures var (mux', ok) := AddMap(mux, b, i.name, granted);
      && Local(p, mux, if ok then p.(active := Some(i)) else p, mux')
      && (granted && |mux| < MAX_FILTERS ==> ok)
  {
    hide AddMap, Lookup, AddrOf;
    AddMapLookup(mux, b, i.name, granted);
    AddrOfFound(p.conns, i);
    assert HasAddr(p, b);
  }

  lemma {:induction false} SetActiveLocal(p: PeerState, mux: map<Mac, string>, i: Option<Iface>, granted: bool)
    requires ActiveConnected(p) && PeerAgrees(p, mux)
    ensures var (p', mux', ok) := SetActive(p, mux, i, granted);
      && Local(p, mux, p', mux')
      && (p' == p.(active := None) || p' == p.(active := i))
      && (i.None? ==> p'.active == None)
      && (i.Some? ==> (ok <==> p'.active == i))
      && (ok && i.Some? ==> HasIface(p.conns, i.value))
      && (i.Some? && HasIface(p.conns, i.value) && granted && |mux| < MAX_FILTERS ==> ok)
  {
    if i.Some? && p.active == i {
      AddrOfFound(p.conns, i.value);
      assert p == p.(active := i);
    } else {
      DeactivateLocal(p, mux);
      if i.Some? {
        AddrOfFound(p.conns, i.value);
        if HasIface(p.conns, i.value) {
          var (p1, mux1) := Deactivate(p, mux);
          AddLocal(p1, mux1, i.value, AddrOf(p.conns, i.value).value, granted);
          assert forall a :: HasAddr(p1, a) <==> HasAddr(p, a);
        }
      }
    }
  }

  lemma {:induction false} LocalTrans(p: PeerState, m: map<Mac, string>, p1: PeerState, m1: map<Mac, string>,
                                      p2: PeerState, m2: map<Mac, string>)
    requires Local(p, m, p1, m1) && Local(p1, m1, p2, m2)
    requires forall a | HasAddr(p1, a) :: HasAddr(p, a) || HasAddr(p2, a)
    ensures Local(p, m, p2, m2)
  {
    hide PeerAgrees, ActiveConnected, HasAddr;
  }

  /** Neither agreement nor locality looks at the session. */
  lemma {:induction false} SessionIrrelevant(p: PeerState, mux: map<Mac, string>, q: PeerState)
    requires q.conns == p.conns && q.active == p.active && ActiveConnected(p) && PeerAgrees(p, mux)
    ensures Local(p, mux, q, mux)
  {
    assert forall a :: HasAddr(q, a) <==> HasAddr(p, a);
  }

  lemma {:induction false} SameAddrs(p: PeerState, q: PeerState)
    requires q.conns == p.conns
    ensures forall a :: HasAddr(q, a) <==> HasAddr(p, a)
  {
  }

  lemma {:induction false} AppendLocal(p: PeerState, mux: map<Mac, string>, i: Iface, a: Mac)
    requires ActiveConnected(p) && PeerAgrees(p, mux)
    requires !HasAddr(p, a) ==> a !in mux
    ensures var q := p.(conns := p.conns + [Conn(i, a)]);
      Local(p, mux, q, mux) && forall x :: HasAddr(q, x) <==> HasAddr(p, x) || x == a
  {
    var q := p.(conns := p.conns + [Conn(i, a)]);
    assert q.conns[|p.conns|] == Conn(i, a);
    assert forall c :: c in q.conns <==> c in p.conns || c == Conn(i, a);
    assert forall x :: HasAddr(q, x) <==> HasAddr(p, x) || x == a;
    if p.active.Some? {
      AddrOfAppend(p.conns, Conn(i, a), p.active.value);
    }
    ActiveAddrHeld(p);
    assert ActiveAddr(q) == ActiveAddr(p);
  }

  lemma {:induction false} DelConnLocal(p: PeerState, mux: map<Mac, string>, i: Iface)
    requires ActiveConnected(p) && PeerAgrees(p, mux) && p.active != Some(i)
    ensures var q := p.(conns := DelConn(p.conns, i));
      Local(p, mux, q, mux) && forall x | HasAddr(q, x) :: HasAddr(p, x)
  {
    var q := p.(conns := DelConn(p.conns, i));
    if p.active.Some? {
      AddrOfDelConn(p.conns, i, p.active.value);
    } else {
      AddrOfDelConn(p.conns, i, i);
    }
    assert ActiveAddr(q) == ActiveAddr(p);
    ActiveAddrHeld(q);
  }

  /** The setup attempt touches the session only. */
  lemma {:induction false} TryNextSteersNothing(cfg: Config, p: PeerState, env: Env)
    ensures TryNext(cfg, p, env).conns == p.conns && TryNext(cfg, p, env).active == p.active
  {
  }

  lemma {:induction false} NcTransferLocal(p: PeerState, mux: map<Mac, string>, granted: bool)
    requires p.session.Some? && ActiveConnected(p) && PeerAgrees(p, mux)
    ensures var (q, mux') := NcTransfer(p, mux, granted); Local(p, mux, q, mux') && q.conns == p.conns
  {
    hide Local, PeerAgrees, SetActive;
    SetActiveLocal(p, mux, p.session.value.newIface, granted);
    var (p1, mux1, _) := SetActive(p, mux, p.session.value.newIface, granted);
    var (q, mux') := NcTransfer(p, mux, granted);
    LocalAgrees(p, mux, p1, mux1);
    SessionIrrelevant(p1, mux1, q);
    SameAddrs(p, p1);
    LocalTrans(p, mux, p1, mux1, q, mux');
  }

  lemma {:induction false} LocalAgrees(p: PeerState, m: map<Mac, string>, q: PeerState, m': map<Mac, string>)
    requires Local(p, m, q, m')
    ensures ActiveConnected(q) && PeerAgrees(q, m')
  {
  }

  lemma {:induction false} ConnectLocal(cfg: Config, p: PeerState, mux: map<Mac, string>, i: Iface, a: Mac, env: Env)
    requires ActiveConnected(p) && PeerAgrees(p, mux)
    requires !HasAddr(p, a) ==> a !in mux
    ensures var o := ConnectPeer(cfg, p, mux, i, a, env);
      o.Done? ==> Local(p, mux, o.peer, o.mux) && o.peer.conns == p.conns + [Conn(i, a)]
  {
    hide Local, PeerAgrees, TryNext, NcTransfer, HasAddr, ActiveConnected;
    var p0 := p.(conns := p.conns + [Conn(i, a)]);
    var p1 := if p0.session.Some? && p0.session.value.newIface.Some?
                 && i.priority > p0.session.value.newIface.value.priority
              then p0.(session := Some(p0.session.value.(phase := Idle))) else p0;
    var p2 := TryNext(cfg, p1, env);
    var o := ConnectPeer(cfg, p, mux, i, a, env);
    AppendLocal(p, mux, i, a);
    LocalAgrees(p, mux, p0, mux);
    TryNextSteersNothing(cfg, p1, env);
    SessionIrrelevant(p0, mux, p2);
    SameAddrs(p0, p2);
    LocalTrans(p, mux, p0, mux, p2, mux);
    if o.Done? && o != Done(p2, mux) {
      LocalAgrees(p, mux, p2, mux);
      NcTransferLocal(p2, mux, env.addLast);
      SameAddrs(p2, o.peer);
      LocalTrans(p, mux, p2, mux, o.peer, o.mux);
    }
  }

  lemma {:induction false} LeaveLocal(p: PeerState, mux: map<Mac, string>, i: Iface, env: Env)
    requires ActiveConnected(p) && PeerAgrees(p, mux)
    ensures var o := LeaveSession(p, mux, i, env).0;
      o.Done? ==> Local(p, mux, o.peer, o.mux) && o.peer.conns == p.conns
  {
    hide Local, PeerAgrees, NcTransfer, ActiveConnected;
    var o := LeaveSession(p, mux, i, env).0;
    if o.Done? {
      if p.session.Some? && NcTransfer(p, mux, env.addFirst) == (o.peer, o.mux) {
        NcTransferLocal(p, mux, env.addFirst);
      } else {
        SessionIrrelevant(p, mux, o.peer);
      }
    }
  }

  lemma {:induction false} SetActiveMoves(p: PeerState, m: map<Mac, string>, q: PeerState, m': map<Mac, string>,
                                          i: Option<Iface>, granted: bool)
    requires Local(p, m, q, m') && forall a | HasAddr(q, a) :: HasAddr(p, a)
    ensures var (r, m'', _) := SetActive(q, m', i, granted);
      Local(p, m, r, m'') && r.conns == q.conns && r.session == q.session && (i.None? ==> r.active.None?)
  {
    hide Local, PeerAgrees, SetActive, HasAddr, ActiveConnected;
    LocalAgrees(p, m, q, m');
    SetActiveLocal(q, m', i, granted);
    var (r, m'', _) := SetActive(q, m', i, granted);
    SameAddrs(q, r);
    LocalTrans(p, m, q, m', r, m'');
  }

  lemma {:induction false} DisconnectLocal(cfg: Config, p: PeerState, mux: map<Mac, string>, i: Iface, env: Env)
    requires ActiveConnected(p) && PeerAgrees(p, mux)
    ensures var (o, drop) := DisconnectPeer(cfg, p, mux, i, env);
      && (o.Done? ==> Local(p, mux, o.peer, o.mux) && o.peer.conns == DelConn(p.conns, i))
      && (drop ==> o.Done? && o.peer.conns == [])
  {
    hide Local, PeerAgrees, ActiveConnected, HasAddr, SetActive, LeaveSession, TryNext, DelConn, NextIface;
    var (left, switching) := LeaveSession(p, mux, i, env);
    LeaveLocal(p, mux, i, env);
    if left.Done? {
      var forced := left.peer.active == Some(i);
      SameAddrs(p, left.peer);
      SetActiveMoves(p, mux, left.peer, left.mux, None, true);
      var (p1, mux1, _) := if forced then SetActive(left.peer, left.mux, None, true) else (left.peer, left.mux, true);
      LocalAgrees(p, mux, p1, mux1);
      var p2 := p1.(conns := DelConn(p1.conns, i));
      DelConnLocal(p1, mux1, i);
      SameAddrs(p, p1);
      LocalTrans(p, mux, p1, mux1, p2, mux1);
      if switching {
        LeaveKeepsSession(p, mux, i, env);
        SetActiveMoves(p, mux, p2, mux1, p2.session.value.newIface, env.addLast);
      } else if p2.conns != [] {
        SetActiveMoves(p, mux, p2, mux1, NextIface(p2.conns, p2.active), env.addLast);
        var (p3, mux3, _) := if forced then SetActive(p2, mux1, NextIface(p2.conns, p2.active), env.addLast)
                             else (p2, mux1, true);
        TryNextSteersNothing(cfg, p3, env);
        SameAddrs(p2, p3);
        SessionMoves(p, mux, p3, mux3, TryNext(cfg, p3, env));
      }
    }
  }

  lemma {:induction false} SessionMoves(p: PeerState, m: map<Mac, string>, q: PeerState, m': map<Mac, string>,
                                        r: PeerState)
    requires Local(p, m, q, m') && r.conns == q.conns && r.active == q.active
    requires forall a | HasAddr(q, a) :: HasAddr(p, a)
    ensures Local(p, m, r, m')
  {
    hide Local, PeerAgrees, ActiveConnected, HasAddr;
    LocalAgrees(p, m, q, m');
    SessionIrrelevant(q, m', r);
    LocalTrans(p, m, q, m', r, m');
  }

  lemma {:induction false} LeaveKeepsSession(p: PeerState, mux: map<Mac, string>, i: Iface, env: Env)
    requires LeaveSession(p, mux, i, env).0.Done?
    ensures LeaveSession(p, mux, i, env).1 ==> LeaveSession(p, mux, i, env).0.peer.session.Some?
  {
  }

  lemma {:induction false} InitialLocal(cfg: Config, p: PeerState, mux: map<Mac, string>, reason: Reason, again: bool, env: Env)
    requires p.session.Some? && ActiveConnected(p) && PeerAgrees(p, mux)
    ensures var o := InitialPeer(cfg, p, mux, reason, again, env);
      o.Done? ==> Local(p, mux, o.peer, o.mux) && o.peer.conns == p.conns
  {
    hide Local, PeerAgrees, ActiveConnected, HasAddr, SetActive, TryNext;
    var s := p.session.value;
    var (p1, mux1, _) := if reason == Switch then SetActive(p, mux, s.newIface, env.addLast) else (p, mux, true);
    SessionIrrelevant(p, mux, p);
    SetActiveMoves(p, mux, p, mux, s.newIface, env.addLast);
    TryNextSteersNothing(cfg, p1.(session := None), env);
    var o := InitialPeer(cfg, p, mux, reason, again, env);
    if o.Done? {
      SameAddrs(p, p1);
      SessionMoves(p, mux, p1, mux1, o.peer);
    }
  }

  lemma {:induction false} TransferLocal(cfg: Config, p: PeerState, mux: map<Mac, string>, env: Env)
    requires p.session.Some? && ActiveConnected(p) && PeerAgrees(p, mux)
    ensures var o := TransferPeer(cfg, p, mux, env);
      o.Done? && Local(p, mux, o.peer, o.mux) && o.peer.conns == p.conns
  {
    hide Local, PeerAgrees, ActiveConnected, HasAddr, SetActive, TryNext;
    var s := p.session.value;
    var p0 := p.(session := Some(s.(phase := InTransition)));
    SessionIrrelevant(p, mux, p0);
    SessionIrrelevant(p, mux, p.(session := None));
    SameAddrs(p, p0);
    SetActiveMoves(p, mux, p0, mux, s.newIface, env.addLast);
    var (p1, mux1, _) := if env.transfer then SetActive(p0, mux, s.newIface, env.addLast)
                         else (p.(session := None), mux, true);
    SameAddrs(p, p1);
    TryNextSteersNothing(cfg, p1, env);
    SessionMoves(p, mux, p1, mux1, TryNext(cfg, p1, env));
  }

  lemma {:induction false} SetupLocal(p: PeerState, mux: map<Mac, string>, oldI: Iface, newI: Iface, llt: nat,
                                      id: Option<nat>, env: Env)
    requires ActiveConnected(p) && PeerAgrees(p, mux)
    ensures var o := SetupPeer(p, mux, oldI, newI, llt, id, env);
      o.Done? && Local(p, mux, o.peer, o.mux) && o.peer.conns == p.conns
  {
    hide Local, PeerAgrees, ActiveConnected, HasAddr, SetActive;
    SessionIrrelevant(p, mux, p);
    SetActiveMoves(p, mux, p, mux, Some(oldI), env.addLast);
    var (p1, mux1, ok) := if p.active != Some(oldI) then SetActive(p, mux, Some(oldI), env.addLast) else (p, mux, true);
    SameAddrs(p, p1);
    SessionMoves(p, mux, p1, mux1, SetupPeer(p, mux, oldI, newI, llt, id, env).peer);
  }

  // ---------------------------------------------------------------- the group

  /** Each MAC address belongs to one peer. */
  ghost predicate Disjoint(peers: seq<PeerState>) {
    forall j, k, a | 0 <= j < |peers| && 0 <= k < |peers| && HasAddr(peers[j], a) && HasAddr(peers[k], a) :: j == k
  }

  ghost predicate Known(peers: seq<PeerState>, a: Mac) {
    exists p | p in peers :: HasAddr(p, a)
  }

  /** The invariant of the map: it is right on each peer's addresses and has no others. */
  ghost predicate MapInv(g: GroupState) {
    && Disjoint(g.peers)
    && (forall p | p in g.peers :: ActiveConnected(p) && PeerAgrees(p, g.mux))
    && (forall a | a in g.mux :: Known(g.peers, a))
  }

  /** A local step of the k-th peer, whose new addresses are nobody else's, keeps the invariant. */
  lemma {:induction false} ReplaceKeepsMap(g: GroupState, k: nat, q: PeerState, mux: map<Mac, string>)
    requires MapInv(g) && k < |g.peers| && Local(g.peers[k], g.mux, q, mux)
    requires forall j, a | 0 <= j < |g.peers| && j != k && HasAddr(q, a) :: !HasAddr(g.peers[j], a)
    ensures MapInv(g.(peers := g.peers[k := q], mux := mux))
  {
    hide HasAddr, ActiveAddr, ActiveConnected;
    var p, g' := g.peers[k], g.(peers := g.peers[k := q], mux := mux);
    forall r | r in g'.peers ensures ActiveConnected(r) && PeerAgrees(r, mux) {
      var j :| 0 <= j < |g'.peers| && g'.peers[j] == r;
      if j != k {
        assert r == g.peers[j] && r in g.peers;
        assert forall a | HasAddr(r, a) :: !HasAddr(p, a) && !HasAddr(q, a);
      }
    }
    forall a | a in mux ensures Known(g'.peers, a) {
      if HasAddr(q, a) {
        assert g'.peers[k] == q;
      } else {
        assert !HasAddr(p, a) && Lookup(g.mux, a) == Lookup(mux, a);
        var r :| r in g.peers && HasAddr(r, a);
        var j :| 0 <= j < |g.peers| && g.peers[j] == r;
        assert g'.peers[j] == r;
      }
    }
  }

  lemma {:induction false} AppendKeepsMap(g: GroupState, q: PeerState, mux: map<Mac, string>)
    requires MapInv(g) && ActiveConnected(q) && PeerAgrees(q, mux)
    requires forall a | HasAddr(q, a) :: !Known(g.peers, a)
    requires forall a | !HasAddr(q, a) :: Lookup(mux, a) == Lookup(g.mux, a)
    ensures MapInv(g.(peers := g.peers + [q], mux := mux))
  {
    hide HasAddr, ActiveAddr, ActiveConnected;
    var g' := g.(peers := g.peers + [q], mux := mux);
    assert forall j | 0 <= j < |g.peers| :: g.peers[j] in g.peers;
    forall r | r in g.peers ensures PeerAgrees(r, mux) {
      assert forall a | HasAddr(r, a) :: !HasAddr(q, a);
    }
    forall a | a in mux ensures Known(g'.peers, a) {
      if HasAddr(q, a) {
        assert g'.peers[|g.peers|] == q;
      } else {
        assert Lookup(g.mux, a) == Lookup(mux, a);
        var r :| r in g.peers && HasAddr(r, a);
        assert r in g'.peers;
      }
    }
  }

  lemma {:induction false} NoAddrs(q: PeerState)
    requires q.conns == []
    ensures forall a :: !HasAddr(q, a)
  {
  }

  lemma {:induction false} SameLookup(m: map<Mac, string>, m': map<Mac, string>)
    ensures forall a | Lookup(m, a) == Lookup(m', a) :: a in m <==> a in m'
  {
  }

  /** Dropping a peer none of whose addresses is mapped. */
  lemma {:induction false} RemoveKeepsMap(g: GroupState, k: nat, q: PeerState, mux: map<Mac, string>)
    requires MapInv(g) && k < |g.peers| && Local(g.peers[k], g.mux, q, mux) && q.conns == []
    ensures MapInv(g.(peers := g.peers[..k] + g.peers[k + 1..], mux := mux))
  {
    hide HasAddr, ActiveAddr, ActiveConnected, Lookup;
    var p, rest := g.peers[k], g.peers[..k] + g.peers[k + 1..];
    NoAddrs(q);
    SameLookup(g.mux, mux);
    RemoveIndex(g.peers, k);
    forall r | r in rest ensures r in g.peers && PeerAgrees(r, mux) {
      assert forall a | HasAddr(r, a) :: !HasAddr(p, a);
    }
    forall a | a in mux ensures Known(rest, a) {
      assert !HasAddr(p, a) && Lookup(g.mux, a) == Lookup(mux, a);
      var r :| r in g.peers && HasAddr(r, a);
      assert r in rest;
    }
  }

  /** The rest of a list, by the positions its members had. */
  lemma {:induction false} RemoveIndex<T>(s: seq<T>, k: nat)
    requires k < |s|
    ensures var rest := s[..k] + s[k + 1..];
      && (forall j | 0 <= j < |rest| :: rest[j] == s[if j < k then j else j + 1])
      && (forall x | x in rest :: exists j :: 0 <= j < |s| && j != k && s[j] == x)
      && (forall x | x in s && x != s[k] :: x in rest)
  {
    var rest := s[..k] + s[k + 1..];
    forall x | x in s && x != s[k] ensures x in rest {
      var j :| 0 <= j < |s| && s[j] == x;
      assert rest[if j < k then j else j - 1] == x;
    }
    forall x | x in rest ensures exists j :: 0 <= j < |s| && j != k && s[j] == x {
      var j :| 0 <= j < |rest| && rest[j] == x;
      assert s[if j < k then j else j + 1] == x;
    }
  }

  // ---------------------------------------------------------------- the multiplexer over every run

  /** A connection the handler does not ignore: on an interface of the group, not known yet, with a second interface
      to go to, and not vetoed. */
  predicate Heard(cfg: Config, g: GroupState, ev: Event, env: Env) {
    && ev.Connect? && FindIface(cfg.ifaces, ev.ifname).Some?
    && !IsConnected(g.peers, ev.ifname, ev.addr) && |cfg.ifaces| >= 2 && env.cfgConnect
  }

  /** Nobody but the k-th peer has `a`. */
  predicate OwnedBy(peers: seq<PeerState>, a: Mac, k: nat) {
    forall j | 0 <= j < |peers| && HasAddr(peers[j], a) :: j == k
  }

  /** Each MAC address belongs to one peer: a peer that already has the address of a new connection is the one
      the elements lead to. A new peer whose entry the map took gets a session; one whose entry it did not take
      displaces nobody's. */
  predicate OneOwner(cfg: Config, g: GroupState, ev: Event, env: Env) {
    Heard(cfg, g, ev, env) ==>
      var i := FindIface(cfg.ifaces, ev.ifname).value;
      var k := PeerByOtherAddr(g.peers, i, ev.addr, env);
      if k < |g.peers| then OwnedBy(g.peers, ev.addr, k)
      else if AddMap(g.mux, ev.addr, i.name, env.addLast).1 then env.sessionId.Some? && OwnedBy(g.peers, ev.addr, k)
      else ev.addr !in g.mux
  }

  /** The search by address finds the first peer from `k` on that has it, or nobody does. */
  lemma {:induction false} PeerByAddrIs(peers: seq<PeerState>, a: Mac, k: nat)
    requires k <= |peers|
    ensures var r := PeerByAddr(peers, a, k);
      (forall j | k <= j < r :: !HasAddr(peers[j], a)) && (r < |peers| ==> HasAddr(peers[r], a))
    decreases |peers| - k
  {
    if k != |peers| && !HasAddr(peers[k], a) {
      PeerByAddrIs(peers, a, k + 1);
    }
  }

  /** The search by elements likewise. */
  lemma {:induction false} PeerByOtherAddrIs(peers: seq<PeerState>, i: Iface, a: Mac, env: Env, k: nat)
    requires k <= |peers|
    ensures var r := PeerByOtherAddr(peers, i, a, env, k);
      && (forall j | k <= j < r :: forall c | c in peers[j].conns :: !Linked(c, i, a, env))
      && (r < |peers| ==> exists c | c in peers[r].conns :: Linked(c, i, a, env))
    decreases |peers| - k
  {
    hide Linked;
    if k != |peers| && !exists c | c in peers[k].conns :: Linked(c, i, a, env) {
      PeerByOtherAddrIs(peers, i, a, env, k + 1);
    }
  }

  /** Two connections belong to one peer if either's elements name the other: it does not matter which came first. */
  lemma {:induction false} LinkedIsSymmetric(c: Conn, d: Conn, env: Env)
    ensures Linked(c, d.iface, d.addr, env) <==> Linked(d, c.iface, c.addr, env)
  {
  }

  /** The search by name finds the first interface that has it, or none does. */
  lemma {:induction false} FindIfaceIs(ifaces: seq<Iface>, name: string)
    ensures var r := FindIface(ifaces, name);
      if r.None? then forall i | i in ifaces :: i.name != name
      else exists n | 0 <= n < |ifaces| :: ifaces[n] == r.value && r.value.name == name && forall m | 0 <= m < n :: ifaces[m].name != name
  {
    if ifaces != [] {
      assert ifaces == [ifaces[0]] + ifaces[1..];
      if ifaces[0].name != name {
        FindIfaceIs(ifaces[1..], name);
        if FindIface(ifaces, name).Some? {
          var n :| 0 <= n < |ifaces[1..]| && ifaces[1..][n] == FindIface(ifaces[1..], name).value
                   && forall m | 0 <= m < n :: ifaces[1..][m].name != name;
          assert ifaces[n + 1] == FindIface(ifaces, name).value;
          assert forall m | 1 <= m < n + 1 :: ifaces[m] == ifaces[1..][m - 1];
        }
      }
    }
  }

  lemma {:induction false} ConnectKeepsMapIff(cfg: Config, g: GroupState, ifname: string, addr: Mac, env: Env)
    requires MapInv(g)
    ensures var r := OnConnected(cfg, g, ifname, addr, env);
      r.Some? ==> (MapInv(r.value) <==> OneOwner(cfg, g, Connect(ifname, addr), env))
  {
    hide MapInv, AddMap, ConnectPeer, PeerByOtherAddr, IsConnected, OwnedBy, ScanOverread;
    var r, i := OnConnected(cfg, g, ifname, addr, env), FindIface(cfg.ifaces, ifname);
    if r.Some? && Heard(cfg, g, Connect(ifname, addr), env) {
      var k := PeerByOtherAddr(g.peers, i.value, addr, env);
      if k < |g.peers| {
        JoinKeepsMapIff(cfg, g, k, i.value, addr, env);
      } else if AddMap(g.mux, addr, i.value.name, env.addLast).1 {
        if env.sessionId.Some? {
          NewPeerKeepsMapIff(g, PeerState(Some(NewSession(env.sessionId.value, cfg.forceNc)), i, [Conn(i.value, addr)]),
                             i.value, addr, env.addLast);
        } else {
          FindIfaceIs(cfg.ifaces, ifname);
          LeakedEntry(g, i.value, addr, env.addLast);
        }
      } else {
        RefusedEntryIff(g, i.value, addr, env.addLast);
      }
    }
  }

  /** A known peer gets a connection. */
  lemma {:induction false} JoinKeepsMapIff(cfg: Config, g: GroupState, k: nat, i: Iface, addr: Mac, env: Env)
    requires MapInv(g) && k < |g.peers|
    ensures var r := Put(g, k, ConnectPeer(cfg, g.peers[k], g.mux, i, addr, env));
      r.Some? ==> (MapInv(r.value) <==> OwnedBy(g.peers, addr, k))
  {
    hide MapInv, Local, PeerAgrees, ConnectPeer, HasAddr, ActiveConnected;
    var o := ConnectPeer(cfg, g.peers[k], g.mux, i, addr, env);
    if o.Done? {
      PeerFacts(g, k);
      if OwnedBy(g.peers, addr, k) {
        if !HasAddr(g.peers[k], addr) {
          UnknownUnmapped(g, addr);
        }
        ConnectLocal(cfg, g.peers[k], g.mux, i, addr, env);
        NewAddrs(g, k, o.peer, i, addr);
        ReplaceKeepsMap(g, k, o.peer, o.mux);
      } else {
        ConnectAppends(cfg, g.peers[k], g.mux, i, addr, env);
        LastHasAddr(o.peer, g.peers[k].conns, Conn(i, addr));
        var j :| 0 <= j < |g.peers| && HasAddr(g.peers[j], addr) && j != k;
        TwoOwners(g.(peers := g.peers[k := o.peer], mux := o.mux), j, k, addr);
      }
    }
  }

  lemma {:induction false} ConnectAppends(cfg: Config, p: PeerState, mux: map<Mac, string>, i: Iface, a: Mac, env: Env)
    ensures var o := ConnectPeer(cfg, p, mux, i, a, env); o.Done? ==> o.peer.conns == p.conns + [Conn(i, a)]
  {
    hide TryNext, AddMap, AddrOf;
    var p0 := p.(conns := p.conns + [Conn(i, a)]);
    var p1 := if p0.session.Some? && p0.session.value.newIface.Some?
                 && i.priority > p0.session.value.newIface.value.priority
              then p0.(session := Some(p0.session.value.(phase := Idle))) else p0;
    TryNextSteersNothing(cfg, p1, env);
  }

  lemma {:induction false} LastHasAddr(q: PeerState, conns: seq<Conn>, c: Conn)
    requires q.conns == conns + [c]
    ensures HasAddr(q, c.addr)
  {
    assert q.conns[|conns|] == c;
  }

  lemma {:induction false} TwoOwners(g: GroupState, j: nat, k: nat, a: Mac)
    requires j < |g.peers| && k < |g.peers| && j != k && HasAddr(g.peers[j], a) && HasAddr(g.peers[k], a)
    ensures !MapInv(g)
  {
    hide HasAddr, PeerAgrees, ActiveConnected;
  }

  lemma {:induction false} PeerFacts(g: GroupState, k: nat)
    requires MapInv(g) && k < |g.peers|
    ensures ActiveConnected(g.peers[k]) && PeerAgrees(g.peers[k], g.mux)
  {
    hide PeerAgrees, ActiveConnected, HasAddr;
  }

  lemma {:induction false} UnknownUnmapped(g: GroupState, addr: Mac)
    requires MapInv(g) && forall j | 0 <= j < |g.peers| :: !HasAddr(g.peers[j], addr)
    ensures addr !in g.mux
  {
    hide PeerAgrees, ActiveConnected, HasAddr;
  }

  lemma {:induction false} NewAddrs(g: GroupState, k: nat, q: PeerState, i: Iface, addr: Mac)
    requires MapInv(g) && k < |g.peers| && q.conns == g.peers[k].conns + [Conn(i, addr)]
    requires forall j | 0 <= j < |g.peers| && HasAddr(g.peers[j], addr) :: j == k
    ensures forall j, a | 0 <= j < |g.peers| && j != k && HasAddr(q, a) :: !HasAddr(g.peers[j], a)
  {
    hide PeerAgrees, ActiveConnected;
    AppendLocal(g.peers[k], g.mux, i, addr);
    SameAddrs(g.peers[k].(conns := q.conns), q);
  }

  lemma {:induction false} OldAddrs(g: GroupState, k: nat, q: PeerState)
    requires MapInv(g) && k < |g.peers| && forall c | c in q.conns :: c in g.peers[k].conns
    ensures forall j, a | 0 <= j < |g.peers| && j != k && HasAddr(q, a) :: !HasAddr(g.peers[j], a)
  {
    assert forall a | HasAddr(q, a) :: HasAddr(g.peers[k], a);
  }

  /** A new peer whose entry the map took, with its session. */
  lemma {:induction false} NewPeerKeepsMapIff(g: GroupState, q: PeerState, i: Iface, addr: Mac, granted: bool)
    requires MapInv(g) && q.active == Some(i) && q.conns == [Conn(i, addr)] && AddMap(g.mux, addr, i.name, granted).1
    ensures MapInv(g.(peers := g.peers + [q], mux := AddMap(g.mux, addr, i.name, granted).0)) <==>
            OwnedBy(g.peers, addr, |g.peers|)
  {
    hide AddMap, HasAddr, PeerAgrees, ActiveConnected, AddrOf, Lookup, Disjoint;
    var mux := AddMap(g.mux, addr, i.name, granted).0;
    AddMapLookup(g.mux, addr, i.name, granted);
    SoleAddr(q, i, addr, mux);
    if OwnedBy(g.peers, addr, |g.peers|) {
      AppendKeepsMap(g, q, mux);
    } else {
      var j :| 0 <= j < |g.peers| && HasAddr(g.peers[j], addr);
      TwoOwners(g.(peers := g.peers + [q], mux := mux), j, |g.peers|, addr);
    }
  }

  /** One without a session: nobody has the entry. */
  lemma {:induction false} LeakedEntry(g: GroupState, i: Iface, addr: Mac, granted: bool)
    requires MapInv(g) && AddMap(g.mux, addr, i.name, granted).1 && !IsConnected(g.peers, i.name, addr)
    ensures !MapInv(g.(mux := AddMap(g.mux, addr, i.name, granted).0))
  {
    hide AddMap, HasAddr, Disjoint, IsConnected;
    var g' := g.(mux := AddMap(g.mux, addr, i.name, granted).0);
    AddMapLookup(g.mux, addr, i.name, granted);
    if MapInv(g') {
      MapIsExact(g', addr, i.name);
      var p :| p in g.peers && ActiveAddr(p) == Some(addr) && p.active.value.name == i.name;
      AddrOfFound(p.conns, p.active.value);
      Connected(g.peers, p, Conn(p.active.value, addr));
    }
  }

  lemma {:induction false} Connected(peers: seq<PeerState>, p: PeerState, c: Conn)
    requires p in peers && c in p.conns
    ensures IsConnected(peers, c.iface.name, c.addr)
  {
  }

  /** One whose entry the map did not take. */
  lemma {:induction false} RefusedEntryIff(g: GroupState, i: Iface, addr: Mac, granted: bool)
    requires MapInv(g) && !AddMap(g.mux, addr, i.name, granted).1
    ensures MapInv(g.(mux := AddMap(g.mux, addr, i.name, granted).0)) <==> addr !in g.mux
  {
    hide HasAddr, Disjoint, AddrOf;
    var g' := g.(mux := AddMap(g.mux, addr, i.name, granted).0);
    if addr in g.mux {
      var p :| p in g.peers && HasAddr(p, addr);
      assert PeerAgrees(p, g.mux) && Lookup(g'.mux, addr) == None;
      assert !PeerAgrees(p, g'.mux);
    } else {
      assert g' == g;
    }
  }

  /** When no session can be created for a new peer, the map keeps an entry that belongs to nobody exactly if it
      took one: the source does not take it back. */
  lemma {:induction false} RefusedSessionLeaksIff(cfg: Config, g: GroupState, ifname: string, addr: Mac, env: Env)
    requires MapInv(g) && env.sessionId.None? && env.cfgConnect && |cfg.ifaces| >= 2
    requires FindIface(cfg.ifaces, ifname).Some? && forall j | 0 <= j < |g.peers| :: !HasAddr(g.peers[j], addr)
    requires var i := FindIface(cfg.ifaces, ifname).value;
      !ScanOverread(g.peers, i, addr, env) && PeerByOtherAddr(g.peers, i, addr, env) == |g.peers|
    ensures var i, r := FindIface(cfg.ifaces, ifname).value, OnConnected(cfg, g, ifname, addr, env);
      r.Some? && (MapInv(r.value) <==> !AddMap(g.mux, addr, i.name, env.addLast).1)
  {
    hide AddMap, MapInv, PeerByOtherAddr, ScanOverread, ConnectPeer;
    NotConnected(g.peers, ifname, addr);
    UnknownUnmapped(g, addr);
    ConnectKeepsMapIff(cfg, g, ifname, addr, env);
  }

  lemma {:induction false} NotConnected(peers: seq<PeerState>, ifname: string, addr: Mac)
    requires forall j | 0 <= j < |peers| :: !HasAddr(peers[j], addr)
    ensures !IsConnected(peers, ifname, addr)
  {
  }

  lemma {:induction false} SoleAddr(q: PeerState, i: Iface, addr: Mac, mux: map<Mac, string>)
    requires q.active == Some(i) && q.conns == [Conn(i, addr)] && Lookup(mux, addr) == Some(i.name)
    ensures ActiveConnected(q) && PeerAgrees(q, mux) && forall a :: HasAddr(q, a) <==> a == addr
  {
    assert forall a :: HasAddr(q, a) <==> a == addr;
    assert AddrOf(q.conns, i) == Some(addr);
  }

  lemma {:induction false} DisconnectKeepsMap(cfg: Config, g: GroupState, ifname: string, addr: Mac, env: Env)
    requires MapInv(g)
    ensures var r := OnDisconnected(cfg, g, ifname, addr, env); r.Some? ==> MapInv(r.value)
  {
    hide MapInv, Local, PeerAgrees, DisconnectPeer, PeerByAddr, HasAddr, Lookup;
    var r, i, k := OnDisconnected(cfg, g, ifname, addr, env), FindIface(cfg.ifaces, ifname), PeerByAddr(g.peers, addr);
    if i.Some? && k < |g.peers| {
      PeerByAddrIs(g.peers, addr, 0);
      PeerFacts(g, k);
      DisconnectLocal(cfg, g.peers[k], g.mux, i.value, env);
      AddrOfDelConn(g.peers[k].conns, i.value, i.value);
      var (o, drop) := DisconnectPeer(cfg, g.peers[k], g.mux, i.value, env);
      if drop {
        Unmapped(g.peers[k], g.mux, o.peer, o.mux, addr);
        RemoveKeepsMap(g, k, o.peer, o.mux);
      } else if o.Done? {
        OldAddrs(g, k, o.peer);
        ReplaceKeepsMap(g, k, o.peer, o.mux);
      }
    }
  }

  /** The address of a dropped peer is no longer mapped when its entry is deleted once more. */
  lemma {:induction false} Unmapped(p: PeerState, m: map<Mac, string>, q: PeerState, m': map<Mac, string>, addr: Mac)
    requires Local(p, m, q, m') && q.conns == [] && HasAddr(p, addr)
    ensures addr !in m' && m' - {addr} == m'
  {
    assert !HasAddr(q, addr);
  }

  lemma {:induction false} PutKeepsMap(g: GroupState, g0: GroupState, k: nat, o: Outcome)
    requires MapInv(g) && k < |g.peers| && g0.peers == g.peers && g0.mux == g.mux
    requires o.Done? ==> Local(g.peers[k], g.mux, o.peer, o.mux) && forall c | c in o.peer.conns :: c in g.peers[k].conns
    ensures Put(g0, k, o).Some? ==> MapInv(Put(g0, k, o).value)
  {
    hide Local, PeerAgrees, HasAddr, ActiveConnected, Known, Disjoint;
    if o.Done? {
      OldAddrs(g, k, o.peer);
      ReplaceKeepsMap(g, k, o.peer, o.mux);
      assert Put(g0, k, o).value == g.(peers := g.peers[k := o.peer], mux := o.mux, retries := g0.retries);
    }
  }

  lemma {:induction false} StepKeepsMapIff(cfg: Config, g: GroupState, ev: Event, env: Env)
    requires MapInv(g)
    ensures var r := Step(cfg, g, ev, env); r.Some? ==> (MapInv(r.value) <==> OneOwner(cfg, g, ev, env))
  {
    hide MapInv, OwnedBy, PeerByOtherAddr, IsConnected, Local, PeerAgrees, OnConnected, OnDisconnected, PeerByAddr, HasAddr, InitialPeer, TransferPeer, SetupPeer, Put;
    match ev
    case Connect(ifname, addr) =>
      ConnectKeepsMapIff(cfg, g, ifname, addr, env);
    case Disconnect(ifname, addr) =>
      DisconnectKeepsMap(cfg, g, ifname, addr, env);
    case Establish(k) =>
      if k < |g.peers| && g.peers[k].session.Some? {
        PeerFacts(g, k);
        var q := OnEstablished(g, k).peers[k];
        SessionIrrelevant(g.peers[k], g.mux, q);
        PutKeepsMap(g, g, k, Done(q, g.mux));
        PutDone(g, k, q, g.mux);
      }
    case StateChange(k, initial, reason) =>
      if k < |g.peers| && g.peers[k].session.Some? {
        PeerFacts(g, k);
        var retries := if reason == Stt then g.retries + 1 else 0;
        var again := reason != Setup && retries < cfg.maxRetries;
        InitialLocal(cfg, g.peers[k], g.mux, reason, again, env);
        PutKeepsMap(g, g.(retries := if again then retries else 0), k,
                    InitialPeer(cfg, g.peers[k], g.mux, reason, again, env));
      }
    case SetupRequest(id, info) =>
      var k := PeerByAddr(g.peers, info.oldAddr);
      var oldI, newI := FindIface(cfg.ifaces, info.oldIfname), FindIface(cfg.ifaces, info.newIfname);
      if k < |g.peers| && oldI.Some? && newI.Some? {
        PeerFacts(g, k);
        var sid := if id == INVALID_SESSION_ID then env.sessionId else Some(id);
        SetupLocal(g.peers[k], g.mux, oldI.value, newI.value, info.llt, sid, env);
        PutKeepsMap(g, g, k, SetupPeer(g.peers[k], g.mux, oldI.value, newI.value, info.llt, sid, env));
      }
    case Transfer(ifname, addr) =>
      if TransferApplies(cfg, g, ifname, addr) {
        var k := PeerByAddr(g.peers, addr);
        PeerFacts(g, k);
        TransferLocal(cfg, g.peers[k], g.mux, env);
        PutKeepsMap(g, g, k, TransferPeer(cfg, g.peers[k], g.mux, env));
      }
  }

  lemma {:induction false} PutDone(g: GroupState, k: nat, q: PeerState, mux: map<Mac, string>)
    requires k < |g.peers|
    ensures Put(g, k, Done(q, mux)) == Some(g.(peers := g.peers[k := q], mux := mux))
  {
  }

  /** One event with the answers of the world while it is handled. */
  type Input = (Event, Env)

  const START := GroupState([], map[], 0)

  /** The states a manager goes through from its start, as long as no step dereferences null or overreads a dump. */
  ghost predicate Run(cfg: Config, inputs: seq<Input>, states: seq<GroupState>) {
    && |states| == |inputs| + 1
    && states[0] == START
    && forall k | 0 <= k < |inputs| :: Step(cfg, states[k], inputs[k].0, inputs[k].1) == Some(states[k + 1])
  }

  lemma {:induction false} RunSnoc(cfg: Config, inputs: seq<Input>, states: seq<GroupState>, input: Input, next: GroupState)
    requires Run(cfg, inputs, states) && Step(cfg, states[|inputs|], input.0, input.1) == Some(next)
    ensures Run(cfg, inputs + [input], states + [next]) && |states| == |inputs| + 1
  {
    hide Step;
  }

  lemma {:induction false} RunKeepsMap(cfg: Config, inputs: seq<Input>, states: seq<GroupState>, n: nat)
    requires Run(cfg, inputs, states) && n < |states|
    requires forall k | 0 <= k < n :: OneOwner(cfg, states[k], inputs[k].0, inputs[k].1)
    ensures MapInv(states[n])
  {
    hide Step, OneOwner;
    if n > 0 {
      RunKeepsMap(cfg, inputs, states, n - 1);
      assert Step(cfg, states[n - 1], inputs[n - 1].0, inputs[n - 1].1) == Some(states[n - 1 + 1]);
      StepKeepsMapIff(cfg, states[n - 1], inputs[n - 1].0, inputs[n - 1].1);
    }
  }

  /** The condition is exact: the invariant holds throughout a run if and only if every event meets it. */
  lemma {:induction false} MapInvOverRunsIff(cfg: Config, inputs: seq<Input>, states: seq<GroupState>, n: nat)
    requires Run(cfg, inputs, states) && n < |states|
    ensures (forall j | 0 <= j <= n :: MapInv(states[j])) <==>
            (forall k | 0 <= k < n :: OneOwner(cfg, states[k], inputs[k].0, inputs[k].1))
  {
    hide Step, OneOwner, MapInv;
    if forall k | 0 <= k < n :: OneOwner(cfg, states[k], inputs[k].0, inputs[k].1) {
      forall j | 0 <= j <= n ensures MapInv(states[j]) {
        RunKeepsMap(cfg, inputs, states, j);
      }
    }
    if forall j | 0 <= j <= n :: MapInv(states[j]) {
      forall k | 0 <= k < n ensures OneOwner(cfg, states[k], inputs[k].0, inputs[k].1) {
        assert Step(cfg, states[k], inputs[k].0, inputs[k].1) == Some(states[k + 1]);
        StepKeepsMapIff(cfg, states[k], inputs[k].0, inputs[k].1);
      }
    }
  }

  /** Some peer has `a` on its active interface, called `name`. */
  ghost predicate Reached(peers: seq<PeerState>, a: Mac, name: string) {
    exists p | p in peers :: ActiveAddr(p) == Some(a) && p.active.value.name == name
  }

  lemma {:induction false} MapIsExact(g: GroupState, a: Mac, name: string)
    requires MapInv(g)
    ensures Lookup(g.mux, a) == Some(name) <==> Reached(g.peers, a, name)
  {
    hide HasAddr, AddrOf, Disjoint;
    if Lookup(g.mux, a) == Some(name) {
      var p :| p in g.peers && HasAddr(p, a);
      assert PeerAgrees(p, g.mux);
    }
    if Reached(g.peers, a, name) {
      var p :| p in g.peers && ActiveAddr(p) == Some(a) && p.active.value.name == name;
      ActiveAddrHeld(p);
      assert PeerAgrees(p, g.mux);
    }
  }

  /** Over every run, whichever filter additions fail: the map is exactly the address of each peer on its active
      interface, mapped to that interface, and an active interface is one the peer is connected on. */
  lemma {:induction false} MapOverRuns(cfg: Config, inputs: seq<Input>, states: seq<GroupState>, n: nat)
    requires Run(cfg, inputs, states) && n < |states|
    requires forall k | 0 <= k < n :: OneOwner(cfg, states[k], inputs[k].0, inputs[k].1)
    ensures forall p | p in states[n].peers && p.active.Some? :: HasIface(p.conns, p.active.value)
    ensures forall a, name :: Lookup(states[n].mux, a) == Some(name) <==> Reached(states[n].peers, a, name)
  {
    RunKeepsMap(cfg, inputs, states, n);
    hide Step, OneOwner, Reached, Lookup, PeerAgrees, Disjoint;
    forall p | p in states[n].peers && p.active.Some? ensures HasIface(p.conns, p.active.value) {
      assert ActiveConnected(p);
      AddrOfFound(p.conns, p.active.value);
    }
    forall a, name ensures Lookup(states[n].mux, a) == Some(name) <==> Reached(states[n].peers, a, name) {
      MapIsExact(states[n], a, name);
    }
  }

  /** The map is no larger than the number of peers. */
  lemma {:induction false} MapSize(g: GroupState)
    requires MapInv(g)
    ensures |g.mux| <= |g.peers|
    decreases |g.peers|
  {
    hide HasAddr, AddrOf, Disjoint;
    var addrs := set p | p in g.peers && ActiveAddr(p).Some? :: ActiveAddr(p).value;
    forall a | a in g.mux ensures a in addrs {
      MapIsExact(g, a, g.mux[a]);
    }
    SubsetSize(g.mux.Keys, addrs);
    ImageSize(g.peers, addrs);
  }

  lemma {:induction false} ImageSize(peers: seq<PeerState>, addrs: set<Mac>)
    requires forall a | a in addrs :: exists p | p in peers :: ActiveAddr(p) == Some(a)
    ensures |addrs| <= |peers|
  {
    hide ActiveAddr;
    if peers != [] {
      var last := peers[|peers| - 1];
      assert peers == peers[..|peers| - 1] + [last];
      var rest := if ActiveAddr(last).Some? then addrs - {ActiveAddr(last).value} else addrs;
      forall a | a in rest ensures exists p | p in peers[..|peers| - 1] :: ActiveAddr(p) == Some(a) {
        var p :| p in peers && ActiveAddr(p) == Some(a);
        assert p in peers[..|peers| - 1];
      }
      ImageSize(peers[..|peers| - 1], rest);
    } else {
      assert addrs == {};
    }
  }
}

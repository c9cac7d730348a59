/** fst_manager.c: one group's state and what each event does to it, as functions on values. The methods of
    module FstManager are proved to compute these functions; the lemmas of FstRuns are about their runs. */
module FstSession {
  import opened FstTypes
  import opened MultiBand

  /** struct fst_iface_info of an interface of the group. */
  datatype Iface = Iface(name: string, priority: nat, llt: nat)

  /** struct fst_mgr_peer_iface: the peer is connected on `iface` with address `addr`. */
  datatype Conn = Conn(iface: Iface, addr: Mac)

  datatype Phase = Idle | Initiated | Established | InTransition

  datatype SessionState = SessionState(phase: Phase, id: nat, oldIface: Option<Iface>, newIface: Option<Iface>,
                                       llt: nat, nonCompliant: bool)

  datatype PeerState = PeerState(session: Option<SessionState>, active: Option<Iface>, conns: seq<Conn>)

  /** `mux` is the map kept by the multiplexer; `retries` the counter of repeated setups. */
  datatype GroupState = GroupState(peers: seq<PeerState>, mux: map<Mac, string>, retries: nat)

  datatype Config = Config(station: bool, forceNc: bool, maxRetries: nat, ifaces: seq<Iface>)

  /** What the world outside the manager answers while one event is handled: the supplicant, the kernel behind
      the multiplexer (`addFirst` only when two additions are tried), and the element dumps of peers. */
  datatype Env = Env(sessionId: Option<nat>, setOld: bool, setNew: bool, setOldAddr: bool, setNewAddr: bool,
                     setLlt: bool, initiate: bool, transfer: bool, respond: bool, cfgConnect: bool,
                     addFirst: bool, addLast: bool, mbies: (string, Mac) -> string)

  const MAX_FILTERS: nat := 65534

  /** fst_mux_add_map_entry on an interface the multiplexer knows. */
  function AddMap(mux: map<Mac, string>, a: Mac, name: string, granted: bool): (map<Mac, string>, bool) {
    if granted && |mux - {a}| < MAX_FILTERS then (mux[a := name], true) else (mux - {a}, false)
  }

  // ---------------------------------------------------------------- lookups

  function FindIface(ifaces: seq<Iface>, name: string): Option<Iface> {
    if ifaces == [] then None
    else if ifaces[0].name == name then Some(ifaces[0])
    else FindIface(ifaces[1..], name)
  }

  /** _fst_mgr_peer_get_addr_of_iface */
  function AddrOf(conns: seq<Conn>, i: Iface): Option<Mac> {
    if conns == [] then None
    else if conns[0].iface == i then Some(conns[0].addr)
    else AddrOf(conns[1..], i)
  }

  /** _fst_mgr_peer_del_iface: the first connection on `i` goes. */
  function DelConn(conns: seq<Conn>, i: Iface): seq<Conn> {
    if conns == [] then []
    else if conns[0].iface == i then conns[1..]
    else [conns[0]] + DelConn(conns[1..], i)
  }

  predicate HasAddr(p: PeerState, a: Mac) {
    exists c | c in p.conns :: c.addr == a
  }

  /** The first of `peers` from `k` on that is known by `a`, or their number. */
  function PeerByAddr(peers: seq<PeerState>, a: Mac, k: nat := 0): (r: nat)
    requires k <= |peers|
    ensures k <= r <= |peers|
    decreases |peers| - k
  {
    if k == |peers| || HasAddr(peers[k], a) then k else PeerByAddr(peers, a, k + 1)
  }

  predicate IsConnected(peers: seq<PeerState>, ifname: string, a: Mac) {
    exists p | p in peers :: exists c | c in p.conns :: c.iface.name == ifname && c.addr == a
  }

  /** The dump of one of the two connections names the other one's address. */
  predicate Linked(c: Conn, i: Iface, a: Mac, env: Env) {
    c.iface.name != i.name &&
    (DumpNames(env.mbies(c.iface.name, c.addr), a) || DumpNames(env.mbies(i.name, a), c.addr))
  }

  /** Asking the two dumps in turn, one of them is overread. */
  predicate Overread(c: Conn, i: Iface, a: Mac, env: Env) {
    var first := DumpSays(env.mbies(c.iface.name, c.addr), a);
    c.iface.name != i.name && (first.None? || (!first.value && DumpSays(env.mbies(i.name, a), c.addr).None?))
  }

  /** The scan of a peer's connections overreads a dump before it finds a linked one. */
  predicate PeerOverread(conns: seq<Conn>, i: Iface, a: Mac, env: Env, j: nat := 0)
    requires j <= |conns|
    decreases |conns| - j
  {
    j < |conns| &&
    (Overread(conns[j], i, a, env) || (!Linked(conns[j], i, a, env) && PeerOverread(conns, i, a, env, j + 1)))
  }

  /** And that of the whole group. */
  predicate ScanOverread(peers: seq<PeerState>, i: Iface, a: Mac, env: Env, k: nat := 0)
    requires k <= |peers|
    decreases |peers| - k
  {
    k < |peers| &&
    (PeerOverread(peers[k].conns, i, a, env) ||
     (!(exists c | c in peers[k].conns :: Linked(c, i, a, env)) && ScanOverread(peers, i, a, env, k + 1)))
  }

  /** _fst_mgr_group_peer_by_other_addr, with the same convention as PeerByAddr. */
  function PeerByOtherAddr(peers: seq<PeerState>, i: Iface, a: Mac, env: Env, k: nat := 0): (r: nat)
    requires k <= |peers|
    ensures k <= r <= |peers|
    decreases |peers| - k
  {
    if k == |peers| || (exists c | c in peers[k].conns :: Linked(c, i, a, env)) then k
    else PeerByOtherAddr(peers, i, a, env, k + 1)
  }

  /** _fst_mgr_peer_get_next_iface: the first interface of highest priority that is not the active one. */
  function NextIface(conns: seq<Conn>, active: Option<Iface>): Option<Iface> {
    if conns == [] then None
    else
      var best, i := NextIface(conns[..|conns| - 1], active), conns[|conns| - 1].iface;
      if Some(i) == active then best
      else if best.None? || best.value.priority < i.priority then Some(i)
      else best
  }

  // ---------------------------------------------------------------- steps of one peer

  /** The first half of _fst_mgr_peer_set_active_iface: the active interface and its map entry go. */
  function Deactivate(p: PeerState, mux: map<Mac, string>): (PeerState, map<Mac, string>) {
    var a := if p.active.Some? then AddrOf(p.conns, p.active.value) else None;
    if a.Some? then (p.(active := None), mux - {a.value}) else (p, mux)
  }

  /** _fst_mgr_peer_set_active_iface; the last component is false when it returns an error. */
  function SetActive(p: PeerState, mux: map<Mac, string>, i: Option<Iface>, granted: bool)
    : (PeerState, map<Mac, string>, bool)
  {
    if i.Some? && p.active == i then (p, mux, true)
    else
      var (p1, mux1) := Deactivate(p, mux);
      if i.None? then (p1, mux1, true)
      else
        var b := AddrOf(p.conns, i.value);
        if b.None? then (p1, mux1, false)
        else
          var (mux2, ok) := AddMap(mux1, b.value, i.value.name, granted);
          (if ok then p1.(active := i) else p1, mux2, ok)
  }

  /** _fst_mgr_session_init */
  function NewSession(id: nat, nonCompliant: bool): SessionState {
    SessionState(Idle, id, None, None, 0, nonCompliant)
  }

  predicate InProgress(p: PeerState) {
    p.session.Some? && p.session.value.phase != Idle
  }

  /** _fst_mgr_peer_check_compliance: no connection of the peer has multi-band elements. */
  predicate NonCompliant(cfg: Config, conns: seq<Conn>, env: Env) {
    cfg.forceNc || forall c | c in conns :: env.mbies(c.iface.name, c.addr) == ""
  }

  /** MS_TO_LLT_VALUE on 32-bit unsigned values: link loss timeout in units of 32 microseconds,
      section 10.32.2.2 of IEEE Std 802.11ad-2012. */
  function MsToLlt(ms: nat): nat {
    (ms * 1000) % 0x1_0000_0000 / 32
  }

  /** The calls that configure a session and initiate its setup; each may be refused by the supplicant, and
      the first refusal ends it. A non-compliant session is only configured, and locally. */
  function Configure(s: SessionState, conns: seq<Conn>, active: Iface, i: Iface, llt: nat, env: Env): SessionState {
    if s.nonCompliant then s.(oldIface := Some(active), newIface := Some(i), llt := llt)
    else if !env.setOld then s
    else
      var s1 := s.(oldIface := Some(active));
      if !env.setNew then s1
      else
        var s2 := s1.(newIface := Some(i));
        if AddrOf(conns, active).None? || AddrOf(conns, i).None? || !env.setOldAddr || !env.setNewAddr || !env.setLlt
        then s2
        else
          var s3 := s2.(llt := llt);
          if env.initiate then s3.(phase := Initiated) else s3
  }

  /** _fst_mgr_peer_try_to_initiate_next_setup */
  function TryNext(cfg: Config, p: PeerState, env: Env): PeerState {
    if !cfg.station || InProgress(p) || p.active.None? || (p.session.None? && env.sessionId.None?) then p
    else
      var s := if p.session.Some? then p.session.value else NewSession(env.sessionId.value, cfg.forceNc);
      var next := NextIface(p.conns, p.active);
      if next.None? then p.(session := Some(s))
      else
        var active, i := p.active.value, next.value;
        var llt := if active.priority < i.priority then 0 else MsToLlt(i.llt);
        p.(session := Some(Configure(s.(nonCompliant := NonCompliant(cfg, p.conns, env)), p.conns, active, i, llt, env)))
  }

  /** _fst_mgr_session_nc_transfer dereferences both interfaces of the session. */
  predicate NcTransferDefined(s: SessionState) {
    s.oldIface.Some? && s.newIface.Some?
  }

  function NcTransfer(p: PeerState, mux: map<Mac, string>, granted: bool): (PeerState, map<Mac, string>)
    requires p.session.Some?
  {
    var (p1, mux1, _) := SetActive(p, mux, p.session.value.newIface, granted);
    (p1.(session := Some(p.session.value.(phase := Idle))), mux1)
  }

  datatype Outcome = Crash | Done(peer: PeerState, mux: map<Mac, string>)

  /** A known peer connects on one more interface. Crash: a null interface is dereferenced. */
  function ConnectPeer(cfg: Config, p: PeerState, mux: map<Mac, string>, i: Iface, a: Mac, env: Env): Outcome {
    var p0 := p.(conns := p.conns + [Conn(i, a)]);
    var p1 := if p0.session.Some? && p0.session.value.newIface.Some?
                 && i.priority > p0.session.value.newIface.value.priority
              then p0.(session := Some(p0.session.value.(phase := Idle))) else p0;
    var p2 := TryNext(cfg, p1, env);
    if p2.session.None? || !p2.session.value.nonCompliant then Done(p2, mux)
    else if p2.active.None? || p2.session.value.newIface.None? then Crash
    else if p2.active.value.priority < p2.session.value.newIface.value.priority then
      if !NcTransferDefined(p2.session.value) then Crash
      else var (p3, mux3) := NcTransfer(p2, mux, env.addLast); Done(p3, mux3)
    else Done(p2, mux)
  }

  /** What a disconnection on `i` first does to the session: the switch it may start, or its end. */
  function LeaveSession(p: PeerState, mux: map<Mac, string>, i: Iface, env: Env): (Outcome, bool) {
    if p.session.None? then (Done(p, mux), false)
    else
      var s := p.session.value;
      if s.oldIface == Some(i) && s.phase == Established then
        if s.nonCompliant then
          if !NcTransferDefined(s) then (Crash, false)
          else var (p1, mux1) := NcTransfer(p, mux, env.addFirst); (Done(p1, mux1), true)
        else if env.transfer then (Done(p.(session := Some(s.(phase := InTransition))), mux), true)
        else (Done(p.(session := None), mux), false)
      else if s.oldIface == Some(i) || s.newIface == Some(i) then (Done(p.(session := None), mux), false)
      else (Done(p, mux), false)
  }

  /** A known peer disconnects from `i`. The flag says that it is to be dropped: no connection is left and no
      switch was started. */
  function DisconnectPeer(cfg: Config, p: PeerState, mux: map<Mac, string>, i: Iface, env: Env): (Outcome, bool) {
    var (left, switching) := LeaveSession(p, mux, i, env);
    if left.Crash? then (Crash, false)
    else
      var forced := left.peer.active == Some(i);
      var (p1, mux1, _) := if forced then SetActive(left.peer, left.mux, None, true) else (left.peer, left.mux, true);
      var p2 := p1.(conns := DelConn(p1.conns, i));
      if switching then
        var (p3, mux3, _) := SetActive(p2, mux1, p2.session.value.newIface, env.addLast); (Done(p3, mux3), false)
      else if p2.conns == [] then (Done(p2, mux1), true)
      else
        var (p3, mux3, _) := if forced then SetActive(p2, mux1, NextIface(p2.conns, p2.active), env.addLast)
                             else (p2, mux1, true);
        (Done(TryNext(cfg, p3, env), mux3), false)
  }

  datatype Reason = Teardown | Setup | Switch | Stt | Reject | ErrorParams | Reset | Unknown

  /** The session of `p` returned to its initial state. */
  function InitialPeer(cfg: Config, p: PeerState, mux: map<Mac, string>, reason: Reason, again: bool, env: Env): Outcome
    requires p.session.Some?
  {
    var s := p.session.value;
    var (p1, mux1, _) := if reason == Switch then SetActive(p, mux, s.newIface, env.addLast) else (p, mux, true);
    if reason == Switch && s.oldIface.Some? && AddrOf(p1.conns, s.oldIface.value).Some? && s.newIface.None? then Crash
    else
      var p2 := p1.(session := None);
      Done(if again then TryNext(cfg, p2, env) else p2, mux1)
  }

  /** fst_manager_session_transfer, on the session's own interface and once established. */
  function TransferPeer(cfg: Config, p: PeerState, mux: map<Mac, string>, env: Env): Outcome
    requires p.session.Some?
  {
    var s := p.session.value;
    var (p1, mux1, _) := if env.transfer
                         then SetActive(p.(session := Some(s.(phase := InTransition))), mux, s.newIface, env.addLast)
                         else (p.(session := None), mux, true);
    Done(TryNext(cfg, p1, env), mux1)
  }

  /** struct fst_session_info of a setup request. */
  datatype SetupInfo = SetupInfo(oldIfname: string, newIfname: string, oldAddr: Mac, newAddr: Mac, llt: nat)

  /** An access point answers a setup request for a peer and two interfaces of the group. `id` is None when no
      session could be created. */
  function SetupPeer(p: PeerState, mux: map<Mac, string>, oldI: Iface, newI: Iface, llt: nat, id: Option<nat>, env: Env)
    : Outcome
  {
    var (p1, mux1, ok) := if p.active != Some(oldI) then SetActive(p, mux, Some(oldI), env.addLast) else (p, mux, true);
    if !ok || id.None? then Done(p1, mux1)
    else
      Done(p1.(session := Some(SessionState(if env.respond then Established else Initiated, id.value,
                                            Some(oldI), Some(newI),
                                            if newI.priority > oldI.priority then 0 else llt, false))), mux1)
  }

  // ---------------------------------------------------------------- steps of the group

  const INVALID_SESSION_ID: nat := 0xFFFF_FFFF

  /** Events, with the peer a session id stands for already looked up (`k`). */
  datatype Event =
    | Connect(ifname: string, addr: Mac)
    | Disconnect(ifname: string, addr: Mac)
    | Establish(k: nat)
    | StateChange(k: nat, initial: bool, reason: Reason)
    | SetupRequest(sessionId: nat, info: SetupInfo)
    | Transfer(ifname: string, addr: Mac)

  function Put(g: GroupState, k: nat, o: Outcome): Option<GroupState>
    requires k < |g.peers|
  {
    if o.Crash? then None else Some(g.(peers := g.peers[k := o.peer], mux := o.mux))
  }

  /** _fst_mgr_on_peer_connected */
  function OnConnected(cfg: Config, g: GroupState, ifname: string, addr: Mac, env: Env): Option<GroupState> {
    var i := FindIface(cfg.ifaces, ifname);
    if i.None? || IsConnected(g.peers, ifname, addr) || |cfg.ifaces| < 2 || !env.cfgConnect then Some(g)
    else if ScanOverread(g.peers, i.value, addr, env) then None
    else
      var k := PeerByOtherAddr(g.peers, i.value, addr, env);
      if k == |g.peers| then
        var (mux, ok) := AddMap(g.mux, addr, i.value.name, env.addLast);
        if ok && env.sessionId.Some? then
          var p := PeerState(Some(NewSession(env.sessionId.value, cfg.forceNc)), i, [Conn(i.value, addr)]);
          Some(g.(peers := g.peers + [p], mux := mux))
        else Some(g.(mux := mux))
      else Put(g, k, ConnectPeer(cfg, g.peers[k], g.mux, i.value, addr, env))
  }

  /** _fst_mgr_on_peer_disconnected */
  function OnDisconnected(cfg: Config, g: GroupState, ifname: string, addr: Mac, env: Env): Option<GroupState> {
    var i := FindIface(cfg.ifaces, ifname);
    var k := PeerByAddr(g.peers, addr);
    if i.None? || k == |g.peers| then Some(g)
    else
      var (o, drop) := DisconnectPeer(cfg, g.peers[k], g.mux, i.value, env);
      if drop && o.Done? then
        Some(g.(peers := g.peers[..k] + g.peers[k + 1..], mux := o.mux - {addr}))
      else Put(g, k, o)
  }

  /** EVENT_FST_ESTABLISHED */
  function OnEstablished(g: GroupState, k: nat): GroupState {
    if k >= |g.peers| || g.peers[k].session.None? then g
    else g.(peers := g.peers[k := g.peers[k].(session := Some(g.peers[k].session.value.(phase := Established)))])
  }

  /** _fst_mgr_on_ctrl_notification_state_change */
  function OnStateChange(cfg: Config, g: GroupState, k: nat, initial: bool, reason: Reason, env: Env): Option<GroupState> {
    if !initial || k >= |g.peers| || g.peers[k].session.None? then Some(g)
    else
      var retries := if reason == Stt then g.retries + 1 else 0;
      var again := reason != Setup && retries < cfg.maxRetries;
      Put(g.(retries := if again then retries else 0), k, InitialPeer(cfg, g.peers[k], g.mux, reason, again, env))
  }

  /** _fst_mgr_on_setup */
  function OnSetup(cfg: Config, g: GroupState, sessionId: nat, info: SetupInfo, env: Env): Option<GroupState> {
    var oldI, newI := FindIface(cfg.ifaces, info.oldIfname), FindIface(cfg.ifaces, info.newIfname);
    var k := PeerByAddr(g.peers, info.oldAddr);
    if cfg.station || oldI.None? || newI.None? || k == |g.peers| || k != PeerByAddr(g.peers, info.newAddr) then Some(g)
    else
      var id := if sessionId == INVALID_SESSION_ID then env.sessionId else Some(sessionId);
      Put(g, k, SetupPeer(g.peers[k], g.mux, oldI.value, newI.value, info.llt, id, env))
  }

  predicate TransferApplies(cfg: Config, g: GroupState, ifname: string, addr: Mac) {
    var i, k := FindIface(cfg.ifaces, ifname), PeerByAddr(g.peers, addr);
    && i.Some? && k < |g.peers| && g.peers[k].session.Some?
    && g.peers[k].session.value.oldIface == i && g.peers[k].session.value.phase == Established
  }

  /** fst_manager_session_transfer */
  function OnTransfer(cfg: Config, g: GroupState, ifname: string, addr: Mac, env: Env): Option<GroupState> {
    if !TransferApplies(cfg, g, ifname, addr) then Some(g)
    else
      var k := PeerByAddr(g.peers, addr);
      Put(g, k, TransferPeer(cfg, g.peers[k], g.mux, env))
  }

  /** The state after one event, or None when handling it dereferences a null pointer or overreads a dump. */
  function Step(cfg: Config, g: GroupState, ev: Event, env: Env): Option<GroupState> {
    match ev
    case Connect(ifname, addr) => OnConnected(cfg, g, ifname, addr, env)
    case Disconnect(ifname, addr) => OnDisconnected(cfg, g, ifname, addr, env)
    case Establish(k) => Some(OnEstablished(g, k))
    case StateChange(k, initial, reason) => OnStateChange(cfg, g, k, initial, reason, env)
    case SetupRequest(id, info) => OnSetup(cfg, g, id, info, env)
    case Transfer(ifname, addr) => OnTransfer(cfg, g, ifname, addr, env)
  }
}

/** fst_mux_bonding.c: interfaces, each with its own list of filters, over one TC handle list.
    To its caller it is a finite map from destination address to interface name. */
module FstMux {
  import opened FstTypes
  import opened FstTc
  import opened FstMuxBooks

  class Mux {
    const tc: Tc
    var ifaces: seq<MuxIface>
    var queueId: nat
    ghost var books: Books

    constructor (isSta: bool)
      ensures Valid() && Map() == map[] && ifaces == [] && fresh(tc)
      ensures tc.isSta == isSta && Steering()
    {
      tc := new Tc(isSta);
      ifaces := [];
      queueId := 0;
      books := Books(map[], map[], map[]);
    }

    ghost function IfaceSet(): set<MuxIface>
      reads this`ifaces
    {
      set i | i in ifaces
    }

    ghost function Names(): set<string>
      reads this`ifaces
    {
      NamesOf(ifaces)
    }

    /** The finite map the multiplexer stands for. */
    ghost function Map(): map<Mac, string>
      reads this`books
    {
      MapOf(books.table)
    }

    /** The books hold the filter lists of the interfaces `ifs` as they are. */
    ghost predicate Mirrors(ifs: seq<MuxIface>)
      reads this`books, (set i | i in ifs)`filters
    {
      forall i | i in ifs :: i in books.lists && books.lists[i] == i.filters
    }

    /** The filters on the interfaces `ifs`, the map and the handles of `tc` agree one to one. */
    ghost predicate Consistent(ifs: seq<MuxIface>)
      reads this`books, tc`filters, (set i | i in ifs)`filters
    {
      Mirrors(ifs) && books.Agree(ifs, tc.filters)
    }

    ghost predicate Valid()
      reads this`ifaces, this`books, tc`filters, IfaceSet()`filters
    {
      Consistent(ifaces)
    }

    /** Mapped addresses were given the queue their interface has now. */
    ghost predicate QueuesCurrent()
      reads this`ifaces, this`books, IfaceSet()`queueId
    {
      forall i | i in ifaces :: books.Queued(i, i.queueId)
    }

    /** The kernel holds exactly one rule per mapped address, and it selects the owner's queue. */
    ghost predicate Steering()
      reads this`ifaces, this`books, tc`filters, tc`kernel, IfaceSet()`queueId
    {
      tc.Synced() && books.Steered(tc.isSta, tc.kernel) && QueuesCurrent()
    }

    lemma {:induction false} ValidFacts()
      requires Valid()
      ensures NoDup(ifaces) && DistinctNames(ifaces)
      ensures Allocated(tc.filters)
      ensures |Map()| == |tc.filters|
      ensures forall a | a in books.table :: books.table[a].owner in ifaces
    {
      NamesNoDup(ifaces);
      books.CountsAgree(ifaces, tc.filters);
      assert forall a | a in books.table :: books.Located(a, ifaces);
    }

    lemma {:induction false} Sound()
      requires Valid()
      ensures Mirrors(ifaces) && tc.Valid() && |Map()| == |tc.filters|
    {
      hide Books.Agree;
      ValidFacts();
      books.Handles(ifaces, tc.filters);
    }

    /** _drv_get_iface_by_name */
    method GetIfaceByName(ifname: string) returns (res: MuxIface?)
      ensures res == null <==> ifname !in Names()
      ensures res != null ==> res in ifaces && res.ifname == ifname
    {
      var k := 0;
      while k < |ifaces|
        invariant 0 <= k <= |ifaces|
        invariant forall j | 0 <= j < k :: ifaces[j].ifname != ifname
      {
        if ifaces[k].ifname == ifname {
          return ifaces[k];
        }
        k := k + 1;
      }
      return null;
    }

    /** _drv_get_filter_by_da, with the interface whose list holds the filter. */
    method GetFilterByDa(da: Mac) returns (owner: MuxIface?, filter: MuxFilter)
      requires Valid()
      ensures owner == null <==> da !in books.table
      ensures owner != null ==>
                books.table[da].owner == owner && books.table[da].handle == filter.handle && filter.da == da
      ensures owner != null ==> owner in ifaces && filter in owner.filters
    {
      filter := MuxFilter(da, NO_HANDLE);
      var k := 0;
      while k < |ifaces|
        invariant 0 <= k <= |ifaces|
        invariant forall i, f | i in ifaces[..k] && f in i.filters :: f.da != da
      {
        var i := ifaces[k];
        var j := 0;
        while j < |i.filters|
          invariant 0 <= j <= |i.filters|
          invariant forall f | f in i.filters[..j] :: f.da != da
        {
          if i.filters[j].da == da {
            books.ListedFilter(ifaces, tc.filters, i, i.filters[j]);
            return i, i.filters[j];
          }
          j := j + 1;
        }
        assert i.filters[..j] == i.filters;
        assert ifaces[..k + 1] == ifaces[..k] + [i];
        k := k + 1;
      }
      assert ifaces[..k] == ifaces;
      assert da in books.table ==> books.Located(da, ifaces);
      return null, filter;
    }

    /** Drops a filter whose handle was just taken off the TC list. */
    method Forget(owner: MuxIface, filter: MuxFilter, ghost ifs: seq<MuxIface>, ghost hs: seq<FilterHandle>)
      requires Mirrors(ifs) && books.Agree(ifs, hs)
      requires owner in ifs && filter in owner.filters && tc.filters == Without(hs, filter.handle)
      modifies this`books, owner`filters
      ensures Consistent(ifs) && books == old(books).Unlink(owner, filter)
    {
      hide Books.Agree;
      books.UnlinkAgrees(ifs, hs, owner, filter);
      owner.filters := Without(owner.filters, filter);
      books := books.Unlink(owner, filter);
    }

    /** Some filter of the interfaces `ifs` was kept although its handle was cleared. */
    ghost predicate Crippled(ifs: seq<MuxIface>)
      reads (set i | i in ifs)`filters
    {
      exists i | i in ifs :: exists k | 0 <= k < |i.filters| :: i.filters[k].handle == NO_HANDLE
    }

    lemma {:induction false} CrippledDisagrees(ifs: seq<MuxIface>)
      requires Mirrors(ifs) && Crippled(ifs)
      ensures !Consistent(ifs)
    {
      hide Books.Agree;
      var i :| i in ifs && exists k | 0 <= k < |i.filters| :: i.filters[k].handle == NO_HANDLE;
      var k :| 0 <= k < |i.filters| && i.filters[k].handle == NO_HANDLE;
      books.ClearedHandleDisagrees(ifs, tc.filters, i, k);
    }

    /** Keeps a filter whose handle the TC has cleared: it matches no handle any more. */
    method Cripple(owner: MuxIface, filter: MuxFilter, ghost ifs: seq<MuxIface>)
      requires Mirrors(ifs) && owner in ifs && filter in owner.filters
      modifies this`books, owner`filters
      ensures Mirrors(ifs) && Crippled(ifs) && !Consistent(ifs) && books.table == old(books).table
    {
      var at :| 0 <= at < |owner.filters| && owner.filters[at] == filter;
      owner.filters := owner.filters[at := MuxFilter(filter.da, NO_HANDLE)];
      books := books.(lists := books.lists[owner := owner.filters]);
      books.ClearedHandleDisagrees(ifs, tc.filters, owner, at);
    }

    /** _drv_del_filter. A refused deletion without force keeps the filter, whose handle is by then
        cleared and off the TC list. `ifs` are the interfaces the filters live on. */
    method DelFilter(owner: MuxIface, filter: MuxFilter, force: bool, nl: Netlink, ghost ifs: seq<MuxIface>)
      returns (res: int)
      requires Consistent(ifs)
      requires owner in ifs && filter in owner.filters
      modifies this`books, tc`filters, tc`kernel, owner`filters
      ensures res == 0 || res == -1
      ensures Mirrors(ifs) && (Consistent(ifs) <==> res == 0) && (res == -1 ==> Crippled(ifs))
      ensures tc.Valid() && |tc.filters| == |old(tc.filters)| - 1
      ensures res == 0 ==> books == old(books).Unlink(owner, filter)
      ensures res == -1 ==> books.table == old(books).table
      ensures force ==> res == 0
      ensures res == 0 <==> force || tc.Accepts(nl)
      ensures old(tc.Synced()) && nl.l2da ==>
                tc.Synced() && tc.kernel == old(tc.kernel) - {filter.handle.prio}
    {
      hide Books.Agree, Without, FstTc.Prios, FstTc.Allocated;
      books.ListedFilter(ifs, tc.filters, owner, filter);
      books.Handles(ifs, tc.filters);
      ghost var hs := tc.filters;
      HandleGone(hs, filter.handle);
      var r := tc.DelL2daFilter(filter.handle, nl);
      if r != 0 && !force {
        Cripple(owner, filter, ifs);
        return -1;
      }
      Forget(owner, filter, ifs, hs);
      res := 0;
    }

    /** _drv_del_filter without force on a mapped address. */
    method DelFound(owner: MuxIface, filter: MuxFilter, nl: Netlink) returns (res: int)
      requires Valid() && owner in ifaces && filter in owner.filters
      modifies this`books, tc`filters, tc`kernel, owner`filters
      ensures res == 0 || res == -1
      ensures Valid() <==> res == 0
      ensures Mirrors(ifaces) && (res == -1 ==> Crippled(ifaces))
      ensures tc.Valid() && |tc.filters| == |old(tc.filters)| - 1
      ensures books.table == if res == 0 then old(books.table) - {filter.da} else old(books.table)
      ensures res == 0 <==> tc.Accepts(nl)
      ensures old(tc.Synced()) && nl.l2da ==> tc.Synced()
      ensures old(Steering()) && nl.l2da && res == 0 ==> Steering()
    {
      hide Books.Agree, Books.Steered, Books.Queued, FstTc.Prios;
      ghost var b := books;
      if old(Steering()) {
        b.UnlinkSteered(ifaces, tc.filters, owner, filter, tc.isSta, tc.kernel);
        b.UnlinkQueued(owner, filter);
      }
      res := DelFilter(owner, filter, false, nl, ifaces);
    }

    /** fst_mux_del_map_entry: removes one key; refused, it leaves the mux inconsistent. */
    method DelMapEntry(da: Mac, nl: Netlink) returns (res: int)
      requires Valid()
      modifies this`books, tc`filters, tc`kernel, IfaceSet()`filters
      ensures res == 0 || res == -1
      ensures Map() == if res == 0 then old(Map()) - {da} else old(Map())
      ensures Valid() <==> res == 0 || da !in old(Map())
      ensures Mirrors(ifaces) && (!Valid() ==> Crippled(ifaces)) && tc.Valid()
      ensures |tc.filters| == |old(Map()) - {da}|
      ensures res == 0 <==> da in old(Map()) && tc.Accepts(nl)
      ensures old(tc.Synced()) && (nl.l2da || Valid()) ==> tc.Synced()
      ensures old(Steering()) && Valid() ==> Steering()
    {
      hide Consistent, Mirrors, Crippled, Steering, FstTc.Tc.Synced, MapOf;
      MapOfRemove(books.table, da);
      OneLess(Map(), da);
      Sound();
      var owner, filter := GetFilterByDa(da);
      if owner == null {
        Sound();
        return -1;
      }
      res := DelFound(owner, filter, nl);
    }

    /** Records a filter whose handle was just put on the TC list; of a crippled mux, only where it is. */
    method Record(iface: MuxIface, filter: MuxFilter, ghost queue: nat, ghost hs: seq<FilterHandle>)
      requires Mirrors(ifaces) && iface in ifaces && tc.filters == [filter.handle] + hs && tc.Valid()
      requires books.Agree(ifaces, hs) ==> filter.da !in books.table
      modifies this`books, iface`filters
      ensures Mirrors(ifaces)
      ensures old(books.Agree(ifaces, hs)) ==> Valid() && books == old(books).Link(iface, filter, queue)
      ensures old(Crippled(ifaces)) ==> Crippled(ifaces)
    {
      hide Books.Agree;
      ghost var agree := books.Agree(ifaces, hs);
      if agree {
        books.LinkAgrees(ifaces, hs, iface, filter, queue);
      }
      ghost var crippled, i, k := Crippled(ifaces), iface, 0;
      if crippled {
        i :| i in ifaces && exists k | 0 <= k < |i.filters| :: i.filters[k].handle == NO_HANDLE;
        k :| 0 <= k < |i.filters| && i.filters[k].handle == NO_HANDLE;
      }
      iface.filters := iface.filters + [filter];
      assert crippled ==> i.filters[k].handle == NO_HANDLE;
      books := if agree then books.Link(iface, filter, queue) else books.(lists := books.lists[iface := iface.filters]);
    }

    /** The rest of fst_mux_add_map_entry, once the interface is known and a filter for the address was deleted. */
    method InstallFilter(da: Mac, iface: MuxIface, nl: Netlink) returns (res: int)
      requires Mirrors(ifaces) && tc.Valid() && iface in ifaces
      requires if Valid() then da !in books.table else Crippled(ifaces)
      modifies this`books, tc`filters, tc`kernel, iface`filters
      ensures res == 0 || res == -1
      ensures Valid() <==> old(Valid())
      ensures res == 0 <==> |old(tc.filters)| < PRIO_MAX - 1 && tc.Accepts(nl)
      ensures Valid() ==> Map() == if res == 0 then old(Map())[da := iface.ifname] else old(Map())
      ensures old(tc.Synced()) && (res == 0 || nl.undo || !tc.isSta) ==> tc.Synced()
      ensures Valid() && old(Steering()) && (res == 0 || nl.undo || !tc.isSta) ==> Steering()
    {
      hide Books.Agree, Books.Steered, Books.Queued, FstTc.Prios, FstTc.Allocated, FstTc.LeastUnused, MapOf, RuleFor, NoDup,
           DistinctNames, Crippled;
      ghost var b, hs, rules, valid := books, tc.filters, tc.kernel, Valid();
      if !valid {
        CrippledDisagrees(ifaces);
      }
      var r, handle := tc.AddL2daFilter(da, iface.queueId, iface.ifname, nl);
      if r != 0 {
        if !valid {
          CrippledDisagrees(ifaces);
        }
        return -1;
      }
      var filter := MuxFilter(da, handle);
      if valid && old(Steering()) {
        b.LinkSteered(ifaces, hs, iface, filter, iface.queueId, tc.isSta, rules);
        b.LinkQueued(iface, filter, iface.queueId);
      }
      MapOfPut(b.table, da, Entry(iface, handle, iface.queueId));
      Record(iface, filter, iface.queueId, hs);
      if !valid {
        CrippledDisagrees(ifaces);
      }
      res := 0;
    }

    /** fst_mux_add_map_entry, whatever the kernel answers to the deletion of a previous filter for the address (`del`)
        and to the addition: overwrites the key or, refused the addition or for want of a priority, removes it. The
        result of the deletion is ignored; refused, it leaves the mux inconsistent. */
    method AddMapEntry(da: Mac, ifname: string, del: Netlink, nl: Netlink) returns (res: int)
      requires Valid()
      modifies this`books, tc`filters, tc`kernel, IfaceSet()`filters
      ensures res == 0 || res == -1
      ensures Valid() <==> ifname !in Names() || da !in old(Map()) || tc.Accepts(del)
      ensures res == 0 <==> ifname in Names() && tc.Accepts(nl) && |old(Map()) - {da}| < PRIO_MAX - 1
      ensures Valid() ==> Map() == if res == 0 then old(Map())[da := ifname]
                                   else if ifname in Names() then old(Map()) - {da}
                                   else old(Map())
      ensures Valid() && old(tc.Synced()) && (res == 0 || nl.undo || !tc.isSta) ==> tc.Synced()
      ensures Valid() && old(Steering()) && (res == 0 || nl.undo || !tc.isSta) ==> Steering()
    {
      hide Consistent, Crippled, Mirrors, Steering, FstTc.Tc.Synced, FstTc.Tc.Accepts, MapOf, Allocated;
      var iface := GetIfaceByName(ifname);
      if iface == null {
        return -1;
      }
      assert iface.ifname in Names();
      RemoveThenPut(Map(), da, ifname);
      var _ := DelMapEntry(da, del);
      MapOfRemove(books.table, da);
      res := InstallFilter(da, iface, nl);
    }

    /** _drv_purge_iface_filters: every filter goes, whatever the kernel answers to the k-th deletion. */
    method PurgeIfaceFilters(iface: MuxIface, nl: nat -> Netlink, ghost ifs: seq<MuxIface>)
      requires Consistent(ifs) && iface in ifs
      modifies this`books, tc`filters, tc`kernel, iface`filters
      ensures Consistent(ifs) && iface.filters == []
      ensures books.table == map a | a in old(books).table && old(books).table[a].owner != iface :: old(books).table[a]
      ensures books.lists.Keys == old(books).lists.Keys
    {
      hide Books.Agree, Without;
      var k := 0;
      while iface.filters != []
        invariant Consistent(ifs)
        invariant books.table.Keys <= old(books).table.Keys && books.lists.Keys == old(books).lists.Keys
        invariant forall a | a in books.table :: books.table[a] == old(books).table[a]
        invariant forall a | a in old(books).table && old(books).table[a].owner != iface :: a in books.table
        decreases |iface.filters|
      {
        books.FirstListed(ifs, tc.filters, iface);
        var _ := DelFilter(iface, iface.filters[0], true, nl(k), ifs);
        k := k + 1;
      }
      books.NothingOwned(ifs, tc.filters, iface);
    }

    /** fst_mux_register_iface: a new interface, without filters and without a queue until the next start. */
    method RegisterIface(ifname: string, priority: nat) returns (res: int)
      requires Valid()
      modifies this`ifaces, this`books
      ensures Valid() && Map() == old(Map()) && Names() == old(Names()) + {ifname}
      ensures res == if ifname in old(Names()) then -1 else 0
      ensures res == -1 ==> ifaces == old(ifaces)
      ensures res == 0 ==> exists i :: ifaces == old(ifaces) + [i] && fresh(i) && i.ifname == ifname
    {
      hide Books.Agree, MapOf;
      var known := GetIfaceByName(ifname);
      if known != null {
        assert known.ifname in Names();
        return -1;
      }
      var iface := new MuxIface(ifname, priority);
      books.ExtendAgrees(ifaces, tc.filters, iface);
      books := books.Extend(iface);
      ifaces := ifaces + [iface];
      res := 0;
    }

    /** _drv_del_iface */
    method DelIface(iface: MuxIface, nl: nat -> Netlink)
      requires Valid() && iface in ifaces
      modifies this`ifaces, this`books, tc`filters, tc`kernel, iface`filters
      ensures Valid() && ifaces == Without(old(ifaces), iface)
      ensures books.table == map a | a in old(books).table && old(books).table[a].owner != iface :: old(books).table[a]
    {
      hide Books.Agree, Without;
      ghost var ifs := ifaces;
      ifaces := Without(ifaces, iface);
      PurgeIfaceFilters(iface, nl, ifs);
      books.AgreeWithLess(ifs, tc.filters, iface);
    }

    /** fst_mux_unregister_iface: the interface leaves, and every key it owned with it. */
    method UnregisterIface(ifname: string, nl: nat -> Netlink)
      requires Valid()
      modifies this`ifaces, this`books, tc`filters, tc`kernel, IfaceSet()`filters
      ensures Valid()
      ensures Map() == map a | a in old(Map()) && old(Map())[a] != ifname :: old(Map())[a]
      ensures Names() == old(Names()) - {ifname}
    {
      hide Books.Agree, Without;
      ValidFacts();
      var iface := GetIfaceByName(ifname);
      if iface == null {
        assert forall a | a in books.table :: books.table[a].owner.ifname in Names();
        return;
      }
      WithoutNames(ifaces, iface);
      MapOfDrop(books.table, ifaces, iface);
      DelIface(iface, nl);
    }

    lemma {:induction false} EmptySteers()
      requires Valid() && Map() == map[] && tc.kernel == map[]
      ensures Steering() && tc.filters == []
    {
      hide Books.Agree;
      ValidFacts();
      MapOfEmpty(books.table);
    }

    /** fst_mux_start: every interface gets the next queue id; the bond's file may refuse some of them. */
    method Start(refused: set<nat>, indexesOk: bool, qdiscsOk: bool) returns (res: int)
      requires Valid()
      modifies this`queueId, IfaceSet()`queueId, tc`kernel, tc`started
      ensures Valid() && (res == 0 || res == -1)
      ensures res == 0 <==> (forall k | 0 <= k < |ifaces| :: k !in refused) && !old(tc.started) && indexesOk && qdiscsOk
      ensures res == 0 ==> queueId == old(queueId) + |ifaces| && tc.kernel == map[] && tc.started
      ensures res == 0 ==> forall k | 0 <= k < |ifaces| :: ifaces[k].queueId == old(queueId) + k + 1
      ensures res == 0 && Map() == map[] ==> Steering()
    {
      hide Consistent, Steering, MapOf;
      ValidFacts();
      var k := 0;
      while k < |ifaces|
        invariant 0 <= k <= |ifaces| && queueId == old(queueId) + k
        invariant forall j | 0 <= j < k :: j !in refused
        invariant forall j | 0 <= j < k :: ifaces[j].queueId == old(queueId) + j + 1
        modifies this`queueId, IfaceSet()`queueId
      {
        queueId := queueId + 1;
        ifaces[k].queueId := queueId;
        if k in refused {
          return -1;
        }
        k := k + 1;
      }
      res := tc.Start(indexesOk, qdiscsOk);
      if res == 0 && Map() == map[] {
        EmptySteers();
      }
    }

    /** fst_mux_stop: the map is emptied, whatever the kernel answers, and queue ids start over. */
    method Stop(nl: nat -> nat -> Netlink)
      requires Valid()
      modifies this`books, this`queueId, tc, IfaceSet()`filters
      ensures Valid() && Map() == map[] && queueId == 0
      ensures tc.filters == [] && tc.kernel == map[] && !tc.started && Steering()
    {
      hide Consistent, Steering, MapOf;
      ValidFacts();
      var k := 0;
      while k < |ifaces|
        invariant 0 <= k <= |ifaces| && Valid()
        invariant forall a | a in books.table :: books.table[a].owner in ifaces[k..]
        modifies this`books, tc, IfaceSet()`filters
      {
        ghost var table := books.table;
        PurgeIfaceFilters(ifaces[k], nl(k), ifaces);
        OwnersLeft(table, books.table, ifaces, k);
        k := k + 1;
      }
      NoOwnersLeft(books.table, ifaces);
      tc.Stop();
      queueId := 0;
      EmptySteers();
    }

    /** Distinct queue ids that fit the 16-bit queue mapping. */
    ghost predicate QueuesAssigned()
      reads this`ifaces, IfaceSet()`queueId
    {
      && (forall i | i in ifaces :: 0 < i.queueId < 0x1_0000)
      && (forall i, j | i in ifaces && j in ifaces && i != j :: i.queueId != j.queueId)
    }

    /** What a start without failures leaves. */
    lemma {:induction false} StartAssignsQueues(base: nat)
      requires Valid() && base + |ifaces| < 0x1_0000
      requires forall k | 0 <= k < |ifaces| :: ifaces[k].queueId == base + k + 1
      ensures QueuesAssigned()
    {
      hide Books.Agree;
      ValidFacts();
    }

    /** The rule at priority `p` is the one of the address recorded for it, and matches just that address. */
    lemma {:induction false} RuleAt(p: nat, skb: Skb)
      requires Valid() && Steering() && !tc.isSta && skb.Valid() && p in tc.kernel
      ensures p in books.dest && books.dest[p] in books.table && books.table[books.dest[p]].handle.prio == p
      ensures books.table[books.dest[p]].owner in ifaces
      ensures tc.kernel[p] == RuleFor(false, books.dest[p], books.table[books.dest[p]].owner.queueId)
      ensures KeysInHeader(tc.kernel[p].keys)
      ensures RuleMatches(tc.kernel[p], skb) <==> skb.Dest() == books.dest[p]
    {
      var h :| h in tc.filters && h.prio == p;
      assert books.Owned(h) && books.Located(books.dest[p], ifaces);
      assert books.Queued(books.table[books.dest[p]].owner, books.table[books.dest[p]].owner.queueId);
      StationRuleMatchesExactlyItsAddress(books.dest[p], books.table[books.dest[p]].queue, skb);
    }

    /** The L2DA table as a frame sees it: each rule names a mapped address, matches exactly that address, and
        selects the queue of the interface the address is mapped to. */
    ghost predicate Selects(p: nat, skb: Skb)
      requires skb.Valid() && p in tc.kernel
      reads this`ifaces, this`books, tc`kernel, IfaceSet()`queueId
    {
      && KeysInHeader(tc.kernel[p].keys)
      && p in books.dest && books.dest[p] in books.table
      && books.table[books.dest[p]].handle.prio == p
      && books.table[books.dest[p]].owner in ifaces
      && tc.kernel[p].queue == books.table[books.dest[p]].owner.queueId
      && (RuleMatches(tc.kernel[p], skb) <==> skb.Dest() == books.dest[p])
    }

    lemma {:induction false} AllSelect(skb: Skb)
      requires Valid() && Steering() && QueuesAssigned() && !tc.isSta && skb.Valid()
      ensures forall p | p in tc.kernel :: Selects(p, skb)
    {
      hide Consistent, Steering, FstTc.RuleMatches, FstTc.KeysInHeader, FstTc.StationKeys;
      forall p | p in tc.kernel ensures Selects(p, skb) {
        RuleAt(p, skb);
      }
    }

    lemma {:induction false} MappedAddress(skb: Skb)
      requires Valid() && Steering() && skb.Valid() && skb.Dest() in Map()
      ensures var d := skb.Dest(); var p := books.table[d].handle.prio;
              p in tc.kernel && p in books.dest && books.dest[p] == d
    {
      assert books.Handled(skb.Dest(), tc.filters);
    }

    lemma {:induction false} SelectedQueue(skb: Skb, p: nat, i: MuxIface)
      requires Valid() && QueuesAssigned() && skb.Valid() && i in ifaces
      requires p in tc.kernel && Selects(p, skb) && RuleMatches(tc.kernel[p], skb)
      ensures skb.Dest() in Map()
      ensures tc.kernel[p].queue == i.queueId <==> i.ifname == Map()[skb.Dest()]
    {
      hide Books.Agree, FstTc.RuleMatches, FstTc.KeysInHeader;
      ValidFacts();
      NamesNoDup(ifaces);
    }

    /** On an access point a frame to a mapped address gets the queue of the interface it is mapped to, and of
        no other; a frame to any other address meets no L2DA filter. */
    lemma {:induction false} FrameGoesToTheMappedInterface(skb: Skb)
      requires Valid() && Steering() && QueuesAssigned() && !tc.isSta && skb.Valid()
      ensures forall p | p in tc.kernel :: KeysInHeader(tc.kernel[p].keys)
      ensures skb.Dest() !in Map() ==> forall p | p in tc.kernel :: !RuleMatches(tc.kernel[p], skb)
      ensures skb.Dest() in Map() ==> exists p :: FirstMatch(tc.kernel, skb, p)
      ensures forall p, i | FirstMatch(tc.kernel, skb, p) && i in ifaces ::
                skb.Dest() in Map() && (tc.kernel[p].queue == i.queueId <==> i.ifname == Map()[skb.Dest()])
    {
      hide Consistent, Steering, QueuesAssigned, FstTc.RuleMatches, FstTc.KeysInHeader;
      AllSelect(skb);
      if skb.Dest() in Map() {
        MappedAddress(skb);
        assert FirstMatch(tc.kernel, skb, books.table[skb.Dest()].handle.prio);
      } else {
        forall p | p in tc.kernel ensures !RuleMatches(tc.kernel[p], skb) {
          assert Selects(p, skb);
        }
      }
      forall p, i | FirstMatch(tc.kernel, skb, p) && i in ifaces
        ensures skb.Dest() in Map() && (tc.kernel[p].queue == i.queueId <==> i.ifname == Map()[skb.Dest()])
      {
        SelectedQueue(skb, p, i);
      }
    }
  }

  lemma {:induction false} HandleGone(hs: seq<FilterHandle>, h: FilterHandle)
    requires Allocated(hs)
    ensures h in hs ==> |Without(hs, h)| == |hs| - 1
  {
    AllocatedNoDup(hs);
    WithoutNoDup(hs, h);
  }

  lemma {:induction false} OneLess(m: map<Mac, string>, a: Mac)
    ensures |m - {a}| == if a in m then |m| - 1 else |m|
  {
    assert (m - {a}).Keys == m.Keys - {a};
    if a !in m {
      assert m - {a} == m;
    }
  }

  lemma {:induction false} OwnersLeft(table: map<Mac, Entry>, rest: map<Mac, Entry>, ifs: seq<MuxIface>, k: nat)
    requires k < |ifs| && forall a | a in table :: table[a].owner in ifs[k..]
    requires rest == map a | a in table && table[a].owner != ifs[k] :: table[a]
    ensures forall a | a in rest :: rest[a].owner in ifs[k + 1..]
  {
    assert ifs[k..] == [ifs[k]] + ifs[k + 1..];
  }

  lemma {:induction false} NoOwnersLeft(table: map<Mac, Entry>, ifs: seq<MuxIface>)
    requires forall a | a in table :: table[a].owner in ifs[|ifs|..]
    ensures table == map[] && MapOf(table) == map[]
  {
    assert ifs[|ifs|..] == [];
    assert table.Keys == {};
  }
}

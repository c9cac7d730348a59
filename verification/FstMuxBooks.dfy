/** fst_mux_bonding.c: the records the multiplexer keeps, and when they agree with one another. */
module FstMuxBooks {
  import opened FstTypes
  import opened FstTc

  /** struct fst_mux_filter; the back pointer to the interface is the list it is on. */
  datatype MuxFilter = MuxFilter(da: Mac, handle: FilterHandle)

  /** struct fst_mux_iface. */
  class MuxIface {
    const ifname: string
    const priority: nat
    var queueId: nat
    var filters: seq<MuxFilter>

    constructor (ifname: string, priority: nat)
      ensures this.ifname == ifname && this.priority == priority && queueId == 0 && filters == []
    {
      this.ifname := ifname;
      this.priority := priority;
      queueId := 0;
      filters := [];
    }
  }

  /** Where a mapped address lives: the interface that holds its filter, the filter's TC handle, and the queue
      it was installed with. */
  datatype Entry = Entry(owner: MuxIface, handle: FilterHandle, queue: nat)

  /** The finite map the multiplexer stands for. */
  ghost function MapOf(table: map<Mac, Entry>): map<Mac, string> {
    map a | a in table :: table[a].owner.ifname
  }

  ghost function NamesOf(ifs: seq<MuxIface>): set<string> {
    set i | i in ifs :: i.ifname
  }

  ghost predicate DistinctNames(ifs: seq<MuxIface>) {
    forall i, j | 0 <= i < j < |ifs| :: ifs[i].ifname != ifs[j].ifname
  }

  /** `lists`: the filters of each interface. `table`: the entry of each mapped address. `dest`: the address
      behind each priority. */
  datatype Books = Books(lists: map<MuxIface, seq<MuxFilter>>, table: map<Mac, Entry>, dest: map<nat, Mac>) {

    /** The filters listed for `i` are distinct and each is the table's entry for its address. */
    ghost predicate Listed(i: MuxIface) {
      i in lists && NoDup(lists[i]) &&
      forall f | f in lists[i] :: f.da in table && table[f.da].owner == i && table[f.da].handle == f.handle
    }

    /** The table's entry for `a` is listed for its owner. */
    ghost predicate Located(a: Mac, ifs: seq<MuxIface>)
      requires a in table
    {
      var e := table[a];
      e.owner in ifs && e.owner in lists && MuxFilter(a, e.handle) in lists[e.owner]
    }

    /** The handle of the table's entry for `a` is among `hs`, and its priority is recorded as the one of `a`. */
    ghost predicate Handled(a: Mac, hs: seq<FilterHandle>)
      requires a in table
    {
      var h := table[a].handle;
      h in hs && h.prio in dest && dest[h.prio] == a
    }

    /** The handle belongs to the filter of the address recorded for its priority. */
    ghost predicate Owned(h: FilterHandle) {
      h.prio in dest && dest[h.prio] in table && table[dest[h.prio]].handle == h
    }

    /** The filters of the interfaces `ifs`, the table and the handles `hs` agree one to one. */
    ghost predicate Agree(ifs: seq<MuxIface>, hs: seq<FilterHandle>) {
      && Allocated(hs)
      && DistinctNames(ifs)
      && (forall i | i in ifs :: Listed(i))
      && (forall a | a in table :: Located(a, ifs))
      && (forall a | a in table :: Handled(a, hs))
      && (forall h | h in hs :: Owned(h))
    }

    ghost function Link(i: MuxIface, f: MuxFilter, queue: nat): Books
      requires i in lists
    {
      Books(lists[i := lists[i] + [f]], table[f.da := Entry(i, f.handle, queue)], dest[f.handle.prio := f.da])
    }

    ghost function Unlink(i: MuxIface, f: MuxFilter): Books
      requires i in lists
    {
      Books(lists[i := Without(lists[i], f)], table - {f.da}, dest - {f.handle.prio})
    }

    lemma {:induction false} ListedFilter(ifs: seq<MuxIface>, hs: seq<FilterHandle>, i: MuxIface, f: MuxFilter)
      requires Agree(ifs, hs) && i in ifs && i in lists && f in lists[i]
      ensures f.da in table && table[f.da].owner == i && table[f.da].handle == f.handle && f.handle in hs
      ensures f.handle.prio in Prios(hs) && f.handle.prio >= PRIO_BOND_TX_BASE
    {
      assert Listed(i) && Handled(f.da, hs);
    }

    lemma {:induction false} Handles(ifs: seq<MuxIface>, hs: seq<FilterHandle>)
      requires Agree(ifs, hs)
      ensures Allocated(hs)
    {
    }

    /** Distinct addresses have distinct priorities, all of them in `hs`. */
    lemma {:induction false} PriosDiffer(ifs: seq<MuxIface>, hs: seq<FilterHandle>)
      requires Agree(ifs, hs)
      ensures forall a | a in table :: table[a].handle.prio in Prios(hs)
      ensures forall a, b | a in table && b in table && a != b :: table[a].handle.prio != table[b].handle.prio
    {
      assert forall a | a in table :: Handled(a, hs);
    }

    lemma {:induction false} LinkKeepsFilters(ifs: seq<MuxIface>, hs: seq<FilterHandle>, i: MuxIface, f: MuxFilter,
        queue: nat)
      requires Agree(ifs, hs) && i in ifs && i in lists && f.da !in table
      ensures forall x | x in ifs :: Link(i, f, queue).Listed(x)
      ensures forall a | a in Link(i, f, queue).table :: Link(i, f, queue).Located(a, ifs)
    {
      var b := Link(i, f, queue);
      forall x | x in ifs ensures b.Listed(x) {
        assert Listed(x) && Listed(i);
      }
      forall a | a in b.table ensures b.Located(a, ifs) {
        assert a != f.da ==> Located(a, ifs);
        assert forall g | g in lists[i] :: g in b.lists[i];
        assert b.lists[i][|lists[i]|] == f;
      }
    }

    lemma {:induction false} LinkKeepsHandles(ifs: seq<MuxIface>, hs: seq<FilterHandle>, i: MuxIface, f: MuxFilter,
        queue: nat)
      requires Agree(ifs, hs) && i in ifs && i in lists && f.da !in table
      requires Allocated([f.handle] + hs)
      ensures forall a | a in Link(i, f, queue).table :: Link(i, f, queue).Handled(a, [f.handle] + hs)
      ensures forall h | h in [f.handle] + hs :: Link(i, f, queue).Owned(h)
    {
      var b, hs' := Link(i, f, queue), [f.handle] + hs;
      assert hs'[1..] == hs;
      AllocatedTail(hs');
      assert hs'[0] == f.handle;
      forall a | a in b.table ensures b.Handled(a, hs') {
        if a != f.da {
          assert Handled(a, hs);
          assert table[a].handle.prio in Prios(hs);
        }
      }
      forall h | h in hs' ensures b.Owned(h) {
        if h != f.handle {
          assert h in hs && Owned(h) && h.prio in Prios(hs);
        }
      }
    }

    /** Adding a filter for a new address, with its handle, keeps the agreement. */
    lemma {:induction false} LinkAgrees(ifs: seq<MuxIface>, hs: seq<FilterHandle>, i: MuxIface, f: MuxFilter,
        queue: nat)
      requires Agree(ifs, hs) && i in ifs && i in lists && f.da !in table
      requires Allocated([f.handle] + hs)
      ensures Link(i, f, queue).Agree(ifs, [f.handle] + hs)
    {
      LinkKeepsFilters(ifs, hs, i, f, queue);
      LinkKeepsHandles(ifs, hs, i, f, queue);
    }

    lemma {:induction false} UnlinkKeepsFilters(ifs: seq<MuxIface>, hs: seq<FilterHandle>, i: MuxIface, f: MuxFilter)
      requires Agree(ifs, hs) && i in ifs && i in lists && f in lists[i]
      ensures forall x | x in ifs :: Unlink(i, f).Listed(x)
      ensures forall a | a in Unlink(i, f).table :: Unlink(i, f).Located(a, ifs)
    {
      var b := Unlink(i, f);
      ListedFilter(ifs, hs, i, f);
      assert Listed(i);
      WithoutNoDup(lists[i], f);
      forall x | x in ifs ensures b.Listed(x) {
        assert Listed(x);
      }
      forall a | a in b.table ensures b.Located(a, ifs) {
        assert Located(a, ifs);
      }
    }

    lemma {:induction false} UnlinkKeepsHandles(ifs: seq<MuxIface>, hs: seq<FilterHandle>, i: MuxIface, f: MuxFilter)
      requires Agree(ifs, hs) && i in ifs && i in lists && f in lists[i]
      ensures forall a | a in Unlink(i, f).table :: Unlink(i, f).Handled(a, Without(hs, f.handle))
      ensures forall h | h in Without(hs, f.handle) :: Unlink(i, f).Owned(h)
    {
      var b, hs' := Unlink(i, f), Without(hs, f.handle);
      ListedFilter(ifs, hs, i, f);
      AllocatedNoDup(hs);
      WithoutNoDup(hs, f.handle);
      assert Handled(f.da, hs);
      forall a | a in b.table ensures b.Handled(a, hs') {
        assert Handled(a, hs);
      }
      forall h | h in hs' ensures b.Owned(h) {
        assert h in hs && h != f.handle && Owned(h);
      }
    }

    /** Removing a filter together with its handle keeps the agreement. */
    lemma {:induction false} UnlinkAgrees(ifs: seq<MuxIface>, hs: seq<FilterHandle>, i: MuxIface, f: MuxFilter)
      requires Agree(ifs, hs) && i in ifs && i in lists && f in lists[i]
      ensures Unlink(i, f).Agree(ifs, Without(hs, f.handle))
    {
      WithoutAllocated(hs, f.handle);
      UnlinkKeepsFilters(ifs, hs, i, f);
      UnlinkKeepsHandles(ifs, hs, i, f);
    }

    lemma {:induction false} FirstListed(ifs: seq<MuxIface>, hs: seq<FilterHandle>, i: MuxIface)
      requires Agree(ifs, hs) && i in ifs && i in lists && lists[i] != []
      ensures var f := lists[i][0];
        f.da in table && table[f.da].owner == i && |Without(lists[i], f)| < |lists[i]|
    {
      ListedFilter(ifs, hs, i, lists[i][0]);
    }

    lemma {:induction false} NothingOwned(ifs: seq<MuxIface>, hs: seq<FilterHandle>, i: MuxIface)
      requires Agree(ifs, hs) && i in ifs && i in lists && lists[i] == []
      ensures forall a | a in table :: table[a].owner != i && table[a].owner in ifs
    {
      assert forall a | a in table :: Located(a, ifs);
    }

    /** A filter whose handle was cleared in place breaks the agreement. */
    lemma {:induction false} ClearedHandleDisagrees(ifs: seq<MuxIface>, hs: seq<FilterHandle>, i: MuxIface, k: nat)
      requires i in ifs && i in lists && k < |lists[i]| && lists[i][k].handle == NO_HANDLE
      ensures !Agree(ifs, hs)
    {
      if Agree(ifs, hs) {
        ListedFilter(ifs, hs, i, lists[i][k]);
      }
    }

    /** A new interface has no filters. */
    ghost function Extend(i: MuxIface): Books {
      Books(lists[i := []], table, dest)
    }

    lemma {:induction false} ExtendAgrees(ifs: seq<MuxIface>, hs: seq<FilterHandle>, i: MuxIface)
      requires Agree(ifs, hs) && i.ifname !in NamesOf(ifs)
      ensures Extend(i).Agree(ifs + [i], hs)
    {
      var b := Extend(i);
      assert forall x | x in ifs :: x.ifname in NamesOf(ifs);
      forall x | x in ifs + [i] ensures b.Listed(x) {
        assert x != i ==> Listed(x);
      }
      forall a | a in table ensures b.Located(a, ifs + [i]) && b.Handled(a, hs) {
        assert Located(a, ifs) && Handled(a, hs);
      }
      forall h | h in hs ensures b.Owned(h) {
        assert Owned(h);
      }
    }

    lemma {:induction false} AgreeWithLess(ifs: seq<MuxIface>, hs: seq<FilterHandle>, i: MuxIface)
      requires Agree(ifs, hs) && i in ifs && i in lists && lists[i] == []
      ensures Agree(Without(ifs, i), hs)
      ensures forall x | x in Without(ifs, i) :: x in ifs
    {
      NothingOwned(ifs, hs, i);
      NamesNoDup(ifs);
      WithoutNoDup(ifs, i);
      WithoutNames(ifs, i);
      forall x | x in Without(ifs, i) ensures Listed(x) {
        assert x in ifs;
      }
      forall a | a in table ensures Located(a, Without(ifs, i)) {
        assert Located(a, ifs);
      }
    }

    /** For each mapped address, `rules` has at its priority the rule that selects its queue. */
    ghost predicate Steered(isSta: bool, rules: map<nat, Rule>) {
      forall a | a in table ::
        table[a].handle.prio in rules && rules[table[a].handle.prio] == RuleFor(isSta, a, table[a].queue)
    }

    /** The addresses `i` owns were given the queue `q`. */
    ghost predicate Queued(i: MuxIface, q: nat) {
      forall a | a in table && table[a].owner == i :: table[a].queue == q
    }

    lemma {:induction false} LinkQueued(i: MuxIface, f: MuxFilter, queue: nat)
      requires i in lists && Queued(i, queue)
      ensures forall x, q | Queued(x, q) && x != i :: Link(i, f, queue).Queued(x, q)
      ensures Link(i, f, queue).Queued(i, queue)
    {
    }

    lemma {:induction false} UnlinkQueued(i: MuxIface, f: MuxFilter)
      requires i in lists
      ensures forall x, q | Queued(x, q) :: Unlink(i, f).Queued(x, q)
    {
    }

    lemma {:induction false} LinkSteered(ifs: seq<MuxIface>, hs: seq<FilterHandle>, i: MuxIface, f: MuxFilter,
        queue: nat, isSta: bool, rules: map<nat, Rule>)
      requires Agree(ifs, hs) && Steered(isSta, rules) && i in lists && f.handle.prio !in Prios(hs)
      ensures Link(i, f, queue).Steered(isSta, rules[f.handle.prio := RuleFor(isSta, f.da, queue)])
    {
      PriosDiffer(ifs, hs);
      hide Agree, RuleFor;
    }

    lemma {:induction false} UnlinkSteered(ifs: seq<MuxIface>, hs: seq<FilterHandle>, i: MuxIface, f: MuxFilter,
        isSta: bool, rules: map<nat, Rule>)
      requires Agree(ifs, hs) && Steered(isSta, rules) && i in ifs && i in lists && f in lists[i]
      ensures Unlink(i, f).Steered(isSta, rules - {f.handle.prio})
    {
      PriosDiffer(ifs, hs);
      ListedFilter(ifs, hs, i, f);
      hide Agree, RuleFor;
    }

    /** There are as many mapped addresses as TC handles. */
    lemma {:induction false} CountsAgree(ifs: seq<MuxIface>, hs: seq<FilterHandle>)
      requires Agree(ifs, hs)
      ensures |table| == |MapOf(table)| == |hs|
    {
      var prioOf := map a | a in table :: table[a].handle.prio;
      forall a | a in table ensures prioOf[a] in Prios(hs) && dest[prioOf[a]] == a {
        assert Handled(a, hs);
      }
      forall z | z in Prios(hs) ensures exists a :: a in table.Keys && prioOf[a] == z {
        var h :| h in hs && h.prio == z;
        assert Owned(h);
        assert prioOf[dest[z]] == z;
      }
      SameSize(table.Keys, Prios(hs), prioOf);
      PriosSize(hs);
      assert MapOf(table).Keys == table.Keys;
    }
  }

  lemma {:induction false} MapOfRemove(table: map<Mac, Entry>, a: Mac)
    ensures MapOf(table - {a}) == MapOf(table) - {a}
    ensures a in MapOf(table) <==> a in table
  {
  }

  lemma {:induction false} MapOfEmpty(table: map<Mac, Entry>)
    requires MapOf(table) == map[]
    ensures table == map[]
  {
    assert forall a | a in table :: a in MapOf(table);
  }

  lemma {:induction false} MapOfPut(table: map<Mac, Entry>, a: Mac, e: Entry)
    ensures MapOf(table[a := e]) == MapOf(table)[a := e.owner.ifname]
  {
  }

  /** Dropping the entries of one owner is dropping the keys mapped to its name. */
  lemma {:induction false} MapOfDrop(table: map<Mac, Entry>, ifs: seq<MuxIface>, iface: MuxIface)
    requires DistinctNames(ifs) && iface in ifs && forall a | a in table :: table[a].owner in ifs
    ensures MapOf(map a | a in table && table[a].owner != iface :: table[a])
         == map a | a in MapOf(table) && MapOf(table)[a] != iface.ifname :: MapOf(table)[a]
  {
    NamesNoDup(ifs);
  }

  lemma {:induction false} RemoveThenPut(m: map<Mac, string>, a: Mac, name: string)
    ensures a !in m ==> m - {a} == m
    ensures a !in m - {a}
    ensures (m - {a})[a := name] == m[a := name]
  {
  }

  lemma {:induction false} NamesNoDup(ifs: seq<MuxIface>)
    requires DistinctNames(ifs)
    ensures NoDup(ifs)
    ensures forall i, j | i in ifs && j in ifs && i != j :: i.ifname != j.ifname
  {
  }

  lemma {:induction false} WithoutNames(ifs: seq<MuxIface>, iface: MuxIface)
    requires DistinctNames(ifs)
    ensures DistinctNames(Without(ifs, iface))
    ensures iface in ifs ==> NamesOf(Without(ifs, iface)) == NamesOf(ifs) - {iface.ifname}
  {
    NamesNoDup(ifs);
    WithoutNoDup(ifs, iface);
    var r := Without(ifs, iface);
    forall i, j | 0 <= i < j < |r| ensures r[i].ifname != r[j].ifname {
      assert r[i] in r && r[j] in r && r[i] in ifs && r[j] in ifs && r[i] != r[j];
    }
  }
}

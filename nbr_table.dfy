/**
 * `uip-ds6-nbr.c`: one neighbour table (`nbr_table_t` holding
 * `uip_ds6_nbr_t` records) and the cache operations that act on it. The
 * table object is the mutable state; every method is proved against the
 * functions of `Ds6NbrSpec`.
 */
module Ds6Nbr {
  import opened Wrappers
  import opened Ipv6
  import opened Ds6NbrSpec

  lemma UpdateAtSeam(done: seq<Entry>, rest: seq<Entry>, x: Entry)
    requires |rest| > 0
    ensures (done + rest)[|done| := x] == (done + [x]) + rest[1..]
  {
  }

  lemma RemoveAtSeam(done: seq<Entry>, rest: seq<Entry>)
    requires |rest| > 0
    ensures RemoveAt(done + rest, |done|) == done + rest[1..]
  {
    assert (done + rest)[..|done|] == done;
    assert (done + rest)[|done| + 1..] == rest[1..];
  }

  /**
   * The state of the periodic walk after `k` records of `orig`: the table is
   * the pass over those records followed by the records not yet visited,
   * `i` is the slot of the next one, and the solicitations and default
   * routes are those of the pass so far.
   */
  ghost predicate Walked(es: seq<Entry>, orig: seq<Entry>, k: nat, cfg: NdConfig, env: TickEnv, defrt: DefrtTable,
                         i: nat, sent: seq<NsOutput>, defrtOut: DefrtTable)
    requires k <= |orig|
  {
    var p := Periodic(orig[..k], cfg, env, defrt);
    es == p.entries + orig[k..] && i == |p.entries| && sent == p.sent && defrtOut == p.defrt
  }

  /** A walk that has visited every record of `orig` ends in the pass over the whole of `orig`. */
  lemma WalkedAll(es: seq<Entry>, orig: seq<Entry>, k: nat, cfg: NdConfig, env: TickEnv, defrt: DefrtTable,
                  i: nat, sent: seq<NsOutput>, defrtOut: DefrtTable)
    requires k == |orig| && Walked(es, orig, k, cfg, env, defrt, i, sent, defrtOut)
    ensures Periodic(orig, cfg, env, defrt) == Pass(es, sent, defrtOut)
  {
    assert orig[..k] == orig;
  }

  /** A pass keeps a table within its capacity and its keys unique. */
  lemma PeriodicFits(es: seq<Entry>, capacity: nat, cfg: NdConfig, env: TickEnv, defrt: DefrtTable)
    requires |es| <= capacity && UniqueKeys(es)
    ensures |Periodic(es, cfg, env, defrt).entries| <= capacity && UniqueKeys(Periodic(es, cfg, env, defrt).entries)
  {
    PeriodicUnique(es, cfg, env, defrt);
  }

  /** The record the table adapter hands out for a new key: all fields zero (`NBR_INCOMPLETE` is 0). */
  function ZeroNbr(): Nbr
  {
    Nbr(seq(16, _ => 0), false, Incomplete, STimer(0), STimer(0), 0)
  }

  /**
   * A neighbour table: its slots in iteration order, each a link-layer key and
   * a record. A record pointer of the source is the index of its slot; NULL is
   * `None`.
   */
  class NbrTable {
    const capacity: nat
    var entries: seq<Entry>

    ghost predicate Valid()
      reads this
    {
      |entries| <= capacity && UniqueKeys(entries)
    }

    constructor (capacity: nat)
      ensures Valid()
      ensures this.capacity == capacity && entries == []
    {
      this.capacity := capacity;
      entries := [];
    }

    /** `nbr_table_add_lladdr`: the slot keyed by `ll`, reset to zero, or a new zeroed slot; none when full. */
    method AddLladdr(ll: LlAddr) returns (h: Option<nat>)
      requires Valid()
      modifies this
      ensures Valid()
      ensures entries == AddSpec(old(entries), capacity, ll, ZeroNbr()).entries
      ensures h == AddSpec(old(entries), capacity, ll, ZeroNbr()).handle
    {
      h := KeyIndex(entries, ll);
      if h.Some? {
        entries := entries[h.value := Entry(ll, ZeroNbr())];
      } else if |entries| < capacity {
        entries := entries + [Entry(ll, ZeroNbr())];
        h := Some(|entries| - 1);
      }
    }

    /**
     * `uip_ds6_nbr_add`: either fails, returning NULL with the table
     * unchanged, or returns the slot of `lladdr`, whose record now holds the
     * given address, router flag and state, two expired timers and a zero
     * solicitation count; no other slot changes.
     */
    method Add(ipaddr: IpAddr, lladdr: LlAddr, isrouter: bool, state: NbrState, now: nat) returns (h: Option<nat>)
      requires Valid()
      modifies this
      ensures Valid()
      ensures entries == AddSpec(old(entries), capacity, lladdr, NewNbr(ipaddr, isrouter, state, now)).entries
      ensures h == AddSpec(old(entries), capacity, lladdr, NewNbr(ipaddr, isrouter, state, now)).handle
      ensures h.None? ==> entries == old(entries)
      ensures h.Some? ==> h.value < |entries| && entries[h.value].lladdr == lladdr
      ensures h.Some? ==> var n := entries[h.value].nbr;
                          && n.ipaddr == ipaddr && n.isrouter == isrouter && n.state == state
                          && n.nscount == 0 && Expired(n.reachable, now) && Expired(n.sendns, now)
      ensures forall j :: 0 <= j < |old(entries)| && Some(j) != h ==> entries[j] == old(entries)[j]
    {
      ghost var was := entries;
      h := AddLladdr(lladdr);
      if h.Some? {
        var i := h.value;
        var n := entries[i].nbr;
        n := n.(ipaddr := ipaddr, isrouter := isrouter, state := state);
        n := n.(reachable := TimerSet(now, 0), sendns := TimerSet(now, 0));
        n := n.(nscount := 0);
        entries := entries[i := Entry(lladdr, n)];
        assert n == NewNbr(ipaddr, isrouter, state, now);
        assert entries == AddSpec(was, capacity, lladdr, n).entries;
      }
    }

    /**
     * `uip_ds6_nbr_rm`: NULL is a no-op; otherwise exactly the given slot
     * leaves the table and the others keep their order.
     */
    method Remove(h: Option<nat>)
      requires h.Some? ==> h.value < |entries|
      modifies this
      ensures entries == if h.None? then old(entries) else RemoveAt(old(entries), h.value)
      ensures old(Valid()) ==> Valid()
    {
      if h.Some? {
        if Valid() {
          RemoveAtKeys(entries, h.value);
        }
        entries := RemoveAt(entries, h.value);
      }
    }

    /** `uip_ds6_nbr_get_ipaddr`: the address of the record, NULL for NULL. */
    function GetIpaddr(h: Option<nat>): (r: Option<IpAddr>)
      reads this
      requires h.Some? ==> h.value < |entries|
      ensures r.Some? <==> h.Some?
      ensures h.Some? ==> r.value == entries[h.value].nbr.ipaddr
    {
      if h.Some? then Some(entries[h.value].nbr.ipaddr) else None
    }

    /** `uip_ds6_nbr_get_ll`: the link-layer key of the record, NULL for NULL. */
    function GetLl(h: Option<nat>): (r: Option<LlAddr>)
      reads this
      requires h.Some? ==> h.value < |entries|
      ensures r.Some? <==> h.Some?
      ensures h.Some? ==> r.value == entries[h.value].lladdr
    {
      if h.Some? then Some(entries[h.value].lladdr) else None
    }

    /** `uip_ds6_nbr_num`: the number of records, counted by walking the table. */
    method Num() returns (num: nat)
      ensures num == |entries|
    {
      num := 0;
      var i := 0;
      while i < |entries|
        invariant 0 <= i <= |entries|
        invariant num == i
      {
        num := num + 1;
        i := i + 1;
      }
    }

    /**
     * `uip_ds6_nbr_lookup`: the first record in table order whose address
     * equals `ipaddr`; NULL when none does or the key is NULL.
     */
    method Lookup(ipaddr: Option<IpAddr>) returns (h: Option<nat>)
      ensures h.Some? ==> ipaddr.Some? && h.value < |entries| && entries[h.value].nbr.ipaddr == ipaddr.value
      ensures h.Some? ==> forall j :: 0 <= j < h.value ==> entries[j].nbr.ipaddr != ipaddr.value
      ensures h.None? <==> ipaddr.None? || forall j :: 0 <= j < |entries| ==> entries[j].nbr.ipaddr != ipaddr.value
      ensures h == FirstIp(entries, ipaddr)
    {
      if ipaddr.Some? {
        var i := 0;
        while i < |entries|
          invariant 0 <= i <= |entries|
          invariant forall j :: 0 <= j < i ==> entries[j].nbr.ipaddr != ipaddr.value
        {
          if entries[i].nbr.ipaddr == ipaddr.value {
            return Some(i);
          }
          i := i + 1;
        }
      }
      return None;
    }

    /** `uip_ds6_nbr_ll_lookup`: the record keyed by `lladdr`, NULL when there is none. */
    function LlLookup(lladdr: LlAddr): (h: Option<nat>)
      reads this
      ensures h.Some? ==> h.value < |entries| && entries[h.value].lladdr == lladdr
      ensures h.None? <==> forall j :: 0 <= j < |entries| ==> entries[j].lladdr != lladdr
    {
      KeyIndex(entries, lladdr)
    }

    /** `uip_ds6_nbr_ipaddr_from_lladdr`: the address of the record keyed by `lladdr`, NULL when there is none. */
    function IpaddrFromLladdr(lladdr: LlAddr): (r: Option<IpAddr>)
      reads this
      ensures r.Some? ==> exists j :: 0 <= j < |entries| && entries[j].lladdr == lladdr && entries[j].nbr.ipaddr == r.value
      ensures r.None? <==> forall j :: 0 <= j < |entries| ==> entries[j].lladdr != lladdr
    {
      GetIpaddr(LlLookup(lladdr))
    }

    /**
     * `uip_ds6_nbr_lladdr_from_ipaddr`: the key of the first record in table
     * order holding `ipaddr`; NULL when none does or the key is NULL.
     */
    method LladdrFromIpaddr(ipaddr: Option<IpAddr>) returns (r: Option<LlAddr>)
      ensures r.None? <==> ipaddr.None? || forall j :: 0 <= j < |entries| ==> entries[j].nbr.ipaddr != ipaddr.value
      ensures r.Some? ==> exists i :: && 0 <= i < |entries| && entries[i].lladdr == r.value
                                      && entries[i].nbr.ipaddr == ipaddr.value
                                      && forall j :: 0 <= j < i ==> entries[j].nbr.ipaddr != ipaddr.value
    {
      var h := Lookup(ipaddr);
      r := if h.Some? then GetLl(h) else None;
    }

    /**
     * `uip_ds6_link_neighbor_callback`, run on the general neighbour cache: a
     * link-layer ACK for a non-null receiver whose record is STALE, DELAY or
     * PROBE makes it REACHABLE and restarts its reachable timer; nothing else
     * changes. `numtx` only reaches the notification hook, which is not modelled.
     */
    method LinkNeighborCallback(dest: LlAddr, status: MacTxStatus, numtx: int, cfg: NdConfig, now: nat)
      requires Valid()
      modifies this
      ensures Valid()
      ensures entries == LinkCallback(old(entries), dest, status, cfg, now)
    {
      if IsNullLl(dest) {
        return;
      }
      if cfg.llNud && status == TxOk {
        var h := LlLookup(dest);
        if h.Some? {
          var n := entries[h.value].nbr;
          if n.state == Stale || n.state == Delay || n.state == Probe {
            n := n.(state := Reachable);
            n := n.(reachable := TimerSet(now, cfg.reachableTimeMs / 1000));
            entries := entries[h.value := entries[h.value].(nbr := n)];
          }
        }
      }
    }

    /**
     * `uip_ds6_neighbor_periodic`: one pass over the table in order, each
     * record ticked once; records whose retry budget is spent are removed
     * (the walk goes on from the removed record's successor), and a PROBE
     * record that gives up takes a finite default route through its address
     * with it. Returns the solicitations sent and the new default routes.
     */
    method NeighborPeriodic(cfg: NdConfig, env: TickEnv, defrt: DefrtTable) returns (sent: seq<NsOutput>, defrtOut: DefrtTable)
      requires Valid()
      modifies this
      ensures Valid()
      ensures entries == Periodic(old(entries), cfg, env, defrt).entries
      ensures sent == Periodic(old(entries), cfg, env, defrt).sent
      ensures defrtOut == Periodic(old(entries), cfg, env, defrt).defrt
    {
      ghost var orig := entries;
      sent, defrtOut := Walk(cfg, env, defrt);
      PeriodicFits(orig, capacity, cfg, env, defrt);
    }

    /**
     * The `while` loop of `uip_ds6_neighbor_periodic`, from the head of the
     * table to its end: it visits the records present when it starts, one
     * per iteration, `i` being the slot of the record it is at.
     */
    method Walk(cfg: NdConfig, env: TickEnv, defrt: DefrtTable) returns (sent: seq<NsOutput>, defrtOut: DefrtTable)
      modifies this
      ensures Periodic(old(entries), cfg, env, defrt) == Pass(entries, sent, defrtOut)
    {
      ghost var orig := entries;
      sent, defrtOut := [], defrt;
      var i: nat := 0;
      var k: nat := 0;
      var count := |entries|;
      while k < count
        invariant count == |orig| && k <= count
        invariant Walked(entries, orig, k, cfg, env, defrt, i, sent, defrtOut)
      {
        i, sent, defrtOut := PeriodicStep(orig, k, cfg, env, defrt, i, sent, defrtOut);
        k := k + 1;
      }
      WalkedAll(entries, orig, k, cfg, env, defrt, i, sent, defrtOut);
    }

    /** One iteration of the periodic walk: the record in slot `i`, the `k`-th of `orig`, is ticked. */
    method PeriodicStep(ghost orig: seq<Entry>, ghost k: nat, cfg: NdConfig, env: TickEnv, ghost defrt: DefrtTable,
                        i: nat, sentIn: seq<NsOutput>, defrtIn: DefrtTable)
      returns (next: nat, sent: seq<NsOutput>, defrtOut: DefrtTable)
      requires k < |orig| && Walked(entries, orig, k, cfg, env, defrt, i, sentIn, defrtIn)
      modifies this
      ensures Walked(entries, orig, k + 1, cfg, env, defrt, next, sent, defrtOut)
    {
      ghost var done := Periodic(orig[..k], cfg, env, defrt).entries;
      PeriodicSnoc(orig, k, cfg, env, defrt);
      assert entries[i] == orig[k];
      var removed;
      removed, sent, defrtOut := TickSlot(i, cfg, env, sentIn, defrtIn);
      ghost var t := Tick(orig[k].nbr, cfg, env);
      next := i;
      if removed {
        assert t.Drop?;
        RemoveAtSeam(done, orig[k..]);
      } else {
        assert t.Keep?;
        UpdateAtSeam(done, orig[k..], Entry(orig[k].lladdr, t.nbr));
        next := i + 1;
      }
      assert orig[k..][1..] == orig[k + 1..];
    }

    /**
     * The `switch` of `uip_ds6_neighbor_periodic` on the record in slot `i`:
     * updates it in place or removes it, as `Tick` says, appending a
     * solicitation sent to `sentIn` and dropping the default route of a PROBE
     * record that gives up.
     */
    method TickSlot(i: nat, cfg: NdConfig, env: TickEnv, sentIn: seq<NsOutput>, defrtIn: DefrtTable)
      returns (removed: bool, sent: seq<NsOutput>, defrtOut: DefrtTable)
      requires i < |entries|
      modifies this
      ensures removed <==> Tick(old(entries[i].nbr), cfg, env).Drop?
      ensures match Tick(old(entries[i].nbr), cfg, env)
              case Keep(n, ns) =>
                && entries == old(entries)[i := Entry(old(entries[i].lladdr), n)]
                && sent == (if ns.Some? then sentIn + [ns.value] else sentIn)
                && defrtOut == defrtIn
              case Drop(probeEnd) =>
                && entries == RemoveAt(old(entries), i)
                && sent == sentIn
                && defrtOut == if probeEnd then DropDefrt(defrtIn, old(entries[i].nbr.ipaddr)) else defrtIn
    {
      sent, defrtOut := sentIn, defrtIn;
      removed := false;
      var nbr := entries[i].nbr;
      match nbr.state {
        case Reachable =>
          if Expired(nbr.reachable, env.now) {
            entries := entries[i := entries[i].(nbr := nbr.(state := Stale))];
          }
        case Incomplete =>
          if cfg.sendNa {
            if nbr.nscount >= cfg.maxMulticastSolicit {
              Remove(Some(i));
              removed := true;
            } else if Expired(nbr.sendns, env.now) && env.uipLenZero {
              nbr := nbr.(nscount := nbr.nscount + 1);
              sent := sent + [NsOutput(None, None, nbr.ipaddr)];
              nbr := nbr.(sendns := TimerSet(env.now, env.retransTimerMs / 1000));
              entries := entries[i := entries[i].(nbr := nbr)];
            }
          }
        case Delay =>
          if cfg.sendNa && Expired(nbr.reachable, env.now) {
            nbr := nbr.(state := Probe, nscount := 0);
            nbr := nbr.(sendns := TimerSet(env.now, 0));
            entries := entries[i := entries[i].(nbr := nbr)];
          }
        case Probe =>
          if cfg.sendNa {
            if nbr.nscount >= cfg.maxUnicastSolicit {
              if nbr.ipaddr in defrtOut && !defrtOut[nbr.ipaddr] {
                defrtOut := defrtOut - {nbr.ipaddr};
              }
              Remove(Some(i));
              removed := true;
            } else if Expired(nbr.sendns, env.now) && env.uipLenZero {
              nbr := nbr.(nscount := nbr.nscount + 1);
              sent := sent + [NsOutput(None, Some(nbr.ipaddr), nbr.ipaddr)];
              nbr := nbr.(sendns := TimerSet(env.now, env.retransTimerMs / 1000));
              entries := entries[i := entries[i].(nbr := nbr)];
            }
          }
        case Stale =>
      }
    }

    /**
     * `uip_ds6_get_least_lifetime_neighbor`, with each record compared to the
     * one chosen so far (the comparison on line 309 sets a record against
     * itself; `LeastLifetimeAsWritten` models that): the record whose
     * reachable timer has the least time left, the first of them on a tie;
     * NULL for an empty table.
     */
    method GetLeastLifetimeNeighbor(now: nat) returns (expiring: Option<nat>)
      ensures expiring == LeastLifetime(entries, now)
      ensures expiring.None? <==> entries == []
      ensures expiring.Some? ==> expiring.value < |entries| && forall j :: 0 <= j < |entries| ==>
                Remaining(entries[expiring.value].nbr.reachable, now) <= Remaining(entries[j].nbr.reachable, now)
    {
      var i := 0;
      expiring := None;
      while i < |entries|
        invariant 0 <= i <= |entries|
        invariant expiring == LeastLifetime(entries[..i], now)
      {
        assert entries[..i + 1][..i] == entries[..i];
        if expiring.Some? {
          var curr := Remaining(entries[i].nbr.reachable, now);
          if curr < Remaining(entries[expiring.value].nbr.reachable, now) {
            expiring := Some(i);
          }
        } else {
          expiring := Some(i);
        }
        i := i + 1;
      }
      assert entries[..i] == entries;
    }
  }
}

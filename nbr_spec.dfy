/**
 * The neighbour record of the IPv6 neighbour cache, a neighbour table seen
 * as the sequence of its slots in iteration order (`nbr_table_head`,
 * `nbr_table_next`), and each table operation of the cache specified as a
 * function of that sequence.
 */
module Ds6NbrSpec {
  import opened Wrappers
  import opened Ipv6

  /** The neighbour states of section 7.3.2 of RFC 4861 (`NBR_INCOMPLETE` .. `NBR_PROBE`). */
  datatype NbrState = Incomplete | Reachable | Stale | Delay | Probe

  /** A soft timer (`struct stimer`), seen through the second at which it expires. */
  datatype STimer = STimer(deadline: nat)

  /** `stimer_expired`: the clock has reached the deadline. */
  predicate Expired(t: STimer, now: nat)
  {
    now >= t.deadline
  }

  /** `stimer_set(t, seconds)` at second `now`; zero seconds leaves the timer already expired. */
  function TimerSet(now: nat, seconds: nat): (t: STimer)
    ensures Expired(t, now) <==> seconds == 0
  {
    STimer(now + seconds)
  }

  /** A timer set for `seconds` at `now` stays expired from `now + seconds` on, and not before. */
  lemma TimerSetExpires(now: nat, seconds: nat, later: nat)
    ensures Expired(TimerSet(now, seconds), later) <==> later >= now + seconds
  {
  }

  /** `stimer_remaining`, taken as zero once the timer has expired. */
  function Remaining(t: STimer, now: nat): (r: nat)
    ensures r == 0 <==> Expired(t, now)
  {
    if t.deadline > now then t.deadline - now else 0
  }

  /** `uip_ds6_nbr_t`: one neighbour record. `nscount` is the source's `uint8_t`. */
  datatype Nbr = Nbr(ipaddr: IpAddr, isrouter: bool, state: NbrState,
                     reachable: STimer, sendns: STimer, nscount: byte)

  /** One slot of a neighbour table: the link-layer key and the record stored under it. */
  datatype Entry = Entry(lladdr: LlAddr, nbr: Nbr)

  /** The build-time constants and switches the neighbour cache reads. */
  datatype NdConfig = NdConfig(
    maxMulticastSolicit: byte,  // UIP_ND6_MAX_MULTICAST_SOLICIT
    maxUnicastSolicit: byte,    // UIP_ND6_MAX_UNICAST_SOLICIT
    reachableTimeMs: nat,       // UIP_ND6_REACHABLE_TIME, in milliseconds
    sendNa: bool,               // UIP_ND6_SEND_NA
    llNud: bool)                // UIP_DS6_LL_NUD

  /** What one periodic pass reads besides the table: the clock, `uip_ds6_if.retrans_timer` and `uip_len == 0`. */
  datatype TickEnv = TickEnv(now: nat, retransTimerMs: nat, uipLenZero: bool)

  // ---------------------------------------------------------------------------
  // Keys

  /** A neighbour table holds at most one slot per link-layer address. */
  predicate UniqueKeys(es: seq<Entry>)
  {
    forall i, j :: 0 <= i < j < |es| ==> es[i].lladdr != es[j].lladdr
  }

  /** `nbr_table_get_from_lladdr`: the slot keyed by `ll`, if there is one. */
  function KeyIndex(es: seq<Entry>, ll: LlAddr): (r: Option<nat>)
    ensures r.Some? ==> r.value < |es| && es[r.value].lladdr == ll
    ensures r.Some? ==> forall j :: 0 <= j < r.value ==> es[j].lladdr != ll
    ensures r.None? <==> forall j :: 0 <= j < |es| ==> es[j].lladdr != ll
    decreases |es|
  {
    if es == [] then None
    else
      match KeyIndex(es[..|es| - 1], ll)
      case Some(i) => Some(i)
      case None => if es[|es| - 1].lladdr == ll then Some(|es| - 1) else None
  }

  /** The record stored under `ll`, if any. */
  function Find(es: seq<Entry>, ll: LlAddr): Option<Nbr>
  {
    match KeyIndex(es, ll)
    case Some(i) => Some(es[i].nbr)
    case None => None
  }

  lemma KeyIndexAppend(es: seq<Entry>, e: Entry, ll: LlAddr)
    ensures KeyIndex(es + [e], ll) ==
      if KeyIndex(es, ll).Some? then KeyIndex(es, ll)
      else if e.lladdr == ll then Some(|es|) else None
  {
    assert (es + [e])[..|es|] == es;
  }

  lemma FindAppend(es: seq<Entry>, e: Entry, ll: LlAddr)
    ensures Find(es + [e], ll) ==
      if Find(es, ll).Some? then Find(es, ll)
      else if e.lladdr == ll then Some(e.nbr) else None
  {
    KeyIndexAppend(es, e, ll);
  }

  lemma UniqueKeysAppend(es: seq<Entry>, e: Entry)
    requires UniqueKeys(es) && KeyIndex(es, e.lladdr).None?
    ensures UniqueKeys(es + [e])
  {
  }

  // ---------------------------------------------------------------------------
  // Lookup by IPv6 address

  /** The scan of `uip_ds6_nbr_lookup`: the first slot, in table order, whose record holds `ip`; none for a null key. */
  function FirstIp(es: seq<Entry>, ip: Option<IpAddr>): (r: Option<nat>)
    ensures r.Some? ==> ip.Some? && r.value < |es| && es[r.value].nbr.ipaddr == ip.value
    ensures r.Some? ==> forall j :: 0 <= j < r.value ==> es[j].nbr.ipaddr != ip.value
    ensures r.None? <==> ip.None? || forall j :: 0 <= j < |es| ==> es[j].nbr.ipaddr != ip.value
    decreases |es|
  {
    if es == [] || ip.None? then None
    else
      match FirstIp(es[..|es| - 1], ip)
      case Some(i) => Some(i)
      case None => if es[|es| - 1].nbr.ipaddr == ip.value then Some(|es| - 1) else None
  }

  // ---------------------------------------------------------------------------
  // Adding and removing

  /** The record `uip_ds6_nbr_add` stores: the given fields, both timers set to zero seconds, no solicitation sent. */
  function NewNbr(ip: IpAddr, isrouter: bool, state: NbrState, now: nat): (n: Nbr)
    ensures n.ipaddr == ip && n.isrouter == isrouter && n.state == state && n.nscount == 0
    ensures Expired(n.reachable, now) && Expired(n.sendns, now)
  {
    Nbr(ip, isrouter, state, TimerSet(now, 0), TimerSet(now, 0), 0)
  }

  /** A table after an add, and the slot the add returned (none when it failed). */
  datatype Added = Added(entries: seq<Entry>, handle: Option<nat>)

  /**
   * `nbr_table_add_lladdr` followed by the initialisation of the record: the
   * slot already keyed by `ll` is reused, otherwise a new slot is taken at the
   * end while the table has room, otherwise the add fails.
   */
  function AddSpec(es: seq<Entry>, capacity: nat, ll: LlAddr, n: Nbr): (r: Added)
    requires UniqueKeys(es)
    ensures UniqueKeys(r.entries)
    ensures r.handle.None? <==> KeyIndex(es, ll).None? && |es| >= capacity
    ensures r.handle.None? ==> r.entries == es
    ensures r.handle.Some? ==> r.handle.value < |r.entries| && r.entries[r.handle.value] == Entry(ll, n)
    ensures r.handle.Some? ==> KeyIndex(r.entries, ll) == r.handle
    ensures |es| <= |r.entries| <= |es| + 1
    ensures forall j :: 0 <= j < |es| && Some(j) != r.handle ==> r.entries[j] == es[j]
    ensures |es| <= capacity ==> |r.entries| <= capacity
  {
    match KeyIndex(es, ll)
    case Some(i) => Added(es[i := Entry(ll, n)], Some(i))
    case None =>
      if |es| < capacity then Added(es + [Entry(ll, n)], Some(|es|)) else Added(es, None)
  }

  /**
   * Where an add puts its record: a known key keeps the table size, and a new
   * key, when there is room, is appended after every existing slot.
   */
  lemma AddSpecPlacement(es: seq<Entry>, capacity: nat, ll: LlAddr, n: Nbr)
    requires UniqueKeys(es)
    ensures KeyIndex(es, ll).Some? ==> |AddSpec(es, capacity, ll, n).entries| == |es|
    ensures KeyIndex(es, ll).None? && |es| < capacity ==> AddSpec(es, capacity, ll, n) == Added(es + [Entry(ll, n)], Some(|es|))
  {
  }

  /** `nbr_table_remove`: the table without slot `i`, the others kept in order. */
  function RemoveAt(es: seq<Entry>, i: nat): (r: seq<Entry>)
    requires i < |es|
    ensures |r| == |es| - 1
    ensures forall j :: 0 <= j < i ==> r[j] == es[j]
    ensures forall j :: i <= j < |r| ==> r[j] == es[j + 1]
  {
    es[..i] + es[i + 1..]
  }

  /** Removing a slot forgets exactly its key and keeps the key of every other slot. */
  lemma RemoveAtKeys(es: seq<Entry>, i: nat)
    requires UniqueKeys(es) && i < |es|
    ensures UniqueKeys(RemoveAt(es, i))
    ensures KeyIndex(RemoveAt(es, i), es[i].lladdr).None?
    ensures forall ll :: ll != es[i].lladdr ==> Find(RemoveAt(es, i), ll) == Find(es, ll)
  {
    forall ll | ll != es[i].lladdr
      ensures Find(RemoveAt(es, i), ll) == Find(es, ll)
    {
      RemoveAtFind(es, i, ll);
    }
  }

  /** A slot keyed by `ll` with no earlier slot keyed by `ll` is the one the lookup finds. */
  lemma KeyIndexIs(es: seq<Entry>, ll: LlAddr, m: nat)
    requires m < |es| && es[m].lladdr == ll
    requires forall j :: 0 <= j < m ==> es[j].lladdr != ll
    ensures KeyIndex(es, ll) == Some(m)
  {
    var v := KeyIndex(es, ll);
    assert v.Some?;
  }

  lemma RemoveAtFind(es: seq<Entry>, i: nat, ll: LlAddr)
    requires i < |es| && ll != es[i].lladdr
    ensures Find(RemoveAt(es, i), ll) == Find(es, ll)
  {
    var r := RemoveAt(es, i);
    var a := KeyIndex(r, ll);
    if a.Some? {
      var k := a.value;
      var m := if k < i then k else k + 1;
      assert es[m] == r[k];
      forall j | 0 <= j < m
        ensures es[j].lladdr != ll
      {
        if j < i {
          assert es[j] == r[j];
        } else if j > i {
          assert es[j] == r[j - 1];
        }
      }
      KeyIndexIs(es, ll, m);
    } else {
      forall j | 0 <= j < |es|
        ensures es[j].lladdr != ll
      {
        if j < i {
          assert es[j] == r[j];
        } else if j > i {
          assert es[j] == r[j - 1];
        }
      }
    }
  }

  // ---------------------------------------------------------------------------
  // Neighbour Unreachability Detection: one record in one periodic pass

  /** The solicitation `uip_nd6_ns_output(src, dest, tgt)` emits; a null destination is the solicited-node multicast. */
  datatype NsOutput = NsOutput(src: Option<IpAddr>, dest: Option<IpAddr>, target: IpAddr)

  /** What a periodic pass does to one record: keep it (possibly updated, possibly after soliciting) or drop it. */
  datatype TickStep = Keep(nbr: Nbr, ns: Option<NsOutput>) | Drop(probeEnd: bool)

  /** The retry budgets of sections 7.2.2 and 7.3.3 of RFC 4861. */
  predicate WithinBudget(n: Nbr, cfg: NdConfig)
  {
    && (n.state == Incomplete ==> n.nscount <= cfg.maxMulticastSolicit)
    && (n.state == Probe ==> n.nscount <= cfg.maxUnicastSolicit)
  }

  /** An INCOMPLETE record whose multicast budget is spent. */
  predicate IncompleteGivesUp(n: Nbr, cfg: NdConfig)
  {
    cfg.sendNa && n.state == Incomplete && n.nscount >= cfg.maxMulticastSolicit
  }

  /** A PROBE record whose unicast budget is spent. */
  predicate ProbeGivesUp(n: Nbr, cfg: NdConfig)
  {
    cfg.sendNa && n.state == Probe && n.nscount >= cfg.maxUnicastSolicit
  }

  /** A record that solicits in this pass: budget left, send timer expired, output buffer free. */
  predicate Solicits(n: Nbr, cfg: NdConfig, env: TickEnv)
  {
    && cfg.sendNa && env.uipLenZero && Expired(n.sendns, env.now)
    && ((n.state == Incomplete && n.nscount < cfg.maxMulticastSolicit)
        || (n.state == Probe && n.nscount < cfg.maxUnicastSolicit))
  }

  /** The body of the `switch` in `uip_ds6_neighbor_periodic`, for one record. */
  function Tick(n: Nbr, cfg: NdConfig, env: TickEnv): (r: TickStep)
    // only a spent budget removes a record, and only in INCOMPLETE or PROBE
    ensures r.Drop? <==> IncompleteGivesUp(n, cfg) || ProbeGivesUp(n, cfg)
    ensures r.Drop? ==> (r.probeEnd <==> n.state == Probe)
    // a surviving record keeps its address, router flag and reachable timer
    ensures r.Keep? ==> r.nbr.ipaddr == n.ipaddr && r.nbr.isrouter == n.isrouter && r.nbr.reachable == n.reachable
    // a solicitation is sent exactly when one is due, counted once, and re-arms the send timer
    ensures (r.Keep? && r.ns.Some?) <==> Solicits(n, cfg, env)
    ensures r.Keep? && r.ns.Some? ==>
      && r.nbr == n.(nscount := n.nscount + 1, sendns := TimerSet(env.now, env.retransTimerMs / 1000))
      && r.ns.value == NsOutput(None, if n.state == Incomplete then None else Some(n.ipaddr), n.ipaddr)
    // the only state changes: REACHABLE to STALE and DELAY to PROBE, each once the reachable timer expired
    ensures n.state == Reachable ==> r == Keep(n.(state := if Expired(n.reachable, env.now) then Stale else Reachable), None)
    ensures n.state == Delay ==>
              && r.Keep? && r.ns.None?
              && r.nbr == if cfg.sendNa && Expired(n.reachable, env.now)
                          then n.(state := Probe, nscount := 0, sendns := TimerSet(env.now, 0)) else n
    ensures n.state == Stale ==> r == Keep(n, None)
    ensures r.Keep? && r.ns.None? && n.state in {Incomplete, Probe} ==> r.nbr == n
    // with the solicitation code compiled in, every survivor is within its budget
    ensures cfg.sendNa && r.Keep? ==> WithinBudget(r.nbr, cfg)
  {
    match n.state
    case Reachable =>
      if Expired(n.reachable, env.now) then Keep(n.(state := Stale), None) else Keep(n, None)
    case Incomplete =>
      if !cfg.sendNa then Keep(n, None)
      else if n.nscount >= cfg.maxMulticastSolicit then Drop(false)
      else if Expired(n.sendns, env.now) && env.uipLenZero then
        Keep(n.(nscount := n.nscount + 1, sendns := TimerSet(env.now, env.retransTimerMs / 1000)),
             Some(NsOutput(None, None, n.ipaddr)))
      else Keep(n, None)
    case Delay =>
      if cfg.sendNa && Expired(n.reachable, env.now)
      then Keep(n.(state := Probe, nscount := 0, sendns := TimerSet(env.now, 0)), None)
      else Keep(n, None)
    case Probe =>
      if !cfg.sendNa then Keep(n, None)
      else if n.nscount >= cfg.maxUnicastSolicit then Drop(true)
      else if Expired(n.sendns, env.now) && env.uipLenZero then
        Keep(n.(nscount := n.nscount + 1, sendns := TimerSet(env.now, env.retransTimerMs / 1000)),
             Some(NsOutput(None, Some(n.ipaddr), n.ipaddr)))
      else Keep(n, None)
    case Stale => Keep(n, None)
  }

  /** The default-route table, `uip_ds6_defrt_lookup` by router address to its `isinfinite` flag. */
  type DefrtTable = map<IpAddr, bool>

  /** A PROBE record for `ip` gave up: a default route through `ip` goes too unless it is infinite. */
  function DropDefrt(defrt: DefrtTable, ip: IpAddr): (r: DefrtTable)
    ensures forall a :: a in r <==> a in defrt && (a != ip || defrt[a])
    ensures forall a :: a in r ==> r[a] == defrt[a]
  {
    if ip in defrt && !defrt[ip] then defrt - {ip} else defrt
  }

  /** A table, the solicitations sent and the default routes after a periodic pass. */
  datatype Pass = Pass(entries: seq<Entry>, sent: seq<NsOutput>, defrt: DefrtTable)

  /** `uip_ds6_neighbor_periodic`: every record visited once, in table order. */
  function Periodic(es: seq<Entry>, cfg: NdConfig, env: TickEnv, defrt: DefrtTable): (r: Pass)
    ensures |r.entries| <= |es| && |r.sent| <= |es|
    decreases |es|
  {
    if es == [] then Pass([], [], defrt)
    else
      var p := Periodic(es[..|es| - 1], cfg, env, defrt);
      var e := es[|es| - 1];
      match Tick(e.nbr, cfg, env)
      case Keep(n, ns) =>
        Pass(p.entries + [Entry(e.lladdr, n)], if ns.Some? then p.sent + [ns.value] else p.sent, p.defrt)
      case Drop(probeEnd) =>
        Pass(p.entries, p.sent, if probeEnd then DropDefrt(p.defrt, e.nbr.ipaddr) else p.defrt)
  }

  /** One more record of a pass: the pass over `es[..k + 1]` is the pass over `es[..k]` followed by the tick of `es[k]`. */
  lemma PeriodicSnoc(es: seq<Entry>, k: nat, cfg: NdConfig, env: TickEnv, defrt: DefrtTable)
    requires k < |es|
    ensures var p := Periodic(es[..k], cfg, env, defrt);
            Periodic(es[..k + 1], cfg, env, defrt) ==
              match Tick(es[k].nbr, cfg, env)
              case Keep(n, ns) =>
                Pass(p.entries + [Entry(es[k].lladdr, n)], if ns.Some? then p.sent + [ns.value] else p.sent, p.defrt)
              case Drop(probeEnd) =>
                Pass(p.entries, p.sent, if probeEnd then DropDefrt(p.defrt, es[k].nbr.ipaddr) else p.defrt)
  {
    assert es[..k + 1][..k] == es[..k];
  }

  /** A pass over a table of one record is that record's tick. */
  lemma PeriodicOne(e: Entry, cfg: NdConfig, env: TickEnv, defrt: DefrtTable)
    ensures Periodic([e], cfg, env, defrt) ==
              match Tick(e.nbr, cfg, env)
              case Keep(n, ns) => Pass([Entry(e.lladdr, n)], if ns.Some? then [ns.value] else [], defrt)
              case Drop(probeEnd) => Pass([], [], if probeEnd then DropDefrt(defrt, e.nbr.ipaddr) else defrt)
  {
    assert [e][..0] == [];
  }

  /** The fate of one record in a pass: its ticked version, or nothing once dropped. */
  function Survivor(s: TickStep): Option<Nbr>
  {
    if s.Keep? then Some(s.nbr) else None
  }

  /** A pass adds no key: a key absent before the pass is absent after it. */
  lemma {:induction false} PeriodicNoNewKey(es: seq<Entry>, cfg: NdConfig, env: TickEnv, defrt: DefrtTable, ll: LlAddr)
    requires KeyIndex(es, ll).None?
    ensures KeyIndex(Periodic(es, cfg, env, defrt).entries, ll).None?
    decreases |es|
  {
    if es != [] {
      var pre, e := es[..|es| - 1], es[|es| - 1];
      assert es == pre + [e];
      KeyIndexAppend(pre, e, ll);
      PeriodicNoNewKey(pre, cfg, env, defrt, ll);
      var t := Tick(e.nbr, cfg, env);
      if t.Keep? {
        KeyIndexAppend(Periodic(pre, cfg, env, defrt).entries, Entry(e.lladdr, t.nbr), ll);
      }
    }
  }

  /** A pass keeps the keys of a table unique. */
  lemma {:induction false} PeriodicUnique(es: seq<Entry>, cfg: NdConfig, env: TickEnv, defrt: DefrtTable)
    requires UniqueKeys(es)
    ensures UniqueKeys(Periodic(es, cfg, env, defrt).entries)
    decreases |es|
  {
    if es != [] {
      var pre, e := es[..|es| - 1], es[|es| - 1];
      assert UniqueKeys(pre);
      PeriodicUnique(pre, cfg, env, defrt);
      var t := Tick(e.nbr, cfg, env);
      if t.Keep? {
        assert KeyIndex(pre, e.lladdr).None?;
        PeriodicNoNewKey(pre, cfg, env, defrt, e.lladdr);
        UniqueKeysAppend(Periodic(pre, cfg, env, defrt).entries, Entry(e.lladdr, t.nbr));
      }
    }
  }

  /**
   * A pass ticks each record independently: after it, the record under every
   * key is that key's record ticked once, or is gone when the tick dropped it;
   * no key is added, and keys stay unique.
   */
  lemma {:induction false} PeriodicFate(es: seq<Entry>, cfg: NdConfig, env: TickEnv, defrt: DefrtTable)
    requires UniqueKeys(es)
    ensures UniqueKeys(Periodic(es, cfg, env, defrt).entries)
    ensures forall i :: 0 <= i < |es| ==>
      Find(Periodic(es, cfg, env, defrt).entries, es[i].lladdr) == Survivor(Tick(es[i].nbr, cfg, env))
    ensures forall ll :: KeyIndex(es, ll).None? ==> KeyIndex(Periodic(es, cfg, env, defrt).entries, ll).None?
    decreases |es|
  {
    PeriodicUnique(es, cfg, env, defrt);
    forall ll | KeyIndex(es, ll).None?
      ensures KeyIndex(Periodic(es, cfg, env, defrt).entries, ll).None?
    {
      PeriodicNoNewKey(es, cfg, env, defrt, ll);
    }
    if es != [] {
      var pre, e := es[..|es| - 1], es[|es| - 1];
      assert UniqueKeys(pre);
      PeriodicFate(pre, cfg, env, defrt);
      forall i | 0 <= i < |es|
        ensures Find(Periodic(es, cfg, env, defrt).entries, es[i].lladdr) == Survivor(Tick(es[i].nbr, cfg, env))
      {
        PeriodicFateAt(es, cfg, env, defrt, i);
      }
    }
  }

  /** The inductive step of `PeriodicFate` for one slot `i`, given the fate of every slot of the shorter table. */
  lemma PeriodicFateAt(es: seq<Entry>, cfg: NdConfig, env: TickEnv, defrt: DefrtTable, i: nat)
    requires UniqueKeys(es) && i < |es|
    requires var pre := es[..|es| - 1];
             forall k :: 0 <= k < |pre| ==>
               Find(Periodic(pre, cfg, env, defrt).entries, pre[k].lladdr) == Survivor(Tick(pre[k].nbr, cfg, env))
    ensures Find(Periodic(es, cfg, env, defrt).entries, es[i].lladdr) == Survivor(Tick(es[i].nbr, cfg, env))
  {
    var pre, e := es[..|es| - 1], es[|es| - 1];
    var p := Periodic(pre, cfg, env, defrt).entries;
    var t := Tick(e.nbr, cfg, env);
    if i < |es| - 1 {
      assert es[i] == pre[i];
      assert es[i].lladdr != e.lladdr;
      if t.Keep? {
        FindAppend(p, Entry(e.lladdr, t.nbr), es[i].lladdr);
      }
    } else {
      assert KeyIndex(pre, e.lladdr).None?;
      PeriodicNoNewKey(pre, cfg, env, defrt, e.lladdr);
      if t.Keep? {
        FindAppend(p, Entry(e.lladdr, t.nbr), e.lladdr);
      }
    }
  }

  /** With the solicitation code compiled in, a pass leaves every record within its retry budget. */
  lemma {:induction false} PeriodicEnforcesBudget(es: seq<Entry>, cfg: NdConfig, env: TickEnv, defrt: DefrtTable)
    requires cfg.sendNa
    ensures forall i :: 0 <= i < |Periodic(es, cfg, env, defrt).entries| ==>
      WithinBudget(Periodic(es, cfg, env, defrt).entries[i].nbr, cfg)
    decreases |es|
  {
    if es != [] {
      PeriodicEnforcesBudget(es[..|es| - 1], cfg, env, defrt);
    }
  }

  /** A pass sends nothing while the output buffer is busy or the solicitation code is compiled out. */
  lemma {:induction false} PeriodicSilent(es: seq<Entry>, cfg: NdConfig, env: TickEnv, defrt: DefrtTable)
    requires !env.uipLenZero || !cfg.sendNa
    ensures Periodic(es, cfg, env, defrt).sent == []
    decreases |es|
  {
    if es != [] {
      PeriodicSilent(es[..|es| - 1], cfg, env, defrt);
    }
  }

  /** The solicitation a due record sends: to the solicited-node multicast while INCOMPLETE, unicast to its address otherwise. */
  function Solicitation(n: Nbr): (r: NsOutput)
    ensures r.src.None? && r.target == n.ipaddr
    ensures r.dest.None? <==> n.state == Incomplete
    ensures r.dest.Some? ==> r.dest.value == n.ipaddr
  {
    NsOutput(None, if n.state == Incomplete then None else Some(n.ipaddr), n.ipaddr)
  }

  /** The solicitations due in a table: one for each record that `Solicits`, in table order. */
  function Due(es: seq<Entry>, cfg: NdConfig, env: TickEnv): (r: seq<NsOutput>)
    ensures |r| <= |es|
    decreases |es|
  {
    if es == [] then []
    else
      var last := es[|es| - 1].nbr;
      Due(es[..|es| - 1], cfg, env) + if Solicits(last, cfg, env) then [Solicitation(last)] else []
  }

  /** Every due record has its solicitation among the due ones. */
  lemma {:induction false} DueComplete(es: seq<Entry>, cfg: NdConfig, env: TickEnv)
    ensures forall i :: 0 <= i < |es| && Solicits(es[i].nbr, cfg, env) ==> Solicitation(es[i].nbr) in Due(es, cfg, env)
    decreases |es|
  {
    if es != [] {
      var pre := es[..|es| - 1];
      DueComplete(pre, cfg, env);
      assert forall i :: 0 <= i < |pre| ==> pre[i] == es[i];
    }
  }

  /** Every due solicitation is that of a due record. */
  lemma {:induction false} DueSound(es: seq<Entry>, cfg: NdConfig, env: TickEnv)
    ensures forall m :: m in Due(es, cfg, env) ==>
      exists i :: 0 <= i < |es| && Solicits(es[i].nbr, cfg, env) && m == Solicitation(es[i].nbr)
    decreases |es|
  {
    if es != [] {
      var pre := es[..|es| - 1];
      DueSound(pre, cfg, env);
      forall m | m in Due(es, cfg, env)
        ensures exists i :: 0 <= i < |es| && Solicits(es[i].nbr, cfg, env) && m == Solicitation(es[i].nbr)
      {
        if m in Due(pre, cfg, env) {
          var i :| 0 <= i < |pre| && Solicits(pre[i].nbr, cfg, env) && m == Solicitation(pre[i].nbr);
          assert pre[i] == es[i];
        } else {
          assert Solicits(es[|es| - 1].nbr, cfg, env) && m == Solicitation(es[|es| - 1].nbr);
        }
      }
    }
  }

  /** The records of a table that are due to solicit, by slot. */
  function DueSlots(es: seq<Entry>, cfg: NdConfig, env: TickEnv): set<nat>
  {
    set i: nat | i < |es| && Solicits(es[i].nbr, cfg, env)
  }

  /** The due slots of a table are those of all but its last slot, plus the last one when it is due. */
  lemma DueSlotsSnoc(es: seq<Entry>, cfg: NdConfig, env: TickEnv)
    requires es != []
    ensures var last := |es| - 1;
            DueSlots(es, cfg, env) ==
              DueSlots(es[..last], cfg, env) + if Solicits(es[last].nbr, cfg, env) then {last} else {}
  {
    var pre := es[..|es| - 1];
    assert forall i :: 0 <= i < |pre| ==> pre[i] == es[i];
  }

  /** There are as many due solicitations as due records. */
  lemma {:induction false} DueCount(es: seq<Entry>, cfg: NdConfig, env: TickEnv)
    ensures |Due(es, cfg, env)| == |DueSlots(es, cfg, env)|
    decreases |es|
  {
    if es != [] {
      var pre := es[..|es| - 1];
      DueCount(pre, cfg, env);
      DueSlotsSnoc(es, cfg, env);
      assert |es| - 1 !in DueSlots(pre, cfg, env);
    }
  }

  /**
   * The solicitations a pass sends are exactly the due ones in table order:
   * one for every record that `Solicits`, multicast for an INCOMPLETE record
   * and unicast for a PROBE one, and nothing else.
   */
  lemma {:induction false} PeriodicSent(es: seq<Entry>, cfg: NdConfig, env: TickEnv, defrt: DefrtTable)
    ensures Periodic(es, cfg, env, defrt).sent == Due(es, cfg, env)
    ensures forall i :: 0 <= i < |es| && Solicits(es[i].nbr, cfg, env) ==>
      Solicitation(es[i].nbr) in Periodic(es, cfg, env, defrt).sent
    ensures forall m :: m in Periodic(es, cfg, env, defrt).sent ==>
      exists i :: 0 <= i < |es| && Solicits(es[i].nbr, cfg, env) && m == Solicitation(es[i].nbr)
    ensures |Periodic(es, cfg, env, defrt).sent| == |DueSlots(es, cfg, env)|
    decreases |es|
  {
    if es != [] {
      PeriodicSent(es[..|es| - 1], cfg, env, defrt);
    }
    DueComplete(es, cfg, env);
    DueSound(es, cfg, env);
    DueCount(es, cfg, env);
  }

  /**
   * After a pass, a default route is gone exactly when it was finite and a
   * PROBE record for its router ran out of solicitations; every other route,
   * and every infinite one, is kept with its flag.
   */
  lemma {:induction false} PeriodicDefrt(es: seq<Entry>, cfg: NdConfig, env: TickEnv, defrt: DefrtTable)
    ensures forall a :: a in Periodic(es, cfg, env, defrt).defrt <==>
      a in defrt && (defrt[a] || forall i :: 0 <= i < |es| && es[i].nbr.ipaddr == a ==> !ProbeGivesUp(es[i].nbr, cfg))
    ensures forall a :: a in Periodic(es, cfg, env, defrt).defrt ==> Periodic(es, cfg, env, defrt).defrt[a] == defrt[a]
    decreases |es|
  {
    if es != [] {
      var pre, e := es[..|es| - 1], es[|es| - 1];
      PeriodicDefrt(pre, cfg, env, defrt);
      assert forall i :: 0 <= i < |pre| ==> pre[i] == es[i];
    }
  }

  // ---------------------------------------------------------------------------
  // The neighbour whose reachable timer runs out first

  /**
   * The scan of `uip_ds6_get_least_lifetime_neighbor` as written: the
   * first record is taken, and a later one replaces it only when its
   * remaining time is below its own remaining time (line 309).
   */
  function LeastLifetimeAsWritten(es: seq<Entry>, now: nat): (r: Option<nat>)
    ensures r.None? <==> es == []
    ensures r.Some? ==> r.value < |es|
    decreases |es|
  {
    if es == [] then None
    else
      var lastIndex: nat := |es| - 1;
      var last := es[lastIndex];
      match LeastLifetimeAsWritten(es[..lastIndex], now)
      case None => Some(lastIndex)
      case Some(i) =>
        if Remaining(last.nbr.reachable, now) < Remaining(last.nbr.reachable, now) then Some(lastIndex) else Some(i)
  }

  /** As written, the scan returns the head of the table, or nothing for an empty table. */
  lemma {:induction false} LeastLifetimeAsWrittenIsHead(es: seq<Entry>, now: nat)
    ensures LeastLifetimeAsWritten(es, now) == if es == [] then None else Some(0)
    decreases |es|
  {
    if es != [] {
      LeastLifetimeAsWrittenIsHead(es[..|es| - 1], now);
    }
  }

  /**
   * What the scan evidently means to compute, comparing each record with the
   * best one so far: the record with the least remaining reachable time,
   * the first of them on a tie; nothing for an empty table.
   */
  function LeastLifetime(es: seq<Entry>, now: nat): (r: Option<nat>)
    ensures r.None? <==> es == []
    ensures r.Some? ==> r.value < |es|
    ensures r.Some? ==> forall j :: 0 <= j < |es| ==>
              Remaining(es[r.value].nbr.reachable, now) <= Remaining(es[j].nbr.reachable, now)
    ensures r.Some? ==> forall j :: 0 <= j < r.value ==>
              Remaining(es[r.value].nbr.reachable, now) < Remaining(es[j].nbr.reachable, now)
    decreases |es|
  {
    if es == [] then None
    else
      var last := es[|es| - 1];
      match LeastLifetime(es[..|es| - 1], now)
      case None => Some(|es| - 1)
      case Some(i) =>
        if Remaining(last.nbr.reachable, now) < Remaining(es[i].nbr.reachable, now) then Some(|es| - 1) else Some(i)
  }

  /**
   * The two disagree on any table whose head is not the record that expires
   * first: there the code as written returns the head.
   */
  lemma LeastLifetimeFinding(es: seq<Entry>, now: nat, j: nat)
    requires j < |es| && Remaining(es[j].nbr.reachable, now) < Remaining(es[0].nbr.reachable, now)
    ensures LeastLifetimeAsWritten(es, now) == Some(0)
    ensures LeastLifetime(es, now) != Some(0)
  {
    LeastLifetimeAsWrittenIsHead(es, now);
  }

  // ---------------------------------------------------------------------------
  // Link-layer feedback

  /** The outcome a MAC driver reports for a transmission (`MAC_TX_OK`, ...). */
  datatype MacTxStatus = TxOk | TxCollision | TxNoAck | TxDeferred | TxErr | TxErrFatal

  /** A link-layer ACK for `dest` confirms the reachability of the record of `e` (section 7.3.1 of RFC 4861). */
  predicate Acked(e: Entry, dest: LlAddr, status: MacTxStatus, cfg: NdConfig)
  {
    && !IsNullLl(dest) && cfg.llNud && status == TxOk
    && e.lladdr == dest && e.nbr.state in {Stale, Delay, Probe}
  }

  /** `uip_ds6_link_neighbor_callback` on a table (the general neighbour cache). */
  function LinkCallback(es: seq<Entry>, dest: LlAddr, status: MacTxStatus, cfg: NdConfig, now: nat): (r: seq<Entry>)
    requires UniqueKeys(es)
    ensures |r| == |es| && UniqueKeys(r)
    ensures forall i :: 0 <= i < |es| ==> r[i].lladdr == es[i].lladdr
    ensures forall i :: 0 <= i < |es| ==>
              r[i].nbr == if Acked(es[i], dest, status, cfg)
                          then es[i].nbr.(state := Reachable, reachable := TimerSet(now, cfg.reachableTimeMs / 1000))
                          else es[i].nbr
  {
    if IsNullLl(dest) || !cfg.llNud || status != TxOk then es
    else
      match KeyIndex(es, dest)
      case None => es
      case Some(i) =>
        var n := es[i].nbr;
        if n.state == Stale || n.state == Delay || n.state == Probe
        then es[i := Entry(dest, n.(state := Reachable, reachable := TimerSet(now, cfg.reachableTimeMs / 1000)))]
        else es
  }
}

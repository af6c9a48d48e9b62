/**
 * Clients of the neighbour cache: each method drives the tables through a
 * scenario (filling a table, an INCOMPLETE neighbour giving up, a PROBE
 * neighbour giving up with its default route) and asserts, from the
 * contracts alone, what it must end in.
 */
module Ds6Scenarios {
  import opened Wrappers
  import opened Ipv6
  import opened Ds6NbrSpec
  import opened Ds6Nbr

  /** Three solicitations of each kind, a 30 s reachable time, NUD on. */
  const Defaults := NdConfig(3, 3, 30000, true, true)

  /** A pass at second `now`, with a one-second retransmission timer and a free output buffer. */
  function At(now: nat): TickEnv
  {
    TickEnv(now, 1000, true)
  }

  /** Adds the key `ll`, which is above every single-octet key of the table, while there is room. */
  method AddFresh(t: NbrTable, ip: IpAddr, ll: LlAddr, now: nat) returns (h: Option<nat>)
    requires t.Valid() && |t.entries| < t.capacity && |ll| == 1
    requires forall j :: 0 <= j < |t.entries| ==> |t.entries[j].lladdr| == 1 && t.entries[j].lladdr[0] < ll[0]
    modifies t
    ensures t.Valid()
    ensures h == Some(old(|t.entries|)) && |t.entries| == old(|t.entries|) + 1
    ensures forall j :: 0 <= j < |t.entries| ==> |t.entries[j].lladdr| == 1 && t.entries[j].lladdr[0] <= ll[0]
  {
    AddSpecPlacement(t.entries, t.capacity, ll, NewNbr(ip, false, Incomplete, now));
    h := t.Add(ip, ll, false, Incomplete, now);
  }

  /** A table of capacity 4 takes four distinct keys, refuses a fifth and still counts 4. */
  method CapacityScenario(ip: IpAddr, now: nat)
  {
    var t := new NbrTable(4);
    var h1 := AddFresh(t, ip, [1], now);
    var h2 := AddFresh(t, ip, [2], now);
    var h3 := AddFresh(t, ip, [3], now);
    var h4 := AddFresh(t, ip, [4], now);
    var n := t.Num();
    assert n == 4;
    var h5 := t.Add(ip, [5], false, Incomplete, now);
    assert h5.None?;
    n := t.Num();
    assert n == 4;
  }

  /** A new record is the only record of an empty table. */
  method AddFirst(t: NbrTable, ip: IpAddr, ll: LlAddr, isrouter: bool, state: NbrState) returns (h: Option<nat>)
    requires t.Valid() && t.entries == [] && t.capacity >= 1
    modifies t
    ensures t.Valid() && t.entries == [Entry(ll, NewNbr(ip, isrouter, state, 0))]
  {
    AddSpecPlacement(t.entries, t.capacity, ll, NewNbr(ip, isrouter, state, 0));
    h := t.Add(ip, ll, isrouter, state, 0);
  }

  /**
   * A pass at `now` over a single INCOMPLETE or PROBE record with budget left
   * and its send timer expired: one solicitation, the count goes up by one
   * and the send timer is re-armed for one second.
   */
  method SolicitOnce(t: NbrTable, now: nat, defrt: DefrtTable) returns (sent: seq<NsOutput>)
    requires t.Valid() && |t.entries| == 1
    requires t.entries[0].nbr.state in {Incomplete, Probe}
    requires t.entries[0].nbr.nscount < 3 && Expired(t.entries[0].nbr.sendns, now)
    modifies t
    ensures t.Valid() && |t.entries| == 1 && |sent| == 1
    ensures t.entries[0] == old(t.entries[0]).(nbr := old(t.entries[0].nbr).(
              nscount := old(t.entries[0].nbr.nscount) + 1, sendns := TimerSet(now, 1)))
  {
    PeriodicOne(t.entries[0], Defaults, At(now), defrt);
    var defrtOut;
    sent, defrtOut := t.NeighborPeriodic(Defaults, At(now), defrt);
  }

  /**
   * An INCOMPLETE neighbour with a multicast budget of 3: three passes, one
   * second apart, each send one solicitation; the fourth removes it, and a
   * lookup by its key then finds nothing.
   */
  method IncompleteScenario(ip: IpAddr, ll: LlAddr)
  {
    var t := new NbrTable(1);
    var h := AddFirst(t, ip, ll, false, Incomplete);
    var sent := SolicitOnce(t, 0, map[]);
    sent := SolicitOnce(t, 1, map[]);
    sent := SolicitOnce(t, 2, map[]);
    assert t.entries[0].nbr.nscount == 3;
    PeriodicOne(t.entries[0], Defaults, At(3), map[]);
    var defrt;
    sent, defrt := t.NeighborPeriodic(Defaults, At(3), map[]);
    assert sent == [] && t.entries == [];
    var found := t.LlLookup(ll);
    assert found.None?;
  }

  /**
   * A DELAY neighbour whose reachable timer has run out moves to PROBE; once
   * it has sent its three unicast solicitations it is removed, and with it a
   * finite default route through it, while an infinite one survives.
   */
  method ProbeScenario(ip: IpAddr, ll: LlAddr, infinite: bool)
  {
    var t := new NbrTable(1);
    var h := AddFirst(t, ip, ll, true, Delay);
    PeriodicOne(t.entries[0], Defaults, At(0), map[ip := infinite]);
    var sent, defrt := t.NeighborPeriodic(Defaults, At(0), map[ip := infinite]);
    assert sent == [] && defrt == map[ip := infinite];
    assert t.entries[0].nbr.state == Probe && t.entries[0].nbr.nscount == 0;
    sent := SolicitOnce(t, 0, defrt);
    sent := SolicitOnce(t, 1, defrt);
    sent := SolicitOnce(t, 2, defrt);
    assert t.entries[0].nbr.nscount == 3 && t.entries[0].nbr.ipaddr == ip;
    PeriodicOne(t.entries[0], Defaults, At(3), defrt);
    sent, defrt := t.NeighborPeriodic(Defaults, At(3), defrt);
    assert t.entries == [];
    assert infinite ==> defrt == map[ip := true];
    assert !infinite ==> defrt == map[];
  }
}

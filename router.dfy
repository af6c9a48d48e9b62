/**
 * The router role of `uip-ds6-nbr.c` (built with `ROUTER`): three neighbour
 * tables (sibling routers in this node's subnet, one router per foreign
 * subnet, and this node's leaves) and the next-hop choice made from them.
 * Addresses are read by 16-bit words: `u16[3]` is the subnet prefix,
 * `u16[7]` a router's own number and `u16[2]` the number of the router a
 * leaf hangs off.
 */
module Ds6Router {
  import opened Wrappers
  import opened Ipv6
  import opened Ds6NbrSpec
  import opened Ds6Nbr

  /** What the relay policy reads of RPL's `my_info`, with `my_goal == RPL_SUPER_ROUTER` as a flag. */
  datatype RplInfo = RplInfo(myPrefix: Word, myAddress: IpAddr, isSuperRouter: bool)

  /** The foreign-subnet table keeps one router per prefix. */
  predicate OnePerPrefix(es: seq<Entry>)
  {
    forall i, j :: 0 <= i < j < |es| ==> U16(es[i].nbr.ipaddr, 3) != U16(es[j].nbr.ipaddr, 3)
  }

  /** The in-subnet table holds each address at most once. */
  predicate UniqueIps(es: seq<Entry>)
  {
    forall i, j :: 0 <= i < j < |es| ==> es[i].nbr.ipaddr != es[j].nbr.ipaddr
  }

  /** The scan at lines 336-341: the first router whose prefix word is `w`. */
  function PrefixIndex(es: seq<Entry>, w: Word): (r: Option<nat>)
    ensures r.Some? ==> r.value < |es| && U16(es[r.value].nbr.ipaddr, 3) == w
    ensures r.Some? ==> forall j :: 0 <= j < r.value ==> U16(es[j].nbr.ipaddr, 3) != w
    ensures r.None? <==> forall j :: 0 <= j < |es| ==> U16(es[j].nbr.ipaddr, 3) != w
    decreases |es|
  {
    if es == [] then None
    else
      match PrefixIndex(es[..|es| - 1], w)
      case Some(i) => Some(i)
      case None => if U16(es[|es| - 1].nbr.ipaddr, 3) == w then Some(|es| - 1) else None
  }

  /** The record every router-role insertion stores: REACHABLE, router flag 0. */
  function RouterNbr(ip: IpAddr, now: nat): Nbr
  {
    NewNbr(ip, false, Reachable, now)
  }

  /** The in-subnet and foreign-subnet tables after a registration, and whether it inserted. */
  datatype Registration = Registration(insubnet: seq<Entry>, outsubnet: seq<Entry>, added: bool)

  /**
   * `add_to_subnet_route_table`: a router of this node's subnet goes into the
   * in-subnet table unless its address is already there; a router of a
   * foreign subnet goes into the foreign-subnet table unless a router of the
   * same subnet is already there. It answers whether an insertion happened,
   * and keeps each table's invariant: no address twice in the in-subnet
   * table, no prefix twice in the foreign-subnet table.
   */
  function RegisterSubnetRouter(ins: seq<Entry>, outs: seq<Entry>, inCap: nat, outCap: nat,
                                info: RplInfo, ip: IpAddr, ll: LlAddr, now: nat): (r: Registration)
    requires UniqueKeys(ins) && UniqueKeys(outs)
    ensures UniqueKeys(r.insubnet) && UniqueKeys(r.outsubnet)
    ensures UniqueIps(ins) ==> UniqueIps(r.insubnet)
    ensures OnePerPrefix(outs) ==> OnePerPrefix(r.outsubnet)
    ensures !r.added ==> r.insubnet == ins && r.outsubnet == outs
    ensures U16(ip, 3) == info.myPrefix ==>
              && r.outsubnet == outs
              && (r.added <==> FirstIp(ins, Some(ip)).None? && AddSpec(ins, inCap, ll, RouterNbr(ip, now)).handle.Some?)
              && (r.added ==> r.insubnet == AddSpec(ins, inCap, ll, RouterNbr(ip, now)).entries)
    ensures U16(ip, 3) != info.myPrefix ==>
              && r.insubnet == ins
              && (r.added <==> PrefixIndex(outs, U16(ip, 3)).None? && AddSpec(outs, outCap, ll, RouterNbr(ip, now)).handle.Some?)
              && (r.added ==> r.outsubnet == AddSpec(outs, outCap, ll, RouterNbr(ip, now)).entries)
  {
    if U16(ip, 3) == info.myPrefix then
      var a := AddSpec(ins, inCap, ll, RouterNbr(ip, now));
      if FirstIp(ins, Some(ip)).None? && a.handle.Some?
      then Registration(a.entries, outs, true)
      else Registration(ins, outs, false)
    else
      var a := AddSpec(outs, outCap, ll, RouterNbr(ip, now));
      if PrefixIndex(outs, U16(ip, 3)).None? && a.handle.Some?
      then Registration(ins, a.entries, true)
      else Registration(ins, outs, false)
  }

  /** Adding a router whose address no record holds keeps every address in the table once. */
  lemma AddKeepsUniqueIps(es: seq<Entry>, capacity: nat, ll: LlAddr, ip: IpAddr, now: nat)
    requires UniqueKeys(es) && UniqueIps(es) && FirstIp(es, Some(ip)).None?
    ensures UniqueIps(AddSpec(es, capacity, ll, RouterNbr(ip, now)).entries)
  {
    var r := AddSpec(es, capacity, ll, RouterNbr(ip, now)).entries;
    forall i, j | 0 <= i < j < |r|
      ensures r[i].nbr.ipaddr != r[j].nbr.ipaddr
    {
      match KeyIndex(es, ll)
      case Some(h) =>
        assert r == es[h := Entry(ll, RouterNbr(ip, now))];
      case None =>
        assert r == es + [Entry(ll, RouterNbr(ip, now))] || r == es;
    }
  }

  /** Adding a router of a subnet no record belongs to keeps one router per subnet. */
  lemma AddKeepsOnePerPrefix(es: seq<Entry>, capacity: nat, ll: LlAddr, ip: IpAddr, now: nat)
    requires UniqueKeys(es) && OnePerPrefix(es) && PrefixIndex(es, U16(ip, 3)).None?
    ensures OnePerPrefix(AddSpec(es, capacity, ll, RouterNbr(ip, now)).entries)
  {
    var r := AddSpec(es, capacity, ll, RouterNbr(ip, now)).entries;
    forall i, j | 0 <= i < j < |r|
      ensures U16(r[i].nbr.ipaddr, 3) != U16(r[j].nbr.ipaddr, 3)
    {
      match KeyIndex(es, ll)
      case Some(h) =>
        assert r == es[h := Entry(ll, RouterNbr(ip, now))];
      case None =>
        assert r == es + [Entry(ll, RouterNbr(ip, now))] || r == es;
    }
  }

  /**
   * Two routers of the same foreign subnet: once the first is registered,
   * the second is refused and changes nothing.
   */
  lemma SecondRouterOfSubnetRefused(ins: seq<Entry>, outs: seq<Entry>, inCap: nat, outCap: nat, info: RplInfo,
                                    ip1: IpAddr, ll1: LlAddr, ip2: IpAddr, ll2: LlAddr, now: nat)
    requires UniqueKeys(ins) && UniqueKeys(outs)
    requires U16(ip1, 3) != info.myPrefix && U16(ip2, 3) == U16(ip1, 3)
    requires RegisterSubnetRouter(ins, outs, inCap, outCap, info, ip1, ll1, now).added
    ensures var r1 := RegisterSubnetRouter(ins, outs, inCap, outCap, info, ip1, ll1, now);
            var r2 := RegisterSubnetRouter(r1.insubnet, r1.outsubnet, inCap, outCap, info, ip2, ll2, now);
            !r2.added && r2.insubnet == r1.insubnet && r2.outsubnet == r1.outsubnet
  {
    var r1 := RegisterSubnetRouter(ins, outs, inCap, outCap, info, ip1, ll1, now);
    var h := AddSpec(outs, outCap, ll1, RouterNbr(ip1, now)).handle.value;
    assert U16(r1.outsubnet[h].nbr.ipaddr, 3) == U16(ip2, 3);
  }

  /** `abs(u8[6] - u8[6]') + abs(u8[7] - u8[7]')`: how far apart two prefixes are; at most 510, so `uint16_t` holds it. */
  function PrefixDistance(dst: IpAddr, a: IpAddr): (d: nat)
    ensures d <= 510
    ensures d == 0 <==> U16(dst, 3) == U16(a, 3)
  {
    OctetDistance(dst[6], a[6]) + OctetDistance(dst[7], a[7])
  }

  /** The scan at lines 379-384: the first sibling router whose own number `u16[7]` is `w`. */
  function SiblingIndex(es: seq<Entry>, w: Word): (r: Option<nat>)
    ensures r.Some? ==> r.value < |es| && U16(es[r.value].nbr.ipaddr, 7) == w
    ensures r.Some? ==> forall j :: 0 <= j < r.value ==> U16(es[j].nbr.ipaddr, 7) != w
    ensures r.None? <==> forall j :: 0 <= j < |es| ==> U16(es[j].nbr.ipaddr, 7) != w
    decreases |es|
  {
    if es == [] then None
    else
      match SiblingIndex(es[..|es| - 1], w)
      case Some(i) => Some(i)
      case None => if U16(es[|es| - 1].nbr.ipaddr, 7) == w then Some(|es| - 1) else None
  }

  /**
   * The choice at lines 392-404 as intended: the foreign-subnet router whose
   * prefix is strictly farthest from the destination's, the first of them on
   * a tie; none when the table is empty or every prefix equals the destination's.
   */
  function Farthest(es: seq<Entry>, dst: IpAddr): (r: Option<nat>)
    ensures r.None? <==> forall j :: 0 <= j < |es| ==> PrefixDistance(dst, es[j].nbr.ipaddr) == 0
    ensures r.Some? ==> r.value < |es| && PrefixDistance(dst, es[r.value].nbr.ipaddr) > 0
    decreases |es|
  {
    if es == [] then None
    else
      var d := PrefixDistance(dst, es[|es| - 1].nbr.ipaddr);
      match Farthest(es[..|es| - 1], dst)
      case None => if d > 0 then Some(|es| - 1) else None
      case Some(i) => if d > PrefixDistance(dst, es[i].nbr.ipaddr) then Some(|es| - 1) else Some(i)
  }

  /** One more router: `Farthest` over `es[..i + 1]` from `Farthest` over `es[..i]`. */
  lemma FarthestSnoc(es: seq<Entry>, i: nat, dst: IpAddr)
    requires i < |es|
    ensures Farthest(es[..i + 1], dst) ==
              var d := PrefixDistance(dst, es[i].nbr.ipaddr);
              match Farthest(es[..i], dst)
              case None => if d > 0 then Some(i) else None
              case Some(b) => if d > PrefixDistance(dst, es[b].nbr.ipaddr) then Some(i) else Some(b)
  {
    assert es[..i + 1][..i] == es[..i];
  }

  /** The router `Farthest` picks is at least as far as every other, and strictly farther than every one before it. */
  lemma {:induction false} FarthestIsFarthest(es: seq<Entry>, dst: IpAddr)
    ensures var r := Farthest(es, dst);
            r.Some? ==> forall j :: 0 <= j < |es| ==>
              PrefixDistance(dst, es[j].nbr.ipaddr) <= PrefixDistance(dst, es[r.value].nbr.ipaddr)
    ensures var r := Farthest(es, dst);
            r.Some? ==> forall j :: 0 <= j < r.value ==>
              PrefixDistance(dst, es[j].nbr.ipaddr) < PrefixDistance(dst, es[r.value].nbr.ipaddr)
    decreases |es|
  {
    if es != [] {
      var pre := es[..|es| - 1];
      FarthestIsFarthest(pre, dst);
      assert forall j :: 0 <= j < |pre| ==> pre[j] == es[j];
    }
  }

  /** What the out-of-subnet scan as written does: return a pointer, or write through a null one. */
  datatype ScanOutcome = NullWrite | Returned(dest: Option<IpAddr>)

  /**
   * The out-of-subnet scan of `next_route` as written: `best_dest` starts
   * NULL and is never pointed anywhere, so the first router found farther
   * than distance 0 is copied into a null pointer (line 400).
   */
  function FarthestAsWritten(es: seq<Entry>, dst: IpAddr): (r: ScanOutcome)
    ensures r.Returned? ==> r.dest.None?
    decreases |es|
  {
    if es == [] then Returned(None)
    else
      match FarthestAsWritten(es[..|es| - 1], dst)
      case NullWrite => NullWrite
      case Returned(_) => if PrefixDistance(dst, es[|es| - 1].nbr.ipaddr) > 0 then NullWrite else Returned(None)
  }

  /** The scan as written writes through NULL exactly when the intended scan selects a router, and otherwise returns NULL. */
  lemma {:induction false} FarthestFinding(es: seq<Entry>, dst: IpAddr)
    ensures FarthestAsWritten(es, dst) == if Farthest(es, dst).Some? then NullWrite else Returned(None)
    decreases |es|
  {
    if es != [] {
      FarthestFinding(es[..|es| - 1], dst);
    }
  }

  /**
   * A node in the router role: its three neighbour tables, which are
   * distinct objects, each valid, with no address twice among the sibling
   * routers and no prefix twice among the foreign-subnet routers.
   */
  class RouterNode {
    const insubnet: NbrTable
    const outsubnet: NbrTable
    const leaf: NbrTable

    ghost predicate Valid()
      reads insubnet, outsubnet, leaf
    {
      && insubnet != outsubnet && insubnet != leaf && outsubnet != leaf
      && insubnet.Valid() && outsubnet.Valid() && leaf.Valid()
      && UniqueIps(insubnet.entries) && OnePerPrefix(outsubnet.entries)
    }

    constructor (insubnetCapacity: nat, outsubnetCapacity: nat, leafCapacity: nat)
      ensures Valid() && fresh(insubnet) && fresh(outsubnet) && fresh(leaf)
      ensures insubnet.capacity == insubnetCapacity && insubnet.entries == []
      ensures outsubnet.capacity == outsubnetCapacity && outsubnet.entries == []
      ensures leaf.capacity == leafCapacity && leaf.entries == []
    {
      insubnet := new NbrTable(insubnetCapacity);
      outsubnet := new NbrTable(outsubnetCapacity);
      leaf := new NbrTable(leafCapacity);
    }

    /** `add_to_subnet_route_table`, returning 1 (true) exactly when it inserted. */
    method AddToSubnetRouteTable(info: RplInfo, ipaddr: IpAddr, lladdr: LlAddr, now: nat) returns (added: bool)
      requires Valid()
      modifies insubnet, outsubnet
      ensures Valid()
      ensures var reg := RegisterSubnetRouter(old(insubnet.entries), old(outsubnet.entries), insubnet.capacity,
                                              outsubnet.capacity, info, ipaddr, lladdr, now);
              insubnet.entries == reg.insubnet && outsubnet.entries == reg.outsubnet && added == reg.added
    {
      if U16(ipaddr, 3) == info.myPrefix {
        added := AddSiblingRouter(ipaddr, lladdr, now);
      } else {
        added := AddForeignRouter(ipaddr, lladdr, now);
      }
    }

    /** Lines 326-333: a router of this node's subnet is added unless its address is already in the in-subnet table. */
    method AddSiblingRouter(ipaddr: IpAddr, lladdr: LlAddr, now: nat) returns (added: bool)
      requires Valid()
      modifies insubnet
      ensures Valid()
      ensures var a := AddSpec(old(insubnet.entries), insubnet.capacity, lladdr, RouterNbr(ipaddr, now));
              && (added <==> FirstIp(old(insubnet.entries), Some(ipaddr)).None? && a.handle.Some?)
              && insubnet.entries == if added then a.entries else old(insubnet.entries)
    {
      var h := insubnet.Lookup(Some(ipaddr));
      if h.None? {
        h := insubnet.Add(ipaddr, lladdr, false, Reachable, now);
        added := h.Some?;
        AddKeepsUniqueIps(old(insubnet.entries), insubnet.capacity, lladdr, ipaddr, now);
      } else {
        added := false;
      }
    }

    /** Lines 336-349: a router of a foreign subnet is added unless a router of that subnet is already known. */
    method AddForeignRouter(ipaddr: IpAddr, lladdr: LlAddr, now: nat) returns (added: bool)
      requires Valid()
      modifies outsubnet
      ensures Valid()
      ensures var a := AddSpec(old(outsubnet.entries), outsubnet.capacity, lladdr, RouterNbr(ipaddr, now));
              && (added <==> PrefixIndex(old(outsubnet.entries), U16(ipaddr, 3)).None? && a.handle.Some?)
              && outsubnet.entries == if added then a.entries else old(outsubnet.entries)
    {
      var i := 0;
      while i < |outsubnet.entries|
        invariant 0 <= i <= |outsubnet.entries|
        invariant forall j :: 0 <= j < i ==> U16(outsubnet.entries[j].nbr.ipaddr, 3) != U16(ipaddr, 3)
      {
        if U16(outsubnet.entries[i].nbr.ipaddr, 3) == U16(ipaddr, 3) {
          return false;
        }
        i := i + 1;
      }
      ghost var before := outsubnet.entries;
      AddKeepsOnePerPrefix(before, outsubnet.capacity, lladdr, ipaddr, now);
      var h := outsubnet.Add(ipaddr, lladdr, false, Reachable, now);
      added := h.Some?;
    }

    /** `add_to_leaf_table`: returns 1 (true) exactly when the add into the leaf table succeeded; no duplicate check. */
    method AddToLeafTable(ipaddr: IpAddr, lladdr: LlAddr, now: nat) returns (added: bool)
      requires Valid()
      modifies leaf
      ensures Valid()
      ensures leaf.entries == AddSpec(old(leaf.entries), leaf.capacity, lladdr, RouterNbr(ipaddr, now)).entries
      ensures added == AddSpec(old(leaf.entries), leaf.capacity, lladdr, RouterNbr(ipaddr, now)).handle.Some?
    {
      var h := leaf.Add(ipaddr, lladdr, false, Reachable, now);
      added := h.Some?;
    }

    /**
     * `next_route` of the router role. A destination in this node's subnet
     * whose `u16[2]` is this node's number is one of its own leaves: the
     * caller's address gets `u16[2]` cleared and is returned. Another
     * destination in the subnet goes to the first sibling router whose number
     * is that `u16[2]`, or else to the super router (none when this node is
     * the super router). A destination in a foreign subnet goes to the
     * foreign-subnet router with the farthest prefix, if any. `ipaddrOut` is
     * the caller's address after the call.
     */
    method NextRoute(info: RplInfo, superRouterAddr: IpAddr, ipaddr: IpAddr) returns (r: Option<IpAddr>, ipaddrOut: IpAddr)
      ensures U16(ipaddr, 3) == info.myPrefix && U16(ipaddr, 2) == U16(info.myAddress, 7) ==>
                ipaddrOut == SetU16(ipaddr, 2, ZeroWord) && r == Some(ipaddrOut)
      ensures !(U16(ipaddr, 3) == info.myPrefix && U16(ipaddr, 2) == U16(info.myAddress, 7)) ==> ipaddrOut == ipaddr
      ensures U16(ipaddr, 3) == info.myPrefix && U16(ipaddr, 2) != U16(info.myAddress, 7) ==>
                r == match SiblingIndex(insubnet.entries, U16(ipaddr, 2))
                     case Some(k) => Some(insubnet.entries[k].nbr.ipaddr)
                     case None => if info.isSuperRouter then None else Some(superRouterAddr)
      ensures U16(ipaddr, 3) != info.myPrefix ==>
                r == match Farthest(outsubnet.entries, ipaddr)
                     case Some(k) => Some(outsubnet.entries[k].nbr.ipaddr)
                     case None => None
    {
      ipaddrOut := ipaddr;
      if U16(ipaddr, 3) == info.myPrefix {
        if U16(ipaddr, 2) == U16(info.myAddress, 7) {
          ipaddrOut := SetU16(ipaddr, 2, ZeroWord);
          r := Some(ipaddrOut);
        } else {
          r := SiblingRoute(info, superRouterAddr, U16(ipaddr, 2));
        }
      } else {
        r := FarthestRoute(ipaddr);
      }
    }

    /**
     * Lines 379-388: the first sibling router whose number is `w`, else the
     * super router, or NULL when this node is the super router.
     */
    method SiblingRoute(info: RplInfo, superRouterAddr: IpAddr, w: Word) returns (r: Option<IpAddr>)
      ensures r == match SiblingIndex(insubnet.entries, w)
                   case Some(k) => Some(insubnet.entries[k].nbr.ipaddr)
                   case None => if info.isSuperRouter then None else Some(superRouterAddr)
    {
      var es := insubnet.entries;
      var i := 0;
      while i < |es|
        invariant 0 <= i <= |es|
        invariant forall j :: 0 <= j < i ==> U16(es[j].nbr.ipaddr, 7) != w
      {
        if U16(es[i].nbr.ipaddr, 7) == w {
          return Some(es[i].nbr.ipaddr);
        }
        i := i + 1;
      }
      r := if info.isSuperRouter then None else Some(superRouterAddr);
    }

    /** Lines 392-404, with the best router's address kept: the `Farthest` router of the foreign-subnet table, or NULL. */
    method FarthestRoute(ipaddr: IpAddr) returns (r: Option<IpAddr>)
      ensures r == match Farthest(outsubnet.entries, ipaddr)
                   case Some(k) => Some(outsubnet.entries[k].nbr.ipaddr)
                   case None => None
    {
      var es := outsubnet.entries;
      var best: Option<nat> := None;
      var bestDistance := 0;
      var i := 0;
      while i < |es|
        invariant 0 <= i <= |es|
        invariant best == Farthest(es[..i], ipaddr)
        invariant bestDistance == if best.Some? then PrefixDistance(ipaddr, es[best.value].nbr.ipaddr) else 0
      {
        FarthestSnoc(es, i, ipaddr);
        var prefixDistance := PrefixDistance(ipaddr, es[i].nbr.ipaddr);
        if prefixDistance > bestDistance {
          bestDistance := prefixDistance;
          best := Some(i);
        }
        i := i + 1;
      }
      assert es[..i] == es;
      r := if best.Some? then Some(es[best.value].nbr.ipaddr) else None;
    }
  }
}

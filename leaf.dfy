/**
 * The leaf role of `uip-ds6-nbr.c` (built with `LEAF`): a leaf relays
 * everything through an agent, the router recorded in its agent table, and
 * asks RPL to look for one when it has none.
 */
module Ds6Leaf {
  import opened Wrappers
  import opened Ipv6
  import opened Ds6NbrSpec
  import opened Ds6Nbr

  /** A node in the leaf role and its agent table. */
  class LeafNode {
    const agent: NbrTable

    ghost predicate Valid()
      reads agent
    {
      agent.Valid()
    }

    constructor (agentCapacity: nat)
      ensures Valid() && fresh(agent)
      ensures agent.capacity == agentCapacity && agent.entries == []
    {
      agent := new NbrTable(agentCapacity);
    }

    /**
     * `add_to_agent_table`: returns 1 (true) exactly when the add into the
     * agent table succeeded; the new record is REACHABLE with router flag 0.
     * Nothing limits the table to the single agent its comment intends.
     */
    method AddToAgentTable(ipaddr: IpAddr, lladdr: LlAddr, now: nat) returns (added: bool)
      requires Valid()
      modifies agent
      ensures Valid()
      ensures agent.entries == AddSpec(old(agent.entries), agent.capacity, lladdr, NewNbr(ipaddr, false, Reachable, now)).entries
      ensures added == AddSpec(old(agent.entries), agent.capacity, lladdr, NewNbr(ipaddr, false, Reachable, now)).handle.Some?
    {
      var h := agent.Add(ipaddr, lladdr, false, Reachable, now);
      added := h.Some?;
    }

    /**
     * `next_route` of the leaf role: whatever the destination, the address of
     * the first agent; with no agent, NULL after exactly one call of
     * `rpl_reset_dis_periodic_timer` (counted in `disResets`).
     */
    method NextRoute(ipaddr: IpAddr) returns (r: Option<IpAddr>, disResets: nat)
      ensures agent.entries == [] ==> r.None? && disResets == 1
      ensures agent.entries != [] ==> r == Some(agent.entries[0].nbr.ipaddr) && disResets == 0
    {
      disResets := 0;
      var head := if agent.entries == [] then None else Some(0);
      if head.None? {
        disResets := disResets + 1;
      } else {
        return agent.GetIpaddr(head), disResets;
      }
      return None, disResets;
    }
  }
}

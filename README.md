# uip-ds6-nbr: the IPv6 neighbour cache of a Contiki 2.7 RPL variant

This project models `core/net/uip-ds6-nbr.c`. The file is the IPv6 neighbour
cache of a Contiki 2.7 fork ("zrpl"). The fork adds a router/leaf relay
scheme on top of RPL.

The model covers:

- **The neighbour tables.** Each `nbr_table_t` becomes a class `Ds6Nbr.NbrTable`.
  - Its slots are a sequence of link-layer keys and records, in the table's
    iteration order.
  - A record pointer is the index of its slot; NULL is `None`.
  - The cache operations are proved against functions over that sequence, in
    `Ds6NbrSpec`:
    - add and remove;
    - count and lookup by IPv6 address or by link-layer address;
    - the getters.
- **Neighbour Unreachability Detection.** This is the state machine of
  section 7.3.2 of RFC 4861, as the file drives it.
  - The link-layer ACK callback promotes STALE, DELAY and PROBE records to
    REACHABLE.
  - The periodic pass:
    - turns REACHABLE into STALE and DELAY into PROBE;
    - sends multicast and unicast neighbour solicitations;
    - removes records whose retry budget is spent, together with a finite
      default route through a PROBE record that gave up.
- **The least-lifetime search**, over the reachable timers.
- **The router role** (`Ds6Router.RouterNode`):
  - the in-subnet, foreign-subnet and leaf tables;
  - `add_to_subnet_route_table`, which allows one router per foreign subnet;
  - `add_to_leaf_table`;
  - `next_route`: own leaf, sibling router, super router, or the
    farthest-prefix relay.
- **The leaf role** (`Ds6Leaf.LeafNode`): the agent table, `add_to_agent_table`
  and the leaf `next_route`.

### Modelling decisions

- **Table adapter.** `nbr_table_add_lladdr` belongs to the table adapter, which
  is not part of this model. It is modelled by `NbrTable.AddLladdr`:
  - a key already present gets its record reset to zero in place;
  - a new key takes a new slot at the end while the table has room;
  - otherwise the add fails.
- **Timers and constants.** A soft timer is its deadline in seconds. The clock
  `now` is a parameter.
  - Build-time constants and switches are fields of `NdConfig`:
    `UIP_ND6_MAX_MULTICAST_SOLICIT`, `UIP_ND6_MAX_UNICAST_SOLICIT`,
    `UIP_ND6_REACHABLE_TIME`, `UIP_ND6_SEND_NA` and `UIP_DS6_LL_NUD`.
  - What one periodic pass reads from the stack is a `TickEnv`: the clock,
    `uip_ds6_if.retrans_timer` and whether `uip_len == 0`.
- **Solicitations and default routes.** Solicitations that would be sent are
  returned as a sequence of `NsOutput` values. The default-route table is a map
  from router address to its `isinfinite` flag.
- **Address words.** An address's 16-bit words (`u16[k]`) are compared as pairs
  of octets in memory order, so no byte order has to be chosen.
- **Points where the code cannot mean what it does.** The model follows the
  evident intent and says so here:
  - Line 226 calls `uip_ds6_nbr_ll_lookup` without a table argument. The model
    looks the receiver up in the table the callback runs on (`ds6_neighbors`).
  - Line 296 advances to `nbr_table_next` of a record that line 259 or 284 may
    just have removed. The model continues the walk at the removed record's
    successor, so every record is visited exactly once.
  - Line 383 advances the scan over `insubnet_table` with `outsubnet_table`.
    The model walks `insubnet_table` to its end.
  - Line 375 clears `u16[2]` in the caller's own address buffer. The model
    returns the modified address as `ipaddrOut`, next to the result.
  - Line 309 and line 400: see "## Findings". The methods use the corrected
    definitions.
- **Farthest relay.** The out-of-subnet choice selects a router only at a
  distance strictly greater than the running best, which starts at 0. So a
  router whose prefix equals the destination's is never chosen, and "no route"
  covers that case as well as the empty table. `Farthest` states this, as the
  code has it.

## Model

| member | source | states |
|---|---|---|
| Ipv6.SetU16 | core/net/uip-ds6-nbr.c:375 | writing `u16[k]` leaves that word equal to the value written and every other octet unchanged |
| Ipv6.OctetDistance | core/net/uip-ds6-nbr.c:397 | `abs` of the difference of two octets is at most 255 and is 0 exactly when they are equal |
| Ds6NbrSpec.TimerSet | core/net/uip-ds6-nbr.c:111-112 | a timer set at `now` is already expired at `now` exactly when it was set for zero seconds |
| Ds6NbrSpec.TimerSetExpires | core/net/uip-ds6-nbr.c:264 | a timer set for `s` seconds is expired from `now + s` on and not before |
| Ds6NbrSpec.Remaining | core/net/uip-ds6-nbr.c:308 | remaining time is zero exactly when the timer has expired |
| Ds6NbrSpec.KeyIndex | core/net/uip-ds6-nbr.c:191-195 | lookup by link-layer key finds the first slot with that key, and finds none exactly when no slot has it |
| Ds6NbrSpec.FirstIp | core/net/uip-ds6-nbr.c:176-189 | the scan by IPv6 address returns the first slot holding it; NULL exactly when the key is NULL or no record holds it |
| Ds6NbrSpec.NewNbr | core/net/uip-ds6-nbr.c:104-113 | a new record holds the given address, router flag and state, a zero solicitation count, and two timers already expired |
| Ds6NbrSpec.AddSpec | core/net/uip-ds6-nbr.c:98-131 | an add fails exactly when the key is new and the table is full, and then changes nothing; otherwise the returned slot holds the key and the new record, the lookup by that key finds it, every other slot is unchanged, keys stay unique and the capacity is respected |
| Ds6NbrSpec.AddSpecPlacement | core/net/uip-ds6-nbr.c:102 | a known key keeps the table size; a new key, when there is room, is appended as the last slot |
| Ds6NbrSpec.RemoveAt | core/net/uip-ds6-nbr.c:142 | removal drops exactly one slot and keeps the others in order |
| Ds6NbrSpec.RemoveAtKeys | core/net/uip-ds6-nbr.c:133-145 | after a removal the removed key is not found, every other key finds the same record as before, and keys stay unique |
| Ds6NbrSpec.Tick | core/net/uip-ds6-nbr.c:247-295 | one periodic step drops a record exactly when an INCOMPLETE or PROBE budget is spent; it solicits exactly when a budget is left, the send timer expired and `uip_len` is 0, counting the solicitation and re-arming the timer; it changes state only REACHABLE→STALE and DELAY→PROBE on expiry; address, router flag and reachable timer are kept; every survivor is within budget |
| Ds6NbrSpec.DropDefrt | core/net/uip-ds6-nbr.c:277-283 | a PROBE end removes the default route through its router exactly when that route is finite; every other route stays with its flag |
| Ds6NbrSpec.Periodic | core/net/uip-ds6-nbr.c:241-298 | a pass never grows the table and sends no more solicitations than the table has records; which records survive and which solicitations go out are stated by `PeriodicFate` and `PeriodicSent` |
| Ds6NbrSpec.Solicitation | core/net/uip-ds6-nbr.c:256-289 | the solicitation for a record has no source, targets the record's address, and goes to the solicited-node multicast exactly when the record is INCOMPLETE, otherwise unicast to that address |
| Ds6NbrSpec.DueComplete | core/net/uip-ds6-nbr.c:256-291 | every record that is due to solicit has its solicitation among the due ones |
| Ds6NbrSpec.DueSound | core/net/uip-ds6-nbr.c:256-291 | every due solicitation is the one of some record that is due to solicit |
| Ds6NbrSpec.DueCount | core/net/uip-ds6-nbr.c:256-291 | there are exactly as many due solicitations as records due to solicit |
| Ds6NbrSpec.PeriodicSent | core/net/uip-ds6-nbr.c:241-298 | the solicitations a pass sends are the due ones in table order: one for each record with budget left, an expired send timer and a free output buffer, multicast for INCOMPLETE and unicast for PROBE, and no other |
| Ds6NbrSpec.PeriodicNoNewKey | core/net/uip-ds6-nbr.c:241-298 | a key absent before a pass is absent after it |
| Ds6NbrSpec.PeriodicUnique | core/net/uip-ds6-nbr.c:241-298 | a pass keeps the keys of a table unique |
| Ds6NbrSpec.PeriodicFate | core/net/uip-ds6-nbr.c:241-298 | after a pass, the record under every key is that key's record ticked exactly once, or is gone if the tick dropped it; no key appears and keys stay unique |
| Ds6NbrSpec.PeriodicEnforcesBudget | core/net/uip-ds6-nbr.c:256-291 | with `UIP_ND6_SEND_NA`, no record left by a pass has sent more solicitations than its state's limit |
| Ds6NbrSpec.PeriodicSilent | core/net/uip-ds6-nbr.c:260 | a pass sends no solicitation while `uip_len` is not 0 or the solicitation code is compiled out |
| Ds6NbrSpec.PeriodicDefrt | core/net/uip-ds6-nbr.c:276-284 | a default route disappears in a pass exactly when it is finite and a PROBE record for its router ran out of solicitations; all other routes keep their flag |
| Ds6NbrSpec.LeastLifetimeAsWritten | core/net/uip-ds6-nbr.c:301-318 | the scan as written, comparing a record with itself at line 309, returns NULL exactly for an empty table and otherwise a slot of the table |
| Ds6NbrSpec.LeastLifetimeAsWrittenIsHead | core/net/uip-ds6-nbr.c:301-318 | the search as written returns the first record of the table, NULL when the table is empty, given the timer-width assumption under "Left out" |
| Ds6NbrSpec.LeastLifetime | core/net/uip-ds6-nbr.c:301-318 | the intended search returns the record with the least remaining reachable time (the first on a tie); NULL exactly for an empty table |
| Ds6NbrSpec.LeastLifetimeFinding | core/net/uip-ds6-nbr.c:309 | whenever some record expires before the head, the code as written returns the head and the intended search does not |
| Ds6NbrSpec.LinkCallback | core/net/uip-ds6-nbr.c:213-239 | an ACK for a non-null receiver, with link-layer NUD on, makes its STALE, DELAY or PROBE record REACHABLE with a fresh reachable timer; every other record and every key is unchanged |
| Ds6Nbr.PeriodicFits | core/net/uip-ds6-nbr.c:241-298 | a pass keeps a table within its capacity and its keys unique |
| Ds6Nbr.NbrTable.constructor | core/net/uip-ds6-nbr.c:72-77 | a table starts empty with its fixed capacity |
| Ds6Nbr.NbrTable.AddLladdr | core/net/uip-ds6-nbr.c:102 | the adapter add is `AddSpec` with a zeroed record, and keeps the table valid |
| Ds6Nbr.NbrTable.Add | core/net/uip-ds6-nbr.c:98-131 | the new table and handle are `AddSpec`'s; NULL leaves the table unchanged; otherwise the slot of `lladdr` holds the given address, router flag and state, two expired timers and a zero count, and no other slot changes |
| Ds6Nbr.NbrTable.Remove | core/net/uip-ds6-nbr.c:133-145 | NULL is a no-op; otherwise the table is `RemoveAt` of the slot, and stays valid |
| Ds6Nbr.NbrTable.GetIpaddr | core/net/uip-ds6-nbr.c:148-152 | returns the record's address, NULL exactly for NULL |
| Ds6Nbr.NbrTable.GetLl | core/net/uip-ds6-nbr.c:155-159 | returns the record's link-layer key, NULL exactly for NULL |
| Ds6Nbr.NbrTable.Num | core/net/uip-ds6-nbr.c:161-174 | walking the table counts exactly its records |
| Ds6Nbr.NbrTable.Lookup | core/net/uip-ds6-nbr.c:176-189 | returns the first record in table order holding the address; NULL exactly when the key is NULL or none holds it |
| Ds6Nbr.NbrTable.LlLookup | core/net/uip-ds6-nbr.c:191-195 | returns the record keyed by the link-layer address; NULL exactly when there is none |
| Ds6Nbr.NbrTable.IpaddrFromLladdr | core/net/uip-ds6-nbr.c:198-203 | returns the address of the record keyed by the link-layer address; NULL exactly when there is none |
| Ds6Nbr.NbrTable.LladdrFromIpaddr | core/net/uip-ds6-nbr.c:206-211 | returns the key of the first record holding the address; NULL exactly when the key is NULL or none holds it |
| Ds6Nbr.NbrTable.LinkNeighborCallback | core/net/uip-ds6-nbr.c:213-239 | the table after the callback is `LinkCallback` of the old one, and stays valid |
| Ds6Nbr.NbrTable.NeighborPeriodic | core/net/uip-ds6-nbr.c:241-298 | the walk with in-place updates and removals leaves exactly the table, the solicitations and the default routes of `Periodic`, so `PeriodicFate`, `PeriodicSent`, `PeriodicEnforcesBudget`, `PeriodicSilent` and `PeriodicDefrt` hold of it |
| Ds6Nbr.NbrTable.Walk | core/net/uip-ds6-nbr.c:245-297 | the loop from the head of the table to its end leaves exactly the table, the solicitations and the default routes of `Periodic` over the table it started from |
| Ds6Nbr.NbrTable.PeriodicStep | core/net/uip-ds6-nbr.c:247-296 | one iteration ticks the next record of the original table and moves on to its successor, or stays on the same slot when the record was removed |
| Ds6Nbr.NbrTable.TickSlot | core/net/uip-ds6-nbr.c:247-295 | the `switch` on one slot updates that slot to `Tick`'s record, or removes it and drops a finite default route on PROBE end, and appends the solicitation `Tick` sends |
| Ds6Nbr.NbrTable.GetLeastLifetimeNeighbor | core/net/uip-ds6-nbr.c:301-318 | the corrected search of the line-309 finding (the code as written returns the head; see `LeastLifetimeAsWritten`): returns the record whose reachable timer has the least time left, as `Remaining` measures it; NULL exactly for an empty table |
| Ds6Router.PrefixIndex | core/net/uip-ds6-nbr.c:336-341 | the duplicate-subnet scan finds the first foreign router with that prefix word, none exactly when there is none |
| Ds6Router.RegisterSubnetRouter | core/net/uip-ds6-nbr.c:321-352 | an own-subnet router is added to the in-subnet table only if its address is new there; a foreign router is added to the foreign-subnet table only if no router of its subnet is there; it returns whether it inserted, changes nothing otherwise, and keeps "no address twice" and "one router per subnet" |
| Ds6Router.AddKeepsUniqueIps | core/net/uip-ds6-nbr.c:326-333 | adding a router whose address no record holds keeps every address in the in-subnet table once |
| Ds6Router.AddKeepsOnePerPrefix | core/net/uip-ds6-nbr.c:336-349 | adding a router of a subnet no record belongs to keeps one router per subnet in the foreign-subnet table |
| Ds6Router.SecondRouterOfSubnetRefused | core/net/uip-ds6-nbr.c:335-341 | once a router of a foreign subnet is registered, a second router of the same subnet is refused and changes nothing |
| Ds6Router.PrefixDistance | core/net/uip-ds6-nbr.c:397 | the prefix distance is at most 510, so it fits `uint16_t`, and is 0 exactly when the two prefixes are equal |
| Ds6Router.SiblingIndex | core/net/uip-ds6-nbr.c:379-384 | the sibling scan finds the first in-subnet router whose number `u16[7]` matches, none exactly when none does |
| Ds6Router.Farthest | core/net/uip-ds6-nbr.c:392-404 | the relay choice is a foreign router at a distance above 0; none exactly when every distance is 0 (or the table is empty) |
| Ds6Router.FarthestIsFarthest | core/net/uip-ds6-nbr.c:396-403 | the chosen router is at least as far as every other and strictly farther than every one before it, so it is the first of the farthest |
| Ds6Router.FarthestAsWritten | core/net/uip-ds6-nbr.c:392-404 | the scan as written, copying into the NULL `best_dest` at line 400, either writes through NULL or returns NULL; it never returns a router |
| Ds6Router.FarthestFinding | core/net/uip-ds6-nbr.c:393-400 | the scan as written writes through the NULL `best_dest` exactly when the intended scan would select a router, and otherwise returns NULL |
| Ds6Router.RouterNode.constructor | core/net/uip-ds6-nbr.c:73-77 | the three router tables start empty and distinct |
| Ds6Router.RouterNode.AddToSubnetRouteTable | core/net/uip-ds6-nbr.c:321-352 | the two tables and the result are `RegisterSubnetRouter`'s, and the node's invariants hold after |
| Ds6Router.RouterNode.AddSiblingRouter | core/net/uip-ds6-nbr.c:325-334 | a router of this node's subnet is inserted exactly when its address is new to the in-subnet table and the add succeeds; otherwise the table is unchanged; no address appears twice |
| Ds6Router.RouterNode.AddForeignRouter | core/net/uip-ds6-nbr.c:335-350 | a foreign router is inserted exactly when no router of its subnet is known and the add succeeds; otherwise the table is unchanged; one router per subnet is kept |
| Ds6Router.RouterNode.AddToLeafTable | core/net/uip-ds6-nbr.c:354-367 | the leaf table is `AddSpec` of a REACHABLE non-router record; returns 1 exactly when the add succeeded |
| Ds6Router.RouterNode.NextRoute | core/net/uip-ds6-nbr.c:370-406 | own leaf: the address with `u16[2]` cleared; other in-subnet destination: the first sibling whose number is `u16[2]`, else the super router, or NULL at the super router; foreign destination: the `Farthest` router, or NULL; the caller's address changes only in the own-leaf case |
| Ds6Router.RouterNode.SiblingRoute | core/net/uip-ds6-nbr.c:379-388 | the first sibling router whose number matches, else the super router, or NULL at the super router |
| Ds6Router.RouterNode.FarthestRoute | core/net/uip-ds6-nbr.c:392-404 | the scan keeping the best router returns the address of the `Farthest` router, or NULL |
| Ds6Leaf.LeafNode.constructor | core/net/uip-ds6-nbr.c:78-80 | the agent table starts empty |
| Ds6Leaf.LeafNode.AddToAgentTable | core/net/uip-ds6-nbr.c:410-417 | the agent table is `AddSpec` of a REACHABLE non-router record; returns 1 exactly when the add succeeded |
| Ds6Leaf.LeafNode.NextRoute | core/net/uip-ds6-nbr.c:419-427 | with an agent, the first agent's address; with none, NULL after exactly one DIS timer reset |

## Left out

- Table adapter internals (`nbr-table.c`) are not part of this model. In
  Contiki one key is shared by every table and a full table may evict a
  record. Here each table has its own keys and a full table refuses the add.
- Wrap-around of the seconds clock behind `stimer` is not modelled: the clock
  is an unbounded `nat`.
- `uip_nd6_ns_output` is modelled by the `NsOutput` value it would send.
  Building the packet, and its effect on `uip_len` for later records of the
  same pass, are not modelled: `uip_len == 0` is read once per pass.
- The packet queue (`UIP_CONF_IPV6_QUEUE_PKT`), the `NEIGHBOR_STATE_CHANGED`
  and `LINK_NEIGHBOR_CALLBACK` hooks and all `PRINTF` tracing are not
  modelled. They have no effect on the tables.
- `uip_ds6_neighbors_init` only registers removal callbacks with the adapter.
  It becomes the constructors.
- The record state is the five states of the enumeration. Other `uint8_t`
  values reach the `default` branch in the source and are not representable
  here. `isrouter` is a flag.
- A NULL link-layer address passed to the add or lookup functions is not
  modelled. Keys are always present.
- Ds6NbrSpec.Remaining: stops at zero once a timer has expired. Contiki's `stimer_remaining` subtracts in unsigned clock arithmetic, which wraps for an expired timer. The model does not capture that, so among expired records the corrected least-lifetime search picks the first, not the one the wrap-around would rank.
- Ds6NbrSpec.LeastLifetimeAsWrittenIsHead: assumes that `clock_time_t` holds the whole value `stimer_remaining` returns and that both calls at line 309 see the same clock reading. Where `clock_time_t` is narrower than that result, the wrapped remaining time of an expired timer is truncated into `curr`. The test can then hold, and the scan need not return the head.
- Ds6Nbr.NbrTable.LinkNeighborCallback: the receiver address comes in as a
  parameter rather than from the packet buffer. `numtx` reaches only the
  notification hook and is ignored.
- Ds6Leaf.LeafNode.NextRoute: `rpl_reset_dis_periodic_timer` is represented
  only by the count of its calls.
- Ds6Router.RouterNode.NextRoute: `my_info` and `super_router_addr` are RPL
  globals and are passed as parameters.

## Findings

| source | as written | input that shows it | evidently intended | confidence | as-written member | corrected member |
|---|---|---|---|---|---|---|
| core/net/uip-ds6-nbr.c:309 | `curr < stimer_remaining(&nbr->reachable)` compares a record's remaining time with itself, never with that of `nbr_expiring`. Assuming `clock_time_t` holds the whole of `stimer_remaining`'s result and one clock reading per iteration, the test never holds and the search returns the head of the table | a table of two records whose second record's reachable timer has less time left than the first's | compare with the remaining time of `nbr_expiring`, the best so far | not executed | Ds6NbrSpec.LeastLifetimeAsWritten, Ds6NbrSpec.LeastLifetimeFinding | Ds6NbrSpec.LeastLifetime |
| core/net/uip-ds6-nbr.c:400 | `uip_ipaddr_copy(best_dest, ...)` copies into `best_dest`, which is NULL and never set, so a farther router causes a write through NULL and NULL is returned | a foreign-subnet table holding one router whose prefix differs from the destination's | keep a pointer to the best router's address (`best_dest = &nbr->ipaddr`) and return it | not executed | Ds6Router.FarthestAsWritten, Ds6Router.FarthestFinding | Ds6Router.Farthest |

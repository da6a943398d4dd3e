# BOSH director: network reservations and the DNS-sync broadcast tally

This project models two parts of the BOSH director in Dafny and proves properties about them.

**Network reservations** (`NetworkReservation` module, `network_reservation.dfy`).
A reservation binds an instance and a network to an optional IP address and an allocation type (static or dynamic). It also carries a reserved flag.
- An *existing* reservation is observed on a running instance. Its type is nil until `resolve_type` classifies the address, and `resolve_type` may overwrite it freely.
- A *desired* reservation is built through `new_dynamic` or `new_static`. Its type is fixed at that point. `resolve_type` only confirms it and raises `NetworkReservationWrongType` on a mismatch.

The two Ruby classes become one datatype with two variants. Every mutating method becomes a function that returns the updated value. `mark_reserved` cannot fail, so it returns a plain reservation; the methods that can raise return either a new value or an error (`Wrappers.Result`). The two IpUtil helpers are passed in as an `IpCodec` value, so they stay uninterpreted:
- `ip_to_i` returns an optional integer; None means the text is not an address.
- `ip_to_netaddr(ip).ip` is an opaque formatter.

**The `sync_dns` tally of AgentBroadcaster** (`AgentBroadcaster` module, `agent_broadcaster.dfy`).
The state holds:
- the pending set, kept as an ordered sequence without duplicates, because Ruby's `Set` keeps insertion order;
- the request id recorded per instance;
- the successful, failed and unresponsive counters;
- the per-agent DNS versions, standing for the `AgentDnsVersion` table;
- the list of issued `cancel_sync_dns` calls.

Each `lock.synchronize` block is one atomic transition:
- `Respond` is the response callback.
- `Finalize` is the pass after the wait loop.

Any interleaving of callbacks is therefore a sequence of responses, delivered in the order they took the lock. The issuing loop is modelled as finishing before any response is processed. For distinct instances this changes nothing: a callback only touches its own instance, that instance is added to the pending set before its command is sent, and answering one instance commutes with issuing to another (`RespondIssueOneCommute`). For an instance listed twice it can differ: if the first callback runs before the second `pending.add`, the source puts the instance back into the pending set, while the model has already removed it for good. The selection predicate of `filter_instances` is modelled as a filter over a sequence of instance rows.

Two behaviours of the code are kept as written:
- The response callback does not check that its instance is still pending. A late or repeated answer is still counted (`LateResponseIsCounted`). The exact tally (`DeliverAccounting`, `SyncDns`) is therefore proved only when each response comes from an instance that is pending at that moment and answers once (`OneAnswerEach` for a whole round).
- `DesiredNetworkReservation#initialize` never calls `super`, so its reserved flag is nil. That value is falsy, so it is modelled as `false`.

## Model

| member | source | states |
|---|---|---|
| NetworkReservation.ConvertIp | bosh-director/lib/bosh/director/network_reservation.rb:40 | `ip_to_i(ip) if ip`: no address stays nil; text converts exactly when the codec accepts it; otherwise the error names the text |
| NetworkReservation.NewExisting | bosh-director/lib/bosh/director/network_reservation.rb:37-41 | a new existing reservation keeps instance, network and converted IP, is not reserved, and is neither static nor dynamic because its type is nil; it fails only on an unparseable address |
| NetworkReservation.NewDesired | bosh-director/lib/bosh/director/network_reservation.rb:65-70 | the desired constructor keeps the given type and converted IP and leaves the reservation unreserved (Ruby nil); it fails only on an unparseable address |
| NetworkReservation.NewDynamic | bosh-director/lib/bosh/director/network_reservation.rb:57-59 | `new_dynamic` never fails and yields a dynamic, not static, unreserved reservation with no IP and no formatted IP |
| NetworkReservation.NewStatic | bosh-director/lib/bosh/director/network_reservation.rb:61-69 | `new_static(ip)` succeeds exactly when the address is nil or parses, and then yields a static, not dynamic, unreserved reservation that keeps the instance and the network; a nil address stays nil, and a given one becomes `ip_to_i(ip)` with its formatting as the formatted IP |
| NetworkReservation.StaticFormattedIpRoundTrip | bosh-director/lib/bosh/director/network_reservation.rb:61-69 | when the codec formats back the text it parsed, a static reservation's formatted IP is the address it was built with |
| NetworkReservation.IsReserved | bosh-director/lib/bosh/director/network_reservation.rb:14-16 | `reserved?` reads the reserved flag |
| NetworkReservation.IsStatic | bosh-director/lib/bosh/director/network_reservation.rb:22-24 | `static?` holds exactly for an existing reservation resolved as static or a desired one declared static |
| NetworkReservation.IsDynamic | bosh-director/lib/bosh/director/network_reservation.rb:26-28 | `dynamic?` holds exactly for an existing reservation resolved as dynamic or a desired one declared dynamic |
| NetworkReservation.StaticDynamicExclusive | bosh-director/lib/bosh/director/network_reservation.rb:22-28 | `static?` and `dynamic?` are never both true; both are false exactly for an existing reservation whose type is still nil |
| NetworkReservation.FormattedIp | bosh-director/lib/bosh/director/network_reservation.rb:32-34 | `formatted_ip` is nil exactly when the IP is nil, and otherwise is the formatter applied to the IP |
| NetworkReservation.MarkReserved | bosh-director/lib/bosh/director/network_reservation.rb:18-20 | `mark_reserved` makes `reserved?` true and changes no other field |
| NetworkReservation.ResolveIp | bosh-director/lib/bosh/director/network_reservation.rb:72-74 | `resolve_ip` sets the IP to `ip_to_i(x)` and keeps the type, the reserved flag, the instance and the network; an unparseable address fails |
| NetworkReservation.ResolveType | bosh-director/lib/bosh/director/network_reservation.rb:76-83 | on a desired reservation it succeeds exactly when the type asked for is the declared one, and then leaves the reservation unchanged; otherwise it raises the wrong-type error with the formatted IP, the network name and the declared type. On an existing reservation (lines 43-45) it never fails, sets the type and changes nothing else |
| NetworkReservation.ExistingTypeIsLastResolved | bosh-director/lib/bosh/director/network_reservation.rb:43-45 | any run of `resolve_type` calls on an existing reservation succeeds and leaves the last type asked for, with IP and reserved flag unchanged |
| NetworkReservation.Desc | bosh-director/lib/bosh/director/network_reservation.rb:47-87 | `desc` starts with "existing reservation" for an existing reservation (lines 47-49) and with the declared type followed by " reservation with IP '" for a desired one (lines 85-87); whenever there is an IP, the description contains its formatted form |
| NetworkReservation.DescTellsVariantsApart | bosh-director/lib/bosh/director/network_reservation.rb:47-87 | an existing and a desired reservation never have the same description |
| NetworkReservation.ExistingDescMentionsIp | bosh-director/lib/bosh/director/network_reservation.rb:47-49 | an existing reservation's `desc` has the " with IP" part exactly when it has an IP, and then contains the formatted IP |
| NetworkReservation.Message | bosh-director/lib/bosh/director/network_reservation.rb:78-79 | the wrong-type message starts with the formatted IP and the network prefix, contains the network name, and ends with the declared type's name and " pool" |
| NetworkReservation.WrongTypeMessageNamesReservation | bosh-director/lib/bosh/director/network_reservation.rb:77-80 | the message of a refused `resolve_type` contains the formatted IP, the network name and the declared type's name |
| NetworkReservation.RunReservedMonotone | bosh-director/lib/bosh/director/network_reservation.rb:14-20 | after any successful sequence of operations, the reservation is reserved exactly when it was reserved before or the sequence called `mark_reserved`; nothing clears the flag |
| NetworkReservation.RunKeepsDesiredType | bosh-director/lib/bosh/director/network_reservation.rb:76-83 | any successful sequence of operations on a desired reservation keeps its variant, declared type, instance and network |
| NetworkReservation.RunRejectsOtherType | bosh-director/lib/bosh/director/network_reservation.rb:77-80 | a sequence of operations on a desired reservation that asks for the other type fails |
| AgentBroadcaster.Add | src/bosh-director/lib/bosh/director/agent_broadcaster.rb:33 | `Set#add` keeps the set duplicate-free, appends a new member at the end and leaves an existing one in place |
| AgentBroadcaster.Remove | src/bosh-director/lib/bosh/director/agent_broadcaster.rb:43 | `Set#delete` removes exactly the given member and shrinks a duplicate-free set by one when the member was in it |
| AgentBroadcaster.IssueOne | src/bosh-director/lib/bosh/director/agent_broadcaster.rb:32-34 | one issuing step adds the instance to the pending set (`Set#add`) and records the returned request id for it, overwriting any earlier id of that instance and keeping every other id; the counters, versions and cancels are unchanged |
| AgentBroadcaster.IssueEach | src/bosh-director/lib/bosh/director/agent_broadcaster.rb:32-46 | after the issuing loop, pending and the request-id map hold exactly the earlier members plus every input instance, and the state stays well formed |
| AgentBroadcaster.Issue | src/bosh-director/lib/bosh/director/agent_broadcaster.rb:25-34 | the round starts with zero counts and no cancels; every input instance is pending and has a recorded request id, and nothing else does |
| AgentBroadcaster.IssueEachPending | src/bosh-director/lib/bosh/director/agent_broadcaster.rb:31-33 | with distinct instances, pending is exactly the instances in issue order |
| AgentBroadcaster.IssueEachIds | src/bosh-director/lib/bosh/director/agent_broadcaster.rb:34 | with distinct instances, each instance's recorded request id is the one its own command returned |
| AgentBroadcaster.Respond | src/bosh-director/lib/bosh/director/agent_broadcaster.rb:35-44 | a "synced" answer adds one to successful and sets the agent's DNS version; any other answer adds one to failed and leaves the versions alone. Either way the instance leaves pending, which shrinks by one if it was there, and nothing else changes |
| AgentBroadcaster.RespondIssueOneCommute | src/bosh-director/lib/bosh/director/agent_broadcaster.rb:32-45 | for two different instances, processing an answer from one before or after issuing to the other gives the same state, so running the issuing loop first loses no interleaving of distinct instances |
| AgentBroadcaster.RespondAccounting | src/bosh-director/lib/bosh/director/agent_broadcaster.rb:35-44 | one answer from a pending instance keeps successful + failed + pending constant |
| AgentBroadcaster.LateResponseIsCounted | src/bosh-director/lib/bosh/director/agent_broadcaster.rb:34-44 | an answer from an instance that is no longer pending still adds one to successful + failed and leaves pending unchanged; the callback has no guard |
| AgentBroadcaster.Deliver | src/bosh-director/lib/bosh/director/agent_broadcaster.rb:34-45 | any sequence of callbacks keeps the state well formed |
| AgentBroadcaster.DeliverCounts | src/bosh-director/lib/bosh/director/agent_broadcaster.rb:36-42 | over any sequence of answers, successful grows by the number of "synced" answers and failed by the number of others; unresponsive, request ids and cancels do not change |
| AgentBroadcaster.DeliverPending | src/bosh-director/lib/bosh/director/agent_broadcaster.rb:43 | answers from pending instances, each answering once, leave pending as the original pending minus the answering instances, in order, one fewer per answer |
| AgentBroadcaster.DeliverAccounting | src/bosh-director/lib/bosh/director/agent_broadcaster.rb:25-44 | the invariant successful + failed + pending stays constant over any such sequence of answers |
| AgentBroadcaster.DeliverRecordsVersion | src/bosh-director/lib/bosh/director/agent_broadcaster.rb:36-38 | an agent that answered "synced" ends with the round's DNS version recorded |
| AgentBroadcaster.DeliverKeepsVersion | src/bosh-director/lib/bosh/director/agent_broadcaster.rb:38 | an agent already at the round's version keeps it through any later answers |
| AgentBroadcaster.DeliverKeepsOtherVersions | src/bosh-director/lib/bosh/director/agent_broadcaster.rb:39-42 | an agent without a "synced" answer keeps the version it had, or stays without one |
| AgentBroadcaster.Finalize | src/bosh-director/lib/bosh/director/agent_broadcaster.rb:59-66 | finalization adds exactly the number of pending instances to unresponsive and issues one cancel per pending instance, in order, with that instance's recorded request id; successful, failed, versions and pending are unchanged |
| AgentBroadcaster.FinalizeKeepsEarlierCancels | src/bosh-director/lib/bosh/director/agent_broadcaster.rb:59-66 | finalization only appends cancels: every cancel recorded before it is kept, in its place |
| AgentBroadcaster.RequestIdsOfWithout | src/bosh-director/lib/bosh/director/agent_broadcaster.rb:60-62 | the ids cancelled for the still-pending entries are the ids recorded for the unanswered instances, in issue order |
| AgentBroadcaster.SyncDns | src/bosh-director/lib/bosh/director/agent_broadcaster.rb:25-66 | over distinct instances and answers from pending instances, each answering once: successful + failed + unresponsive = N; successful counts the "synced" answers, failed the others, unresponsive the silent instances; and exactly the silent instances' request ids are cancelled, in issue order |
| AgentBroadcaster.SyncDnsEmpty | src/bosh-director/lib/bosh/director/agent_broadcaster.rb:30-66 | with no instances, pending starts empty, nothing is cancelled and all three counts are zero |
| AgentBroadcaster.RepeatedInstanceUnderCounts | src/bosh-director/lib/bosh/director/agent_broadcaster.rb:30-66 | with an instance listed twice and only one of its commands answered, the tally is 1 for 2 commands and nothing is cancelled |
| AgentBroadcaster.FiveAgentRound | src/bosh-director/lib/bosh/director/agent_broadcaster.rb:20-69 | five agents, of which three answer "synced", one answers something else and one is silent, end as (3, 1, 1), and only the silent agent's request is cancelled |
| AgentBroadcaster.FilterInstances | src/bosh-director/lib/bosh/director/agent_broadcaster.rb:72-76 | `filter_instances` keeps exactly the instances that are not compilation instances, have an active VM and have a VM cid other than the excluded one |
| AgentBroadcaster.FilterInstancesCounts | src/bosh-director/lib/bosh/director/agent_broadcaster.rb:72-75 | every selected instance is kept as often as it occurs, and every other instance is dropped |
| AgentBroadcaster.FilterInstancesOrder | src/bosh-director/lib/bosh/director/agent_broadcaster.rb:72-75 | the selection keeps the original order: filtering a concatenation is concatenating the filtered parts |

## Left out

- Threads, the `Mutex`, the `sleep(0.1)` polling loop, `Timeout` and wall-clock time (agent_broadcaster.rb:23, 49-57, 68) are concurrency and timing. The timeout appears only as the point where `Finalize` runs. The answers that arrive before it are the response sequence.
- The default timeout `DEFAULT_BROADCAST_TIMEOUT` is kept as a constant only, because time is not modelled.
- `AgentClient` calls (`sync_dns`, `cancel_sync_dns`, `delete_arp_entries`) are network I/O. Request ids are inputs, and issued cancels are recorded as a list in the state.
- `delete_arp_entries` (agent_broadcaster.rb:12-18) is left out as a whole. It is a sequential loop of remote calls with no computed result; only its selection, `filter_instances`, is modelled.
- The model assumes that no collaborator call raises. The source behaves differently when one does. If the `AgentDnsVersion` update (agent_broadcaster.rb:38) raises, `num_successful` has already been incremented and `pending.delete` (line 43) is skipped. Finalization then also counts that instance as unresponsive, so successful + failed + unresponsive = N + 1. If an agent client's `sync_dns` (line 34) raises, the method exits before the wait loop, and the requests already sent are never cancelled. If `cancel_sync_dns` (line 62) raises, finalization stops part way. None of these paths is modelled.
- The `Models::AgentDnsVersion` write is a database call. It is modelled as an update of a map from agent id to version.
- The `Models::Instance` query is a database call. `FilterInstances` receives the rows as a sequence and applies the same predicate.
- `IpUtil` (`ip_to_i`, `ip_to_netaddr`) is not part of this model. It is passed in as an uninterpreted codec.
- Logger output, the summary log line and the `to_s` strings are diagnostics only. The messages of the invalid-address and undefined-method errors come from `IpUtil` and from Ruby itself. The model gives them placeholder wording and states nothing about it.
- The reported tally is the state right after `Finalize`. In the source, a callback that arrives after finalization still changes the counters (see `LateResponseIsCounted`). The model does not say which value the log line would read in that race.
- `NetworkReservation.NewDesired`: `DesiredNetworkReservation.new` can be called directly with any symbol or nil as the type. The model only accepts `static` or `dynamic`, which is all the two factories pass.
- `NetworkReservation.ResolveType`: the type argument is limited to `static` and `dynamic`. Ruby would accept any value, and on an existing reservation it would store that value.
- `NetworkReservation.ResolveIp`: it requires a desired reservation, because the existing class has no `resolve_ip` method. `Apply` models calling it on an existing reservation as the `UndefinedMethod` error.
- `AgentBroadcaster.SyncDns`: its tally is stated only for distinct instances (`OneAnswerEach`). With a repeated instance, the source keeps one pending entry and only the second request id. When both commands are answered the total still matches the number of commands. When only one is answered, the pending entry is already gone, so the silent command is neither counted as unresponsive nor cancelled, and the total falls one short (`RepeatedInstanceUnderCounts`).
- The pending set is not emptied by finalization, which matches the source.

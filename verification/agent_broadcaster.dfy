/** The tally logic of the BOSH director's AgentBroadcaster.

    `sync_dns` sends one command to every instance's agent, counts the agents
    that answer "synced" as successful and the others that answer as failed,
    and, when its timeout fires, cancels the request of every agent still
    pending and counts it as unresponsive. Each `lock.synchronize` block of
    the source is one atomic transition on `State`; the arbitrary interleaving
    of callbacks becomes an arbitrary sequence of responses. */
module AgentBroadcaster {
  import opened Wrappers

  /** DEFAULT_BROADCAST_TIMEOUT, in seconds; time itself is not modelled. */
  const DefaultBroadcastTimeout: nat := 10

  /** VALID_SYNC_DNS_RESPONSE. */
  const ValidSyncDnsResponse: string := "synced"

  type AgentId = string
  type RequestId = string
  type DnsVersion = int

  /** The fields of an instance row this core reads. `id` gives each record
      the identity a Ruby object has; `activeVm` is the active VM, if any. */
  datatype Instance = Instance(id: nat, agentId: AgentId, compilation: bool,
                               activeVm: Option<nat>, vmCid: Option<string>)

  /** One callback invocation: the instance it was registered for and the
      `value` field of the agent's response (None when the field is absent). */
  datatype Response = Response(instance: Instance, value: Option<string>)

  /** The state shared by the callbacks and the main thread.
      `pending` is Ruby's insertion-ordered Set; `dnsVersions` stands for the
      AgentDnsVersion table; `cancelled` lists the cancel_sync_dns calls made. */
  datatype State = State(
    pending: seq<Instance>,
    requestIds: map<Instance, RequestId>,
    successful: nat,
    failed: nat,
    unresponsive: nat,
    dnsVersions: map<AgentId, DnsVersion>,
    cancelled: seq<RequestId>)

  /** Each element occurs once. */
  predicate NoDuplicates<T(==)>(s: seq<T>)
    decreases |s|
  {
    |s| == 0 || (s[0] !in s[1..] && NoDuplicates(s[1..]))
  }

  /** Appending an element not yet present keeps a sequence duplicate-free. */
  lemma {:induction false} NoDuplicatesSnoc(xs: seq<Instance>, x: Instance)
    requires NoDuplicates(xs) && x !in xs
    ensures NoDuplicates(xs + [x])
    decreases |xs|
  {
    if |xs| > 0 {
      NoDuplicatesSnoc(xs[1..], x);
      assert (xs + [x])[1..] == xs[1..] + [x];
    }
  }

  /** A duplicate-free concatenation has duplicate-free, disjoint parts. */
  lemma {:induction false} NoDuplicatesConcat(a: seq<Instance>, b: seq<Instance>)
    requires NoDuplicates(a + b)
    ensures NoDuplicates(a) && NoDuplicates(b)
    ensures forall x | x in a :: x !in b
    decreases |a|
  {
    if |a| == 0 {
      assert a + b == b;
    } else {
      assert (a + b)[0] == a[0];
      assert (a + b)[1..] == a[1..] + b;
      NoDuplicatesConcat(a[1..], b);
      assert a == [a[0]] + a[1..];
    }
  }

  /** What every reachable state satisfies: the pending set has each instance
      once and every pending instance has its request id recorded. */
  predicate Valid(s: State) {
    && NoDuplicates(s.pending)
    && forall x | x in s.pending :: x in s.requestIds
  }

  // ---------------------------------------------------------------------------
  // Ordered-set helpers

  /** `Set#add`: a member already present keeps its place. */
  function Add(xs: seq<Instance>, x: Instance): (r: seq<Instance>)
    ensures forall y :: y in r <==> y in xs || y == x
    ensures NoDuplicates(xs) ==> NoDuplicates(r)
    ensures x !in xs ==> r == xs + [x]
    ensures x in xs ==> r == xs
  {
    if x in xs then xs
    else
      assert NoDuplicates(xs) ==> NoDuplicates(xs + [x]) by {
        if NoDuplicates(xs) { NoDuplicatesSnoc(xs, x); }
      }
      xs + [x]
  }

  /** `Set#delete`: the other members keep their order. */
  function Remove(xs: seq<Instance>, x: Instance): (r: seq<Instance>)
    ensures forall y :: y in r <==> y in xs && y != x
    ensures NoDuplicates(xs) ==> NoDuplicates(r)
    ensures x in xs && NoDuplicates(xs) ==> |r| == |xs| - 1
    ensures x !in xs ==> r == xs
    decreases |xs|
  {
    if |xs| == 0 then []
    else
      var rest := Remove(xs[1..], x);
      assert xs == [xs[0]] + xs[1..];
      if xs[0] == x then rest
      else
        assert ([xs[0]] + rest)[1..] == rest;
        [xs[0]] + rest
  }

  /** Deleting a member other than the last appended one commutes with the
      append. */
  lemma {:induction false} RemoveSnoc(xs: seq<Instance>, b: Instance, a: Instance)
    requires a != b
    ensures Remove(xs + [b], a) == Remove(xs, a) + [b]
    decreases |xs|
  {
    if |xs| > 0 {
      assert (xs + [b])[1..] == xs[1..] + [b];
      RemoveSnoc(xs[1..], b, a);
    } else {
      assert Remove([b], a) == [b] + Remove([], a);
    }
  }

  /** The members of `xs` outside `gone`, in their order. */
  function Without(xs: seq<Instance>, gone: set<Instance>): (r: seq<Instance>)
    ensures forall y :: y in r <==> y in xs && y !in gone
    decreases |xs|
  {
    if |xs| == 0 then []
    else if xs[0] in gone then Without(xs[1..], gone)
    else [xs[0]] + Without(xs[1..], gone)
  }

  /** Deleting members one at a time is filtering them out together. */
  lemma {:induction false} RemoveWithout(xs: seq<Instance>, gone: set<Instance>, x: Instance)
    ensures Remove(Without(xs, gone), x) == Without(xs, gone + {x})
    decreases |xs|
  {
    if |xs| > 0 {
      RemoveWithout(xs[1..], gone, x);
    }
  }

  // ---------------------------------------------------------------------------
  // Issuing the commands (the loop before the timeout starts)

  /** The state before any command is sent. */
  function Initial(dnsVersions: map<AgentId, DnsVersion>): State {
    State([], map[], 0, 0, 0, dnsVersions, [])
  }

  /** The loop body for one instance: add it to `pending`, then record the
      request id its `sync_dns` call returned. */
  function IssueOne(s: State, instance: Instance, id: RequestId): (r: State)
    ensures Valid(s) ==> Valid(r)
    ensures forall x :: x in r.pending <==> x in s.pending || x == instance
    ensures r.pending == Add(s.pending, instance)
    ensures r.requestIds == s.requestIds[instance := id]
    ensures r.successful == s.successful && r.failed == s.failed && r.unresponsive == s.unresponsive
    ensures r.dnsVersions == s.dnsVersions && r.cancelled == s.cancelled
  {
    s.(pending := Add(s.pending, instance), requestIds := s.requestIds[instance := id])
  }

  /** `instances.each` issuing one command per instance, in order; `ids[k]`
      is the request id the agent client returned for `instances[k]`. */
  function IssueEach(s: State, instances: seq<Instance>, ids: seq<RequestId>): (r: State)
    requires |ids| == |instances|
    ensures Valid(s) ==> Valid(r)
    ensures forall x :: x in r.pending <==> x in s.pending || x in instances
    ensures forall x :: x in r.requestIds <==> x in s.requestIds || x in instances
    ensures r.successful == s.successful && r.failed == s.failed && r.unresponsive == s.unresponsive
    ensures r.dnsVersions == s.dnsVersions && r.cancelled == s.cancelled
    decreases |instances|
  {
    if |instances| == 0 then s
    else IssueEach(IssueOne(s, instances[0], ids[0]), instances[1..], ids[1..])
  }

  /** The state once every command has been sent. */
  function Issue(instances: seq<Instance>, ids: seq<RequestId>, dnsVersions: map<AgentId, DnsVersion>)
    : (s: State)
    requires |ids| == |instances|
    ensures Valid(s)
    ensures forall x :: x in s.pending <==> x in instances
    ensures forall x :: x in s.requestIds <==> x in instances
    ensures s.successful == 0 && s.failed == 0 && s.unresponsive == 0
    ensures s.dnsVersions == dnsVersions && s.cancelled == []
  {
    IssueEach(Initial(dnsVersions), instances, ids)
  }

  /** Distinct instances not yet pending are appended to `pending` in issue
      order. */
  lemma {:induction false} IssueEachPending(s: State, instances: seq<Instance>, ids: seq<RequestId>)
    requires |ids| == |instances| && NoDuplicates(s.pending + instances)
    ensures IssueEach(s, instances, ids).pending == s.pending + instances
    decreases |instances|
  {
    if |instances| > 0 {
      var all := s.pending + instances;
      var x := instances[0];
      NoDuplicatesConcat(s.pending, instances);
      assert x !in s.pending;
      var s' := IssueOne(s, x, ids[0]);
      assert s'.pending == s.pending + [x];
      assert s'.pending + instances[1..] == all;
      IssueEachPending(s', instances[1..], ids[1..]);
    }
  }

  /** Distinct instances each get the request id their own command returned. */
  lemma {:induction false} IssueEachIds(s: State, instances: seq<Instance>, ids: seq<RequestId>, k: nat)
    requires |ids| == |instances| && NoDuplicates(instances) && k < |instances|
    ensures IssueEach(s, instances, ids).requestIds[instances[k]] == ids[k]
    decreases |instances|
  {
    var x := instances[0];
    var s' := IssueOne(s, x, ids[0]);
    if k == 0 {
      IssueEachKeepsId(s', instances[1..], ids[1..], x);
    } else {
      assert instances[1..][k - 1] == instances[k];
      IssueEachIds(s', instances[1..], ids[1..], k - 1);
    }
  }

  /** An instance the loop does not reach keeps its recorded request id. */
  lemma {:induction false} IssueEachKeepsId(s: State, instances: seq<Instance>, ids: seq<RequestId>, x: Instance)
    requires |ids| == |instances| && x in s.requestIds && x !in instances
    ensures IssueEach(s, instances, ids).requestIds[x] == s.requestIds[x]
    decreases |instances|
  {
    if |instances| > 0 {
      IssueEachKeepsId(IssueOne(s, instances[0], ids[0]), instances[1..], ids[1..], x);
    }
  }

  // ---------------------------------------------------------------------------
  // The two synchronized transitions

  /** The response callback (one `lock.synchronize` block). It does not check
      that the instance is still pending. */
  function Respond(s: State, instance: Instance, value: Option<string>, version: DnsVersion): (r: State)
    ensures value == Some(ValidSyncDnsResponse) ==>
              && r.successful == s.successful + 1 && r.failed == s.failed
              && r.dnsVersions == s.dnsVersions[instance.agentId := version]
    ensures value != Some(ValidSyncDnsResponse) ==>
              && r.failed == s.failed + 1 && r.successful == s.successful
              && r.dnsVersions == s.dnsVersions
    ensures forall x :: x in r.pending <==> x in s.pending && x != instance
    ensures instance in s.pending && Valid(s) ==> |r.pending| == |s.pending| - 1
    ensures Valid(s) ==> Valid(r)
    ensures r.unresponsive == s.unresponsive && r.requestIds == s.requestIds
    ensures r.cancelled == s.cancelled
  {
    var s' :=
      if value == Some(ValidSyncDnsResponse) then
        s.(successful := s.successful + 1,
           dnsVersions := s.dnsVersions[instance.agentId := version])
      else
        s.(failed := s.failed + 1);
    s'.(pending := Remove(s.pending, instance))
  }

  /** Processing an answer from one instance before or after issuing the
      command to another instance ends in the same state. So, for distinct
      instances, letting the issuing loop finish before any callback runs
      loses no interleaving. */
  lemma RespondIssueOneCommute(s: State, a: Instance, b: Instance, id: RequestId,
                               value: Option<string>, version: DnsVersion)
    requires a != b
    ensures Respond(IssueOne(s, b, id), a, value, version) == IssueOne(Respond(s, a, value, version), b, id)
  {
    if b !in s.pending {
      RemoveSnoc(s.pending, b, a);
    }
  }

  /** The request ids of `xs`, in order. */
  function RequestIdsOf(xs: seq<Instance>, ids: map<Instance, RequestId>): (r: seq<RequestId>)
    requires forall x | x in xs :: x in ids
    ensures |r| == |xs|
    ensures forall k | 0 <= k < |xs| :: r[k] == ids[xs[k]]
    decreases |xs|
  {
    if |xs| == 0 then [] else [ids[xs[0]]] + RequestIdsOf(xs[1..], ids)
  }

  /** Finalization after the wait loop (one `lock.synchronize` block): one
      cancel per pending instance, with its recorded request id, and one
      unresponsive count each. The pending set itself is left as it is. */
  function Finalize(s: State): (r: State)
    requires Valid(s)
    ensures r.unresponsive == s.unresponsive + |s.pending|
    ensures |r.cancelled| == |s.cancelled| + |s.pending|
    ensures forall k | 0 <= k < |s.pending| ::
              r.cancelled[|s.cancelled| + k] == s.requestIds[s.pending[k]]
    ensures r.successful == s.successful && r.failed == s.failed
    ensures r.dnsVersions == s.dnsVersions && r.pending == s.pending
  {
    s.(cancelled := s.cancelled + RequestIdsOf(s.pending, s.requestIds),
       unresponsive := s.unresponsive + |s.pending|)
  }

  /** Finalization only appends: the cancels issued before stay as they were. */
  lemma FinalizeKeepsEarlierCancels(s: State)
    requires Valid(s)
    ensures Finalize(s).cancelled[..|s.cancelled|] == s.cancelled
  {
  }

  // ---------------------------------------------------------------------------
  // Any sequence of responses

  /** The response callbacks in the order they took the lock. */
  function Deliver(s: State, responses: seq<Response>, version: DnsVersion): (t: State)
    ensures Valid(s) ==> Valid(t)
    decreases |responses|
  {
    if |responses| == 0 then s
    else Deliver(Respond(s, responses[0].instance, responses[0].value, version), responses[1..], version)
  }

  /** The instances that answered. */
  function Answered(responses: seq<Response>): (a: set<Instance>)
    ensures forall k | 0 <= k < |responses| :: responses[k].instance in a
    decreases |responses|
  {
    if |responses| == 0 then {} else {responses[0].instance} + Answered(responses[1..])
  }

  function CountSynced(responses: seq<Response>): nat
    decreases |responses|
  {
    if |responses| == 0 then 0
    else (if responses[0].value == Some(ValidSyncDnsResponse) then 1 else 0) + CountSynced(responses[1..])
  }

  /** Each response is for an instance pending when it arrives and no
      instance answers twice. */
  predicate PendingOnce(pending: seq<Instance>, responses: seq<Response>) {
    && (forall k | 0 <= k < |responses| :: responses[k].instance in pending)
    && (forall j, k | 0 <= j < k < |responses| :: responses[j].instance != responses[k].instance)
  }

  /** One response from a pending instance moves it out of `pending` into
      exactly one of the successful and failed counts. */
  lemma RespondAccounting(s: State, r: Response, version: DnsVersion)
    requires Valid(s) && r.instance in s.pending
    ensures var t := Respond(s, r.instance, r.value, version);
            && t.successful + t.failed + |t.pending| == s.successful + s.failed + |s.pending|
            && t.successful == s.successful + CountSynced([r])
            && t.failed == s.failed + 1 - CountSynced([r])
  {
  }

  /** Every response, whatever its instance, lands in exactly one of the
      successful and failed counts; finalization's fields are not touched. */
  lemma {:induction false} DeliverCounts(s: State, responses: seq<Response>, version: DnsVersion)
    ensures var t := Deliver(s, responses, version);
            && t.successful == s.successful + CountSynced(responses)
            && t.failed == s.failed + |responses| - CountSynced(responses)
            && t.unresponsive == s.unresponsive && t.requestIds == s.requestIds
            && t.cancelled == s.cancelled
    decreases |responses|
  {
    if |responses| > 0 {
      var s' := Respond(s, responses[0].instance, responses[0].value, version);
      DeliverCounts(s', responses[1..], version);
    }
  }

  /** After the first response removed its instance, the remaining responses
      are still from pending instances, each once. */
  lemma PendingOnceTail(pending: seq<Instance>, responses: seq<Response>)
    requires |responses| > 0 && PendingOnce(pending, responses)
    ensures PendingOnce(Remove(pending, responses[0].instance), responses[1..])
  {
    var rest := responses[1..];
    var p' := Remove(pending, responses[0].instance);
    forall k | 0 <= k < |rest| ensures rest[k].instance in p' {
      assert rest[k] == responses[k + 1];
      assert responses[0].instance != responses[k + 1].instance;
    }
    forall j, k | 0 <= j < k < |rest| ensures rest[j].instance != rest[k].instance {
      assert rest[j] == responses[j + 1] && rest[k] == responses[k + 1];
    }
  }

  /** Responses from pending instances, each once, remove exactly the
      answering instances from `pending`, one each. */
  lemma {:induction false} DeliverPending(s: State, responses: seq<Response>, version: DnsVersion)
    requires Valid(s) && PendingOnce(s.pending, responses)
    ensures var t := Deliver(s, responses, version);
            && t.pending == Without(s.pending, Answered(responses))
            && |t.pending| == |s.pending| - |responses|
    decreases |responses|
  {
    if |responses| == 0 {
      WithoutNothing(s.pending);
    } else {
      var r := responses[0];
      var rest := responses[1..];
      var s' := Respond(s, r.instance, r.value, version);
      PendingOnceTail(s.pending, responses);
      DeliverPending(s', rest, version);
      var t := Deliver(s', rest, version);
      assert Deliver(s, responses, version) == t;
      assert s'.pending == Remove(s.pending, r.instance);
      WithoutNothing(s.pending);
      RemoveWithout(s.pending, {}, r.instance);
      assert {} + {r.instance} == {r.instance};
      WithoutTwice(s.pending, {r.instance}, Answered(rest));
      assert Answered(responses) == {r.instance} + Answered(rest);
    }
  }

  /** The accounting invariant: over any sequence of responses from pending
      instances, each answering once, successful + failed + pending stays
      what it was. */
  lemma DeliverAccounting(s: State, responses: seq<Response>, version: DnsVersion)
    requires Valid(s) && PendingOnce(s.pending, responses)
    ensures var t := Deliver(s, responses, version);
            t.successful + t.failed + |t.pending| == s.successful + s.failed + |s.pending|
  {
    DeliverCounts(s, responses, version);
    DeliverPending(s, responses, version);
  }

  lemma {:induction false} WithoutNothing(xs: seq<Instance>)
    ensures Without(xs, {}) == xs
    decreases |xs|
  {
    if |xs| > 0 {
      WithoutNothing(xs[1..]);
    }
  }

  lemma {:induction false} WithoutTwice(xs: seq<Instance>, a: set<Instance>, b: set<Instance>)
    ensures Without(Without(xs, a), b) == Without(xs, a + b)
    decreases |xs|
  {
    if |xs| > 0 {
      WithoutTwice(xs[1..], a, b);
    }
  }

  /** A response arriving after its instance left `pending` (a late answer
      after finalization, or a second answer) is still counted: the callback
      has no guard, so only the precondition of `DeliverAccounting` keeps the
      tally exact. */
  lemma LateResponseIsCounted(s: State, instance: Instance, value: Option<string>, version: DnsVersion)
    requires instance !in s.pending
    ensures var t := Respond(s, instance, value, version);
            && t.successful + t.failed == s.successful + s.failed + 1
            && t.pending == s.pending
  {
  }

  // ---------------------------------------------------------------------------
  // The whole round

  /** The request ids of the instances that did not answer, in the order the
      commands were issued. */
  function UnansweredIds(instances: seq<Instance>, ids: seq<RequestId>, answered: set<Instance>)
    : seq<RequestId>
    requires |ids| == |instances|
    decreases |instances|
  {
    if |instances| == 0 then []
    else (if instances[0] in answered then [] else [ids[0]])
         + UnansweredIds(instances[1..], ids[1..], answered)
  }

  /** Cancelling the unanswered pending entries one by one yields their
      request ids in issue order. */
  lemma {:induction false} RequestIdsOfWithout(instances: seq<Instance>, ids: seq<RequestId>,
                                               m: map<Instance, RequestId>, answered: set<Instance>)
    requires |ids| == |instances|
    requires forall k | 0 <= k < |instances| :: instances[k] in m && m[instances[k]] == ids[k]
    ensures forall x | x in Without(instances, answered) :: x in m
    ensures RequestIdsOf(Without(instances, answered), m) == UnansweredIds(instances, ids, answered)
    decreases |instances|
  {
    if |instances| > 0 {
      RequestIdsOfWithout(instances[1..], ids[1..], m, answered);
    }
  }

  /** The round's inputs are well behaved: the instances are distinct, and the
      answers come from targeted instances, one answer each. */
  predicate OneAnswerEach(instances: seq<Instance>, responses: seq<Response>) {
    NoDuplicates(instances) && PendingOnce(instances, responses)
  }

  /** `sync_dns`: issue every command, deliver the responses that arrived
      before the timeout (in arrival order), then finalize. */
  function SyncDns(instances: seq<Instance>, ids: seq<RequestId>, responses: seq<Response>,
                   version: DnsVersion, dnsVersions: map<AgentId, DnsVersion>): (o: State)
    requires |ids| == |instances|
    ensures OneAnswerEach(instances, responses) ==> o.successful + o.failed + o.unresponsive == |instances|
    ensures OneAnswerEach(instances, responses) ==> o.successful == CountSynced(responses)
    ensures OneAnswerEach(instances, responses) ==> o.failed == |responses| - CountSynced(responses)
    ensures OneAnswerEach(instances, responses) ==> o.unresponsive == |instances| - |responses|
    ensures OneAnswerEach(instances, responses) ==> o.cancelled == UnansweredIds(instances, ids, Answered(responses))
  {
    var issued := Issue(instances, ids, dnsVersions);
    var t := Finalize(Deliver(issued, responses, version));
    assert OneAnswerEach(instances, responses) ==>
             && t.successful + t.failed + t.unresponsive == |instances|
             && t.successful == CountSynced(responses)
             && t.failed == |responses| - CountSynced(responses)
             && t.unresponsive == |instances| - |responses|
             && t.cancelled == UnansweredIds(instances, ids, Answered(responses))
    by {
      if OneAnswerEach(instances, responses) {
        DeliverCounts(issued, responses, version);
        DeliverPending(issued, responses, version);
        assert Initial(dnsVersions).pending + instances == instances;
        IssueEachPending(Initial(dnsVersions), instances, ids);
        forall k | 0 <= k < |instances|
          ensures instances[k] in issued.requestIds && issued.requestIds[instances[k]] == ids[k]
        {
          IssueEachIds(Initial(dnsVersions), instances, ids, k);
        }
        RequestIdsOfWithout(instances, ids, issued.requestIds, Answered(responses));
      }
    }
    t
  }


  /** A "synced" answer records the round's DNS version for its agent, and
      later answers keep it. */
  lemma {:induction false} DeliverRecordsVersion(s: State, responses: seq<Response>, version: DnsVersion, k: nat)
    requires k < |responses| && responses[k].value == Some(ValidSyncDnsResponse)
    ensures responses[k].instance.agentId in Deliver(s, responses, version).dnsVersions
    ensures Deliver(s, responses, version).dnsVersions[responses[k].instance.agentId] == version
    decreases |responses|
  {
    var s' := Respond(s, responses[0].instance, responses[0].value, version);
    if k == 0 {
      DeliverKeepsVersion(s', responses[1..], version, responses[0].instance.agentId);
    } else {
      assert responses[1..][k - 1] == responses[k];
      DeliverRecordsVersion(s', responses[1..], version, k - 1);
    }
  }

  /** An agent with no "synced" answer keeps the version it had recorded, or
      stays without one. */
  lemma {:induction false} DeliverKeepsOtherVersions(s: State, responses: seq<Response>, version: DnsVersion,
                                                     a: AgentId)
    requires forall k | 0 <= k < |responses| ::
               (responses[k].instance.agentId == a ==> responses[k].value != Some(ValidSyncDnsResponse))
    ensures a in Deliver(s, responses, version).dnsVersions <==> a in s.dnsVersions
    ensures a in s.dnsVersions ==> Deliver(s, responses, version).dnsVersions[a] == s.dnsVersions[a]
    decreases |responses|
  {
    if |responses| > 0 {
      var rest := responses[1..];
      forall k | 0 <= k < |rest|
        ensures rest[k].instance.agentId == a ==> rest[k].value != Some(ValidSyncDnsResponse)
      {
        assert rest[k] == responses[k + 1];
      }
      DeliverKeepsOtherVersions(Respond(s, responses[0].instance, responses[0].value, version), rest, version, a);
    }
  }

  /** Once an agent's version is the round's version, later answers keep it. */
  lemma {:induction false} DeliverKeepsVersion(s: State, responses: seq<Response>, version: DnsVersion, a: AgentId)
    requires a in s.dnsVersions && s.dnsVersions[a] == version
    ensures a in Deliver(s, responses, version).dnsVersions
    ensures Deliver(s, responses, version).dnsVersions[a] == version
    decreases |responses|
  {
    if |responses| > 0 {
      DeliverKeepsVersion(Respond(s, responses[0].instance, responses[0].value, version),
                          responses[1..], version, a);
    }
  }

  /** With no instances nothing is pending, nothing is cancelled and every
      count is zero. */
  lemma SyncDnsEmpty(version: DnsVersion, dnsVersions: map<AgentId, DnsVersion>)
    ensures Issue([], [], dnsVersions).pending == []
    ensures var o := SyncDns([], [], [], version, dnsVersions);
            o.successful == 0 && o.failed == 0 && o.unresponsive == 0 && o.cancelled == []
  {
  }

  /** An instance listed twice has one pending entry, and its recorded request
      id is the second one. When only one of its two commands is answered, the
      other is neither counted nor cancelled: the tally falls one short of the
      number of commands sent. */
  lemma RepeatedInstanceUnderCounts(x: Instance, version: DnsVersion)
    ensures var o := SyncDns([x, x], ["r1", "r2"], [Response(x, Some(ValidSyncDnsResponse))], version, map[]);
            && o.successful + o.failed + o.unresponsive == 1
            && o.cancelled == []
  {
    var s1 := IssueOne(Initial(map[]), x, "r1");
    var s2 := IssueOne(s1, x, "r2");
    assert [x, x][1..] == [x] && ["r1", "r2"][1..] == ["r2"];
    assert Issue([x, x], ["r1", "r2"], map[]) == IssueEach(s1, [x], ["r2"]) == s2;
    assert s2.pending == [x];
    var rs := [Response(x, Some(ValidSyncDnsResponse))];
    var t := Respond(s2, x, Some(ValidSyncDnsResponse), version);
    assert Deliver(s2, rs, version) == Deliver(t, rs[1..], version) == t;
    assert t.pending == [] && t.successful == 1 && t.failed == 0 && t.unresponsive == 0;
  }

  /** A round of five agents: agents 1 to 3 answer "synced", agent 4 answers
      something else and agent 5 never answers. */
  function FiveAgents(): seq<Instance> {
    [Instance(1, "agent-1", false, Some(1), Some("vm-1")),
     Instance(2, "agent-2", false, Some(2), Some("vm-2")),
     Instance(3, "agent-3", false, Some(3), Some("vm-3")),
     Instance(4, "agent-4", false, Some(4), Some("vm-4")),
     Instance(5, "agent-5", false, Some(5), Some("vm-5"))]
  }

  function FiveAgentResponses(): seq<Response> {
    var xs := FiveAgents();
    [Response(xs[2], Some("synced")), Response(xs[0], Some("synced")),
     Response(xs[3], Some("bad-value")), Response(xs[1], Some("synced"))]
  }

  lemma FiveAgentInputs()
    ensures OneAnswerEach(FiveAgents(), FiveAgentResponses())
  {
    var xs := FiveAgents();
    var rs := FiveAgentResponses();
    forall i, j | 0 <= i < j < |xs| ensures xs[i] != xs[j] {
      assert xs[i].id == i + 1 && xs[j].id == j + 1;
    }
    forall j, k | 0 <= j < k < |rs| ensures rs[j].instance != rs[k].instance {
      assert rs[j].instance.id != rs[k].instance.id;
    }
  }

  lemma FiveAgentAnswers()
    ensures CountSynced(FiveAgentResponses()) == 3
    ensures UnansweredIds(FiveAgents(), ["r1", "r2", "r3", "r4", "r5"], Answered(FiveAgentResponses())) == ["r5"]
  {
    var xs := FiveAgents();
    var rs := FiveAgentResponses();
    assert rs[1..][1..][1..][1..] == [];
    assert CountSynced(rs[1..][1..][1..]) == 1;
    assert CountSynced(rs[1..][1..]) == 1;
    assert Answered(rs[1..][1..][1..]) == {xs[1]};
    assert Answered(rs[1..][1..]) == {xs[3], xs[1]};
    assert Answered(rs[1..]) == {xs[0], xs[3], xs[1]};
    assert Answered(rs) == {xs[2], xs[0], xs[3], xs[1]};
    assert xs[4] !in Answered(rs);
  }

  /** The round above ends with three successful, one failed and one
      unresponsive agent, and only the silent agent's request is cancelled. */
  lemma FiveAgentRound(version: DnsVersion)
    ensures var o := SyncDns(FiveAgents(), ["r1", "r2", "r3", "r4", "r5"], FiveAgentResponses(), version, map[]);
            o.successful == 3 && o.failed == 1 && o.unresponsive == 1 && o.cancelled == ["r5"]
  {
    FiveAgentInputs();
    FiveAgentAnswers();
  }

  // ---------------------------------------------------------------------------
  // filter_instances

  /** The selection of `filter_instances`: not a compilation instance, an
      active VM present, and a VM cid other than the excluded one. */
  predicate Selected(i: Instance, excludedCid: Option<string>) {
    !i.compilation && i.activeVm.Some? && i.vmCid != excludedCid
  }

  function FilterInstances(all: seq<Instance>, excludedCid: Option<string>): (r: seq<Instance>)
    ensures forall x :: x in r <==> x in all && Selected(x, excludedCid)
    decreases |all|
  {
    if |all| == 0 then []
    else
      (if Selected(all[0], excludedCid) then [all[0]] else []) + FilterInstances(all[1..], excludedCid)
  }

  /** The selection keeps every selected instance as often as it occurs and
      drops every other one. */
  lemma {:induction false} FilterInstancesCounts(all: seq<Instance>, excludedCid: Option<string>, x: Instance)
    ensures multiset(FilterInstances(all, excludedCid))[x]
            == if Selected(x, excludedCid) then multiset(all)[x] else 0
    decreases |all|
  {
    if |all| > 0 {
      FilterInstancesCounts(all[1..], excludedCid, x);
      assert all == [all[0]] + all[1..];
    }
  }

  /** The selection keeps the original order: filtering a concatenation is
      concatenating the filtered parts. */
  lemma {:induction false} FilterInstancesOrder(a: seq<Instance>, b: seq<Instance>, excludedCid: Option<string>)
    ensures FilterInstances(a + b, excludedCid) == FilterInstances(a, excludedCid) + FilterInstances(b, excludedCid)
    decreases |a|
  {
    if |a| == 0 {
      assert a + b == b;
    } else {
      var ab := a + b;
      assert ab[0] == a[0];
      assert ab[1..] == a[1..] + b;
      FilterInstancesOrder(a[1..], b, excludedCid);
      var head := if Selected(a[0], excludedCid) then [a[0]] else [];
      assert FilterInstances(ab, excludedCid) == head + FilterInstances(ab[1..], excludedCid);
      assert FilterInstances(a, excludedCid) == head + FilterInstances(a[1..], excludedCid);
    }
  }
}

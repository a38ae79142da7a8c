/** Prompt-cache attribution (capturer/snapshot.go, capturer/merge.go): requests
    complete in any order, but each thread's tokens are attributed in arrival
    order, so that the totals are those of a recomputation over sorted requests
    (benchmarks/analyze_capture.py). */
module CacheAttribution {
  import opened Wrappers

  datatype ProviderUsage = ProviderUsage(inputTokens: nat, cachedTokens: nat)

  datatype Usage = Usage(input: nat, cached: nat, uncached: nat)

  function Min(a: nat, b: nat): nat {
    if a < b then a else b
  }

  /** usageOf: more cached tokens than input tokens are clamped. */
  function UsageOf(usage: ProviderUsage): Usage {
    var cached := Min(usage.inputTokens, usage.cachedTokens);
    Usage(usage.inputTokens, cached, usage.inputTokens - cached)
  }

  datatype Totals = Totals(eligible: nat, cached: nat, miss: nat, cold: nat)

  datatype Account = Account(totals: Totals, previous: map<string, nat>)

  const NO_TOTALS := Totals(0, 0, 0, 0)

  // ---- The reference: one request after the other, in arrival order ---------------

  // What one finished request adds, given the input its thread sent last.
  function Share(previous: map<string, nat>, thread: string, observed: Option<ProviderUsage>): Totals {
    if observed.None? then NO_TOTALS else
    var usage := UsageOf(observed.value);
    if thread == "" then Totals(0, 0, 0, usage.uncached) else
    var eligible := Min(if thread in previous then previous[thread] else 0, usage.input);
    var cached := Min(eligible, usage.cached);
    Totals(eligible, cached, eligible - cached, usage.uncached - (eligible - cached))
  }

  function NextInput(previous: map<string, nat>, thread: string, observed: Option<ProviderUsage>): map<string, nat> {
    if thread == "" then previous
    else if observed.None? then previous - {thread}
    else previous[thread := observed.value.inputTokens]
  }

  function Plus(a: Totals, b: Totals): Totals {
    Totals(a.eligible + b.eligible, a.cached + b.cached, a.miss + b.miss, a.cold + b.cold)
  }

  /** How one finished request changes the account: a request without a thread only
      adds uncached tokens, one without usage makes its thread start anew. */
  function Attribute(account: Account, thread: string, observed: Option<ProviderUsage>): Account {
    Account(Plus(account.totals, Share(account.previous, thread, observed)),
      NextInput(account.previous, thread, observed))
  }

  type Outcomes = map<nat, Option<ProviderUsage>>

  /** The account of the settled ones among the first `n` requests. */
  function Fold(threads: seq<string>, outcomes: Outcomes, settled: set<nat>, n: nat): Account
    requires n <= |threads|
  {
    if n == 0 then Account(NO_TOTALS, map[])
    else
      var account := Fold(threads, outcomes, settled, n - 1);
      if n - 1 in settled && n - 1 in outcomes then Attribute(account, threads[n - 1], outcomes[n - 1]) else account
  }

  // ---- Requests of different threads commute -------------------------------------------

  lemma InputsCommute(previous: map<string, nat>, a: string, x: Option<ProviderUsage>, b: string,
                      y: Option<ProviderUsage>)
    requires a != b
    ensures NextInput(NextInput(previous, a, x), b, y) == NextInput(NextInput(previous, b, y), a, x)
    ensures Share(NextInput(previous, a, x), b, y) == Share(previous, b, y)
    ensures Share(NextInput(previous, b, y), a, x) == Share(previous, a, x)
  {
  }

  lemma AttributeCommutes(account: Account, a: string, x: Option<ProviderUsage>, b: string, y: Option<ProviderUsage>)
    requires a != b || a == ""
    ensures Attribute(Attribute(account, a, x), b, y) == Attribute(Attribute(account, b, y), a, x)
  {
    if a != b {
      InputsCommute(account.previous, a, x, b, y);
    }
  }

  // Nothing of the thread that arrived later is settled.
  ghost predicate IsLastOfThread(threads: seq<string>, settled: set<nat>, i: nat)
    requires i < |threads|
  {
    threads[i] != "" ==>
      forall j :: i < j < |threads| && threads[j] == threads[i] ==> j !in settled
  }

  /** Settling a request after the ones of its thread has the effect of attributing
      it last, whatever arrived and settled in other threads. */
  lemma {:induction false} SettleOneMore(threads: seq<string>, outcomes: Outcomes, settled: set<nat>, i: nat, n: nat)
    requires i < n <= |threads| && i in outcomes && i !in settled && IsLastOfThread(threads, settled, i)
    ensures Fold(threads, outcomes, settled + {i}, n)
        == Attribute(Fold(threads, outcomes, settled, n), threads[i], outcomes[i])
    decreases n
  {
    if i == n - 1 {
      SameFold(threads, outcomes, outcomes, settled + {i}, settled, i);
    } else {
      SettleOneMore(threads, outcomes, settled, i, n - 1);
      var account := Fold(threads, outcomes, settled, n - 1);
      if n - 1 in settled && n - 1 in outcomes {
        AttributeCommutes(account, threads[i], outcomes[i], threads[n - 1], outcomes[n - 1]);
        assert Fold(threads, outcomes, settled, n) == Attribute(account, threads[n - 1], outcomes[n - 1]);
      } else {
        assert Fold(threads, outcomes, settled, n) == account;
      }
    }
  }

  // The account depends only on settled requests and their outcomes.
  lemma {:induction false} SameFold(threads: seq<string>, left: Outcomes, right: Outcomes, a: set<nat>, b: set<nat>,
                                    n: nat)
    requires n <= |threads|
    requires forall i :: 0 <= i < n && ((i in a && i in left) || (i in b && i in right)) ==>
      i in a && i in left && i in b && i in right && left[i] == right[i]
    ensures Fold(threads, left, a, n) == Fold(threads, right, b, n)
    decreases n
  {
    if n > 0 {
      SameFold(threads, left, right, a, b, n - 1);
    }
  }

  lemma {:induction false} FoldLonger(threads: seq<string>, thread: string, outcomes: Outcomes, settled: set<nat>,
                                      n: nat)
    requires n <= |threads|
    ensures Fold(threads + [thread], outcomes, settled, n) == Fold(threads, outcomes, settled, n)
    decreases n
  {
    if n > 0 {
      FoldLonger(threads, thread, outcomes, settled, n - 1);
    }
  }

  // ---- Which requests have been counted ---------------------------------------------------

  // Completed, together with everything that arrived before in its thread.
  ghost predicate IsSettled(threads: seq<string>, outcomes: Outcomes, i: nat) {
    && i < |threads| && i in outcomes
    && (threads[i] != "" ==> forall j :: 0 <= j < i && threads[j] == threads[i] ==> j in outcomes)
  }

  ghost function Settled(threads: seq<string>, outcomes: Outcomes): set<nat> {
    set i | 0 <= i < |threads| && IsSettled(threads, outcomes, i)
  }

  /** What the recorder must show: the longest completed prefix of each thread and
      every completed request without a thread, folded in arrival order. */
  ghost function Due(threads: seq<string>, outcomes: Outcomes): Account {
    Fold(threads, outcomes, Settled(threads, outcomes), |threads|)
  }

  /** The recomputation over all requests in order of sequence. */
  function Recomputed(threads: seq<string>, outcomes: seq<Option<ProviderUsage>>): Account
    requires |threads| == |outcomes|
  {
    if threads == [] then Account(NO_TOTALS, map[]) else
    var last := |threads| - 1;
    Attribute(Recomputed(threads[..last], outcomes[..last]), threads[last], outcomes[last])
  }

  lemma {:induction false} FoldAll(threads: seq<string>, outcomes: Outcomes, settled: set<nat>,
                                   all: seq<Option<ProviderUsage>>, n: nat)
    requires n <= |threads| == |all|
    requires forall i :: 0 <= i < |threads| ==> i in settled && i in outcomes && outcomes[i] == all[i]
    ensures Fold(threads, outcomes, settled, n) == Recomputed(threads[..n], all[..n])
    decreases n
  {
    if n > 0 {
      FoldAll(threads, outcomes, settled, all, n - 1);
      assert threads[..n][..n - 1] == threads[..n - 1] && all[..n][..n - 1] == all[..n - 1];
    }
  }

  /** Once every request has completed, in whatever order, the account is the
      recomputation in arrival order. */
  lemma AllCompleteIsRecomputed(threads: seq<string>, outcomes: Outcomes, all: seq<Option<ProviderUsage>>)
    requires |threads| == |all| && forall i :: 0 <= i < |threads| ==> i in outcomes && outcomes[i] == all[i]
    ensures Due(threads, outcomes) == Recomputed(threads, all)
  {
    forall i | 0 <= i < |threads| ensures i in Settled(threads, outcomes) {
      assert IsSettled(threads, outcomes, i);
    }
    FoldAll(threads, outcomes, Settled(threads, outcomes), all, |threads|);
    assert threads[..|threads|] == threads && all[..|threads|] == all;
  }

  // ---- What the totals count --------------------------------------------------------------

  // How many of the first `n` token positions of a prompt are meant.
  function Positions(n: nat, meant: nat -> bool): nat {
    if n == 0 then 0 else Positions(n - 1, meant) + if meant(n - 1) then 1 else 0
  }

  /** What one request counts, position by position: a position is eligible when the
      previous request of the thread reached it, and cached when the provider says so;
      what is eligible is cached or missed, and the rest is cached or cold. */
  function ByPosition(prior: nat, usage: ProviderUsage): Totals {
    var n := usage.inputTokens;
    Totals(Positions(n, p => p < prior),
           Positions(n, p => p < prior && p < usage.cachedTokens),
           Positions(n, p => p < prior && p >= usage.cachedTokens),
           Positions(n, p => p >= prior && p >= usage.cachedTokens))
  }

  // The input of the last of the first `n` requests of the thread, if that had a usage.
  function InputBefore(threads: seq<string>, all: seq<Option<ProviderUsage>>, n: nat, thread: string): nat
    requires n <= |threads| == |all|
  {
    if n == 0 || thread == "" then 0
    else if threads[n - 1] != thread then InputBefore(threads, all, n - 1, thread)
    else if all[n - 1].Some? then all[n - 1].value.inputTokens else 0
  }

  function TotalsByPosition(threads: seq<string>, all: seq<Option<ProviderUsage>>, n: nat): Totals
    requires n <= |threads| == |all|
  {
    if n == 0 then NO_TOTALS
    else
      var before := TotalsByPosition(threads, all, n - 1);
      if all[n - 1].None? then before
      else Plus(before, ByPosition(InputBefore(threads, all, n - 1, threads[n - 1]), all[n - 1].value))
  }

  lemma {:induction false} PositionsBetween(n: nat, meant: nat -> bool, from: nat, to: nat)
    requires forall p: nat :: p < n ==> (meant(p) <==> from <= p < to)
    ensures Positions(n, meant) == if Min(n, to) < from then 0 else Min(n, to) - from
  {
    if n > 0 {
      PositionsBetween(n - 1, meant, from, to);
    }
  }

  lemma ShareIsByPosition(previous: map<string, nat>, thread: string, usage: ProviderUsage, prior: nat)
    requires prior == if thread != "" && thread in previous then previous[thread] else 0
    ensures Share(previous, thread, Some(usage)) == ByPosition(prior, usage)
  {
    var n, cached := usage.inputTokens, usage.cachedTokens;
    PositionsBetween(n, p => p < prior, 0, prior);
    PositionsBetween(n, p => p < prior && p < cached, 0, Min(prior, cached));
    PositionsBetween(n, p => p < prior && p >= cached, cached, prior);
    PositionsBetween(n, p => p >= prior && p >= cached, if prior < cached then cached else prior, n);
  }

  ghost predicate Remembers(account: Account, threads: seq<string>, all: seq<Option<ProviderUsage>>, n: nat)
    requires n <= |threads| == |all|
  {
    forall thread :: thread != "" ==>
      InputBefore(threads, all, n, thread) == if thread in account.previous then account.previous[thread] else 0
  }

  ghost predicate Counts(account: Account, threads: seq<string>, all: seq<Option<ProviderUsage>>, n: nat)
    requires n <= |threads| == |all|
  {
    account.totals == TotalsByPosition(threads, all, n) && Remembers(account, threads, all, n)
  }

  /** The recomputation counts token positions: the totals are the sums, over all
      requests, of the positions of each kind. */
  lemma {:induction false} RecomputedCountsPositions(threads: seq<string>, all: seq<Option<ProviderUsage>>, n: nat)
    requires n <= |threads| == |all|
    ensures Counts(Recomputed(threads[..n], all[..n]), threads, all, n)
  {
    if n == 0 {
      NothingCounted(threads, all);
    } else {
      RecomputedCountsPositions(threads, all, n - 1);
      OneMoreCounted(Recomputed(threads[..n - 1], all[..n - 1]), threads, all, n);
      RecomputedStep(threads, all, n);
    }
  }

  lemma NothingCounted(threads: seq<string>, all: seq<Option<ProviderUsage>>)
    requires |threads| == |all|
    ensures Counts(Recomputed(threads[..0], all[..0]), threads, all, 0)
  {
    assert threads[..0] == [];
  }

  lemma RecomputedStep(threads: seq<string>, all: seq<Option<ProviderUsage>>, n: nat)
    requires 0 < n <= |threads| == |all|
    ensures Recomputed(threads[..n], all[..n])
            == Attribute(Recomputed(threads[..n - 1], all[..n - 1]), threads[n - 1], all[n - 1])
  {
    assert threads[..n][..n - 1] == threads[..n - 1] && all[..n][..n - 1] == all[..n - 1];
  }

  lemma OneMoreCounted(account: Account, threads: seq<string>, all: seq<Option<ProviderUsage>>, n: nat)
    requires 0 < n <= |threads| == |all| && Counts(account, threads, all, n - 1)
    ensures Counts(Attribute(account, threads[n - 1], all[n - 1]), threads, all, n)
  {
    var thread := threads[n - 1];
    if all[n - 1].Some? {
      ShareIsByPosition(account.previous, thread, all[n - 1].value, InputBefore(threads, all, n - 1, thread));
    }
  }

  /** Once every request has completed, in whatever order, the totals due count the
      positions of every prompt. */
  lemma AllCompleteCountsPositions(threads: seq<string>, outcomes: Outcomes, all: seq<Option<ProviderUsage>>)
    requires |threads| == |all| && forall i :: 0 <= i < |threads| ==> i in outcomes && outcomes[i] == all[i]
    ensures Due(threads, outcomes).totals == TotalsByPosition(threads, all, |threads|)
  {
    AllCompleteIsRecomputed(threads, outcomes, all);
    RecomputedCountsPositions(threads, all, |threads|);
    assert threads[..|threads|] == threads && all[..|threads|] == all;
  }

  // ---- Conservation ----------------------------------------------------------------------

  function UncachedSum(threads: seq<string>, outcomes: Outcomes, settled: set<nat>, n: nat): nat {
    if n == 0 then 0 else
    UncachedSum(threads, outcomes, settled, n - 1) +
    if n - 1 in settled && n - 1 in outcomes && outcomes[n - 1].Some? then UsageOf(outcomes[n - 1].value).uncached
    else 0
  }

  lemma AttributeConserves(account: Account, thread: string, observed: Option<ProviderUsage>)
    ensures var after := Attribute(account, thread, observed).totals;
      var before := account.totals;
      && (before.eligible == before.cached + before.miss ==> after.eligible == after.cached + after.miss)
      && after.cold + after.miss
          == before.cold + before.miss + (if observed.Some? then UsageOf(observed.value).uncached else 0)
  {
  }

  /** Eligible tokens were either cached or missed, and every uncached input token of
      a counted request is either a miss or cold. */
  lemma {:induction false} TokensAreConserved(threads: seq<string>, outcomes: Outcomes, settled: set<nat>, n: nat)
    requires n <= |threads|
    ensures var totals := Fold(threads, outcomes, settled, n).totals;
      && totals.eligible == totals.cached + totals.miss
      && totals.cold + totals.miss == UncachedSum(threads, outcomes, settled, n)
    decreases n
  {
    if n > 0 {
      TokensAreConserved(threads, outcomes, settled, n - 1);
      if n - 1 in outcomes {
        AttributeConserves(Fold(threads, outcomes, settled, n - 1), threads[n - 1], outcomes[n - 1]);
      }
    }
  }

  // ---- The recorder's queues ------------------------------------------------------------------

  // A request's state in memory; an index into the list stands for the pointer.
  datatype Request = Request(thread: string, ready: bool, usage: Option<Usage>)

  type Queues = map<string, seq<nat>>

  function Threads(requests: seq<Request>): seq<string> {
    seq(|requests|, i requires 0 <= i < |requests| => requests[i].thread)
  }

  function Queue(queues: Queues, thread: string): seq<nat> {
    if thread in queues then queues[thread] else []
  }

  // The queue of a thread: exactly its unsettled requests, in arrival order.
  ghost predicate QueueOk(threads: seq<string>, queues: Queues, settled: set<nat>, thread: string) {
    var queue := Queue(queues, thread);
    && (forall i: nat :: i in queue <==> (thread != "" && i < |threads| && threads[i] == thread && i !in settled))
    && (forall a, b :: 0 <= a < b < |queue| ==> queue[a] < queue[b])
    && (thread in queues ==> queue != [])
    && (queue != [] ==> forall i :: i in settled && i < |threads| && threads[i] == thread ==> i < queue[0])
  }

  ghost predicate QueuesOk(threads: seq<string>, queues: Queues, settled: set<nat>) {
    forall thread :: QueueOk(threads, queues, settled, thread)
  }

  // What a request's state says about its completion.
  ghost predicate RequestOk(request: Request, outcomes: Outcomes, settled: set<nat>, i: nat) {
    && (i in settled ==> i in outcomes)
    && (request.thread == "" ==> (i in settled <==> i in outcomes))
    && (request.thread != "" ==> (request.ready <==> i in outcomes))
    && request.usage == (if request.thread != "" && i in outcomes && outcomes[i].Some?
                         then Some(UsageOf(outcomes[i].value)) else None)
  }

  ghost predicate RequestsOk(requests: seq<Request>, outcomes: Outcomes, settled: set<nat>) {
    && (forall i :: i in outcomes || i in settled ==> i < |requests|)
    && (forall i :: 0 <= i < |requests| ==> RequestOk(requests[i], outcomes, settled, i))
  }

  // The oldest request of the thread that is still waiting has not completed.
  ghost predicate HeadWaits(requests: seq<Request>, queues: Queues, thread: string) {
    var queue := Queue(queues, thread);
    queue != [] ==> queue[0] < |requests| && !requests[queue[0]].ready
  }

  /** Drained queues leave exactly the due requests settled. */
  lemma DrainedIsDue(requests: seq<Request>, queues: Queues, outcomes: Outcomes, settled: set<nat>)
    requires QueuesOk(Threads(requests), queues, settled) && RequestsOk(requests, outcomes, settled)
    requires forall thread :: HeadWaits(requests, queues, thread)
    ensures settled == Settled(Threads(requests), outcomes)
  {
    var threads := Threads(requests);
    forall i | 0 <= i < |threads| ensures i in settled <==> IsSettled(threads, outcomes, i) {
      assert RequestOk(requests[i], outcomes, settled, i);
      assert QueueOk(threads, queues, settled, threads[i]) && HeadWaits(requests, queues, threads[i]);
      var queue := Queue(queues, threads[i]);
      if i in settled {
        forall j | 0 <= j < i && threads[j] == threads[i] && threads[i] != "" ensures j in outcomes {
          assert RequestOk(requests[j], outcomes, settled, j);
          assert j !in settled ==> j in queue;
          HeadIsLeast(queue, j);
        }
      } else if threads[i] != "" {
        assert i in queue;
        HeadIsLeast(queue, i);
        assert RequestOk(requests[queue[0]], outcomes, settled, queue[0]);
      }
    }
  }

  lemma HeadIsLeast(queue: seq<nat>, i: nat)
    requires forall a, b :: 0 <= a < b < |queue| ==> queue[a] < queue[b]
    ensures i in queue ==> queue[0] <= i
  {
  }

  lemma LongerQueueOk(threads: seq<string>, queues: Queues, settled: set<nat>, thread: string)
    requires QueueOk(threads, queues, settled, thread) && |threads| !in settled && thread != ""
    ensures QueueOk(threads + [thread], queues[thread := Queue(queues, thread) + [|threads|]], settled, thread)
  {
    var queue := Queue(queues, thread);
    var longer := queue + [|threads|];
    forall a, b | 0 <= a < b < |longer| ensures longer[a] < longer[b] {
      assert longer[a] in queue;
    }
    forall i: nat
      ensures i in longer <==> (i < |threads| + 1 && (threads + [thread])[i] == thread && i !in settled)
    {
      assert i in longer <==> i in queue || i == |threads|;
    }
  }

  lemma QueueGrows(threads: seq<string>, queues: Queues, settled: set<nat>, thread: string)
    requires QueuesOk(threads, queues, settled) && |threads| !in settled
    ensures QueuesOk(threads + [thread],
                     if thread == "" then queues else queues[thread := Queue(queues, thread) + [|threads|]], settled)
  {
    var more := if thread == "" then queues else queues[thread := Queue(queues, thread) + [|threads|]];
    forall other ensures QueueOk(threads + [thread], more, settled, other) {
      assert QueueOk(threads, queues, settled, other);
      if other == thread != "" {
        LongerQueueOk(threads, queues, settled, thread);
      } else {
        assert Queue(more, other) == Queue(queues, other);
      }
    }
  }

  function WithQueue(queues: Queues, thread: string, queue: seq<nat>): Queues {
    if queue == [] then queues - {thread} else queues[thread := queue]
  }

  /** Taking the head of a queue settles the next request of its thread. */
  lemma Dequeue(threads: seq<string>, queues: Queues, settled: set<nat>, thread: string, queue: seq<nat>)
    requires QueuesOk(threads, WithQueue(queues, thread, queue), settled) && queue != []
    ensures queue[0] < |threads| && threads[queue[0]] == thread != "" && queue[0] !in settled
    ensures IsLastOfThread(threads, settled, queue[0])
    ensures QueuesOk(threads, WithQueue(queues, thread, queue[1..]), settled + {queue[0]})
  {
    var before, after := WithQueue(queues, thread, queue), WithQueue(queues, thread, queue[1..]);
    var more := settled + {queue[0]};
    assert QueueOk(threads, before, settled, thread) && Queue(before, thread) == queue;
    assert Queue(after, thread) == queue[1..];
    forall other ensures QueueOk(threads, after, more, other) {
      if other == thread {
        TailOk(threads, queue, settled, thread);
      } else {
        assert QueueOk(threads, before, settled, other) && Queue(after, other) == Queue(before, other);
      }
    }
  }

  lemma TailOk(threads: seq<string>, queue: seq<nat>, settled: set<nat>, thread: string)
    requires QueueOk(threads, map[thread := queue], settled, thread) && queue != []
    ensures forall i: nat :: i in queue[1..] <==>
      (thread != "" && i < |threads| && threads[i] == thread && i !in settled + {queue[0]})
    ensures forall a, b :: 0 <= a < b < |queue[1..]| ==> queue[1..][a] < queue[1..][b]
    ensures |queue| > 1 ==>
      forall i :: i in settled + {queue[0]} && i < |threads| && threads[i] == thread ==> i < queue[1]
  {
    assert queue == [queue[0]] + queue[1..];
    assert Queue(map[thread := queue], thread) == queue;
    assert queue[0] !in queue[1..];
    forall i: nat
      ensures i in queue[1..] <==> (thread != "" && i < |threads| && threads[i] == thread && i !in settled + {queue[0]})
    {
      assert i in queue <==> i == queue[0] || i in queue[1..];
    }
  }

  lemma HeadInRange(threads: seq<string>, queues: Queues, settled: set<nat>, thread: string, queue: seq<nat>)
    requires QueuesOk(threads, WithQueue(queues, thread, queue), settled)
    ensures queue != [] ==> queue[0] < |threads|
  {
    assert QueueOk(threads, WithQueue(queues, thread, queue), settled, thread);
    assert queue != [] ==> queue[0] in Queue(WithQueue(queues, thread, queue), thread);
  }

  lemma SameQueue(threads: seq<string>, queues: Queues, settled: set<nat>, thread: string)
    requires QueuesOk(threads, queues, settled)
    ensures WithQueue(queues, thread, Queue(queues, thread)) == queues
  {
    assert QueueOk(threads, queues, settled, thread);
  }

  lemma AloneKeepsQueues(threads: seq<string>, queues: Queues, settled: set<nat>, id: nat)
    requires QueuesOk(threads, queues, settled) && id < |threads| && threads[id] == ""
    ensures QueuesOk(threads, queues, settled + {id})
  {
    forall thread ensures QueueOk(threads, queues, settled + {id}, thread) {
      assert QueueOk(threads, queues, settled, thread);
      var queue := Queue(queues, thread);
      assert queue != [] ==> queue[0] in queue;
    }
  }

  lemma AloneKeepsRequests(requests: seq<Request>, outcomes: Outcomes, settled: set<nat>, id: nat,
                           observed: Option<ProviderUsage>)
    requires RequestsOk(requests, outcomes, settled) && id < |requests| && requests[id].thread == ""
    ensures RequestsOk(requests, outcomes[id := observed], settled + {id})
  {
    var later := outcomes[id := observed];
    forall i | 0 <= i < |requests| ensures RequestOk(requests[i], later, settled + {id}, i) {
      assert RequestOk(requests[i], outcomes, settled, i);
      assert i != id ==> (i in later <==> i in outcomes);
    }
  }

  lemma ReadyKeepsRequests(before: seq<Request>, after: seq<Request>, outcomes: Outcomes, settled: set<nat>, id: nat,
                           observed: Option<ProviderUsage>)
    requires RequestsOk(before, outcomes, settled) && id < |before| && id !in outcomes && before[id].thread != ""
    requires var usage := if observed.Some? then Some(UsageOf(observed.value)) else None;
      after == before[id := Request(before[id].thread, true, usage)]
    ensures RequestsOk(after, outcomes[id := observed], settled)
  {
    forall i | 0 <= i < |after| ensures RequestOk(after[i], outcomes[id := observed], settled, i) {
      assert RequestOk(before[i], outcomes, settled, i);
    }
  }

  lemma OtherHeadWaits(before: seq<Request>, after: seq<Request>, queues: Queues, settled: set<nat>, id: nat,
                       thread: string)
    requires |after| == |before| && id < |before| && forall i :: 0 <= i < |before| && i != id ==> after[i] == before[i]
    requires QueueOk(Threads(before), queues, settled, thread) && before[id].thread != thread
    requires HeadWaits(before, queues, thread)
    ensures HeadWaits(after, queues, thread)
  {
    var queue := Queue(queues, thread);
    if queue != [] {
      assert queue[0] in queue;
      assert Threads(before)[queue[0]] == thread;
    }
  }

  class Recorder {
    var totals: Totals
    var previousInput: map<string, nat>
    var cacheQueues: Queues
    var requests: seq<Request>
    ghost var outcomes: Outcomes
    ghost var settled: set<nat>

    ghost function Current(): Account
      reads this
    {
      Account(totals, previousInput)
    }

    // Between two steps of one completion.
    ghost predicate Running()
      reads this
    {
      && RequestsOk(requests, outcomes, settled)
      && Current() == Fold(Threads(requests), outcomes, settled, |requests|)
    }

    ghost predicate Valid()
      reads this
    {
      && Running() && QueuesOk(Threads(requests), cacheQueues, settled)
      && forall thread :: HeadWaits(requests, cacheQueues, thread)
    }

    /** Whatever has completed so far, the account is the one that is due. */
    lemma AccountIsDue()
      requires Valid()
      ensures Current() == Due(Threads(requests), outcomes)
    {
      DrainedIsDue(requests, cacheQueues, outcomes, settled);
    }

    constructor ()
      ensures Valid() && requests == [] && outcomes == map[]
    {
      totals, previousInput, cacheQueues, requests := NO_TOTALS, map[], map[], [];
      outcomes, settled := map[], {};
    }

    /** A request arrives (beginRequest): nothing is attributed yet. */
    method Arrive(thread: string) returns (id: nat)
      requires Valid()
      modifies this
      ensures Valid() && id == |old(requests)| && outcomes == old(outcomes) && Current() == old(Current())
      ensures Threads(requests) == old(Threads(requests)) + [thread]
    {
      id := |requests|;
      ghost var threads := Threads(requests);
      QueueGrows(threads, cacheQueues, settled, thread);
      FoldLonger(threads, thread, outcomes, settled, |threads|);
      ghost var before := requests;
      requests := requests + [Request(thread, false, None)];
      assert Threads(requests) == threads + [thread];
      if thread != "" {
        cacheQueues := cacheQueues[thread := Queue(cacheQueues, thread) + [id]];
      }
      assert forall i :: 0 <= i < |before| ==> RequestOk(before[i], outcomes, settled, i);
      assert RequestOk(requests[id], outcomes, settled, id);
      forall other ensures HeadWaits(requests, cacheQueues, other) {
        assert HeadWaits(before, old(cacheQueues), other);
      }
    }

    /** addCache */
    method AddCache(thread: string, ghost observed: ProviderUsage, usage: Usage)
      requires usage == UsageOf(observed)
      modifies this`totals, this`previousInput
      ensures Current() == Attribute(old(Current()), thread, Some(observed))
    {
      if thread == "" {
        totals := totals.(cold := totals.cold + usage.uncached);
        return;
      }
      var eligible := 0;
      if thread in previousInput {
        eligible := Min(previousInput[thread], usage.input);
      }
      var cached := Min(eligible, usage.cached);
      var miss := eligible - cached;
      totals := Totals(totals.eligible + eligible, totals.cached + cached, totals.miss + miss,
                       totals.cold + (usage.uncached - miss));
      previousInput := previousInput[thread := usage.input];
    }

    // A completed request joins the account.
    method Settle(id: nat)
      requires Running() && id < |requests| && id in outcomes && id !in settled
      requires requests[id].thread != "" && IsLastOfThread(Threads(requests), settled, id)
      modifies this`totals, this`previousInput, this`settled
      ensures Running() && settled == old(settled) + {id}
    {
      var current := requests[id];
      assert RequestOk(current, outcomes, settled, id);
      SettleOneMore(Threads(requests), outcomes, settled, id, |requests|);
      if current.usage.None? {
        previousInput := previousInput - {current.thread};
      } else {
        AddCache(current.thread, outcomes[id].value, current.usage.value);
      }
      settled := settled + {id};
      assert forall i :: 0 <= i < |requests| ==> RequestOk(requests[i], outcomes, old(settled), i);
    }

    /** A request without a thread is counted at once. */
    method CompleteAlone(id: nat, observed: Option<ProviderUsage>)
      requires Valid() && id < |requests| && id !in outcomes && requests[id].thread == ""
      modifies this`totals, this`previousInput, this`outcomes, this`settled
      ensures Valid() && outcomes == old(outcomes)[id := observed]
    {
      ghost var threads, later := Threads(requests), outcomes[id := observed];
      assert RequestOk(requests[id], outcomes, settled, id);
      SameFold(threads, outcomes, later, settled, settled, |requests|);
      SettleOneMore(threads, later, settled, id, |requests|);
      AloneKeepsQueues(threads, cacheQueues, settled, id);
      AloneKeepsRequests(requests, outcomes, settled, id, observed);
      if observed.Some? {
        AddCache("", observed.value, UsageOf(observed.value));
      }
      outcomes, settled := later, settled + {id};
    }

    // The completion is noted in the request's state.
    method MarkReady(id: nat, observed: Option<ProviderUsage>)
      requires Valid() && id < |requests| && id !in outcomes && requests[id].thread != ""
      modifies this`requests, this`outcomes
      ensures Running() && QueuesOk(Threads(requests), cacheQueues, settled)
      ensures outcomes == old(outcomes)[id := observed]
      ensures |requests| == |old(requests)| && Threads(requests) == old(Threads(requests))
      ensures requests[id].thread == old(requests[id].thread)
      ensures forall thread :: thread != requests[id].thread ==> HeadWaits(requests, cacheQueues, thread)
    {
      ghost var before, later := requests, outcomes[id := observed];
      assert RequestOk(requests[id], outcomes, settled, id);
      SameFold(Threads(requests), outcomes, later, settled, settled, |requests|);
      requests := requests[id := requests[id].(ready := true)];
      if observed.Some? {
        requests := requests[id := requests[id].(usage := Some(UsageOf(observed.value)))];
      }
      outcomes := later;
      assert Threads(requests) == Threads(before);
      ReadyKeepsRequests(before, requests, old(outcomes), settled, id, observed);
      forall thread | thread != requests[id].thread ensures HeadWaits(requests, cacheQueues, thread) {
        OtherHeadWaits(before, requests, cacheQueues, settled, id, thread);
      }
    }

    /** Attribute from the head of the queue as long as the head has completed. */
    method Drain(thread: string)
      requires Running() && QueuesOk(Threads(requests), cacheQueues, settled) && thread != ""
      requires forall other :: other != thread ==> HeadWaits(requests, cacheQueues, other)
      modifies this`totals, this`previousInput, this`cacheQueues, this`settled
      ensures Valid()
    {
      var queue: seq<nat> := Queue(cacheQueues, thread);
      SameQueue(Threads(requests), cacheQueues, settled, thread);
      HeadInRange(Threads(requests), cacheQueues, settled, thread, queue);
      while queue != [] && requests[queue[0]].ready
        invariant queue != [] ==> queue[0] < |requests|
        invariant requests == old(requests) && outcomes == old(outcomes)
        invariant Running() && cacheQueues == old(cacheQueues)
        invariant QueuesOk(Threads(requests), WithQueue(cacheQueues, thread, queue), settled)
        decreases |queue|
      {
        Dequeue(Threads(requests), cacheQueues, settled, thread, queue);
        Settle(queue[0]);
        queue := queue[1..];
        HeadInRange(Threads(requests), cacheQueues, settled, thread, queue);
      }
      cacheQueues := WithQueue(cacheQueues, thread, queue);
      forall other ensures HeadWaits(requests, cacheQueues, other) {
        if other != thread {
          assert HeadWaits(requests, old(cacheQueues), other);
        }
      }
    }

    /** recordCacheObservation: the completed request is remembered, and every request
        of its thread that has nothing unfinished before it is attributed. */
    method Complete(id: nat, observed: Option<ProviderUsage>)
      requires Valid() && id < |requests| && id !in outcomes
      modifies this
      ensures Valid() && outcomes == old(outcomes)[id := observed] && Threads(requests) == old(Threads(requests))
      ensures Current() == Due(Threads(requests), outcomes)
    {
      if requests[id].thread == "" {
        CompleteAlone(id, observed);
      } else {
        MarkReady(id, observed);
        Drain(requests[id].thread);
      }
      AccountIsDue();
    }
  }
}

/** Offline replay of recorded requests (capturer/merge.go:118-176): queues are
    filled in order of sequence, completions follow in the order of the records. */
module CacheReplay {
  import opened Wrappers
  import opened CacheAttribution

  /** A captured record, by its boundary. */
  datatype Record =
    | Client(id: string, sequence: nat, thread: string)
    | Provider(id: string, sequence: nat, usage: Option<ProviderUsage>)
    | Control(id: string, directed: bool)
    | Unknown(id: string, sequence: nat)

  // A client record with the usage of its final provider attempt.
  datatype Front = Front(id: string, sequence: nat, thread: string, observed: Option<ProviderUsage>)

  datatype Attempt = Attempt(sequence: nat, usage: Option<ProviderUsage>)

  datatype ReplayError =
    | MissingControlIdentity | InvalidDirection | MissingIdentity | DuplicateClient | UnknownBoundary
    | SequenceMismatch | NoClient

  predicate Before(a: Front, b: Front) {
    a.sequence < b.sequence
  }

  ghost predicate Ascending(fronts: seq<Front>) {
    forall i, j :: 0 <= i < j < |fronts| ==> HasSmaller(fronts[i], fronts[j])
  }

  predicate HasSmaller(a: Front, b: Front) {
    a.sequence + 1 <= b.sequence
  }

  ghost predicate Clashes(fronts: seq<Front>, i: nat, j: nat)
    requires i < |fronts| && j < |fronts|
  {
    fronts[i].id == fronts[j].id || fronts[i].sequence == fronts[j].sequence
  }

  ghost predicate Distinct(fronts: seq<Front>) {
    forall i, j :: 0 <= i < j < |fronts| ==> !Clashes(fronts, i, j)
  }

  /** The records in order of sequence. */
  ghost predicate IsArrival(records: seq<Front>, arrival: seq<Front>) {
    multiset(arrival) == multiset(records) && Ascending(arrival)
  }

  function ThreadsOf(fronts: seq<Front>): seq<string> {
    seq(|fronts|, i requires 0 <= i < |fronts| => fronts[i].thread)
  }

  function OutcomesOf(fronts: seq<Front>): seq<Option<ProviderUsage>> {
    seq(|fronts|, i requires 0 <= i < |fronts| => fronts[i].observed)
  }

  // ---- Sorting ----------------------------------------------------------------------

  function Insert(sorted: seq<Front>, front: Front): seq<Front> {
    if sorted == [] || Before(front, sorted[0]) then [front] + sorted else [sorted[0]] + Insert(sorted[1..], front)
  }

  function Sort(fronts: seq<Front>): seq<Front> {
    if fronts == [] then [] else Insert(Sort(fronts[..|fronts| - 1]), fronts[|fronts| - 1])
  }

  // Inserted behind the first record, a record follows it.
  lemma FollowsFirst(sorted: seq<Front>, front: Front, tail: seq<Front>, i: nat)
    requires Ascending(sorted) && sorted != [] && Before(sorted[0], front) && i < |tail|
    requires multiset(tail) == multiset(sorted[1..]) + multiset{front}
    ensures Before(sorted[0], tail[i])
  {
    assert tail[i] in multiset(tail);
    if tail[i] != front {
      assert tail[i] in multiset(sorted[1..]);
      var k :| 0 <= k < |sorted[1..]| && sorted[1..][k] == tail[i];
      assert sorted[k + 1] == tail[i];
    }
  }

  lemma {:induction false} InsertCounts(sorted: seq<Front>, front: Front)
    ensures multiset(Insert(sorted, front)) == multiset(sorted) + multiset{front}
  {
    if sorted != [] && !Before(front, sorted[0]) {
      InsertCounts(sorted[1..], front);
      assert sorted == [sorted[0]] + sorted[1..];
    }
  }

  lemma {:induction false} InsertSorts(sorted: seq<Front>, front: Front)
    requires Ascending(sorted) && forall i :: 0 <= i < |sorted| ==> sorted[i].sequence != front.sequence
    ensures Ascending(Insert(sorted, front)) && multiset(Insert(sorted, front)) == multiset(sorted) + multiset{front}
  {
    InsertCounts(sorted, front);
    if sorted == [] || Before(front, sorted[0]) {
      assert forall i :: 0 <= i < |sorted| ==> sorted[0] == sorted[i] || Before(sorted[0], sorted[i]);
    } else {
      var tail := Insert(sorted[1..], front);
      InsertSorts(sorted[1..], front);
      forall i | 0 <= i < |tail| ensures Before(sorted[0], tail[i]) {
        FollowsFirst(sorted, front, tail, i);
      }
    }
  }

  lemma LastIsApart(fronts: seq<Front>, others: seq<Front>)
    requires Distinct(fronts) && fronts != [] && multiset(others) == multiset(fronts[..|fronts| - 1])
    ensures forall i :: 0 <= i < |others| ==> others[i].sequence != fronts[|fronts| - 1].sequence
  {
    var front, last := fronts[..|fronts| - 1], fronts[|fronts| - 1];
    forall i | 0 <= i < |others| ensures others[i].sequence != last.sequence {
      assert others[i] in multiset(others);
      var k :| 0 <= k < |front| && front[k] == others[i];
      assert !Clashes(fronts, k, |fronts| - 1);
    }
  }

  lemma {:induction false} SortSorts(fronts: seq<Front>)
    requires Distinct(fronts)
    ensures IsArrival(fronts, Sort(fronts))
  {
    if fronts != [] {
      var front, last := fronts[..|fronts| - 1], fronts[|fronts| - 1];
      forall i, j | 0 <= i < j < |front| ensures !Clashes(front, i, j) {
        assert !Clashes(fronts, i, j);
      }
      SortSorts(front);
      LastIsApart(fronts, Sort(front));
      InsertSorts(Sort(front), last);
      assert fronts == front + [last];
    }
  }

  lemma {:induction false} ArrivalIsUnique(a: seq<Front>, b: seq<Front>)
    requires multiset(a) == multiset(b) && Ascending(a) && Ascending(b)
    ensures a == b
  {
    if a == [] {
      assert |multiset(a)| == |multiset(b)| == |b|;
    } else {
      SameFirst(a, b);
      assert a == [a[0]] + a[1..] && b == [b[0]] + b[1..];
      assert multiset(a[1..]) == multiset(a) - multiset{a[0]};
      assert multiset(b[1..]) == multiset(b) - multiset{b[0]};
      ArrivalIsUnique(a[1..], b[1..]);
    }
  }

  lemma SameFirst(a: seq<Front>, b: seq<Front>)
    requires multiset(a) == multiset(b) && Ascending(a) && Ascending(b) && a != []
    ensures b != [] && a[0] == b[0]
  {
    assert a[0] in multiset(a);
    assert a[0] in b && b[0] in multiset(b);
    FirstIsLeast(a, b[0]);
    FirstIsLeast(b, a[0]);
  }

  lemma FirstIsLeast(a: seq<Front>, front: Front)
    requires Ascending(a) && front in multiset(a)
    ensures front == a[0] || Before(a[0], front)
  {
    var i :| 0 <= i < |a| && a[i] == front;
  }

  // ---- Reading the records ---------------------------------------------------------------

  predicate Readable(r: Record) {
    r.id != "" && !r.Unknown? && if r.Control? then r.directed else r.sequence != 0
  }

  ghost predicate AllReadable(records: seq<Record>) {
    forall i :: 0 <= i < |records| ==> Readable(records[i])
  }

  /** The client records in order, without their usage. */
  function Clients(records: seq<Record>): seq<Front> {
    if records == [] then [] else
    var last := records[|records| - 1];
    Clients(records[..|records| - 1]) + if last.Client? then [Front(last.id, last.sequence, last.thread, None)] else []
  }

  /** The provider attempts of one capture in order. */
  function Attempts(records: seq<Record>, id: string): seq<Attempt> {
    if records == [] then [] else
    var last := records[|records| - 1];
    Attempts(records[..|records| - 1], id)
    + if last.Provider? && last.id == id then [Attempt(last.sequence, last.usage)] else []
  }

  predicate SameSequence(front: Front, attempts: seq<Attempt>) {
    forall k :: 0 <= k < |attempts| ==> attempts[k].sequence == front.sequence
  }

  /** Every provider attempt belongs to a client record with its sequence. */
  ghost predicate Matched(records: seq<Record>) {
    forall i :: 0 <= i < |records| && records[i].Provider? ==> exists k :: HasClient(records, i, k)
  }

  ghost predicate HasClient(records: seq<Record>, i: nat, k: int)
    requires i < |records| && records[i].Provider?
  {
    0 <= k < |Clients(records)| && Clients(records)[k].id == records[i].id
      && Clients(records)[k].sequence == records[i].sequence
  }

  /** A client record with the usage of its last attempt. */
  function Finished(front: Front, attempts: seq<Attempt>): Front {
    front.(observed := if attempts == [] then None else attempts[|attempts| - 1].usage)
  }

  function Fronts(records: seq<Record>): seq<Front> {
    seq(|Clients(records)|, i requires 0 <= i < |Clients(records)| =>
      Finished(Clients(records)[i], Attempts(records, Clients(records)[i].id)))
  }

  // What the first loop has collected after the first records.
  ghost predicate CollectedUpTo(records: seq<Record>, n: nat, fronts: seq<Front>, providers: map<string, seq<Attempt>>)
    requires n <= |records|
  {
    && fronts == Clients(records[..n])
    && forall id :: if id in providers then providers[id] == Attempts(records[..n], id) != []
        else Attempts(records[..n], id) == []
  }

  function Enter(providers: map<string, seq<Attempt>>, id: string, attempt: Attempt): map<string, seq<Attempt>> {
    providers[id := (if id in providers then providers[id] else []) + [attempt]]
  }

  lemma CollectOne(records: seq<Record>, n: nat, fronts: seq<Front>, providers: map<string, seq<Attempt>>)
    requires n < |records| && CollectedUpTo(records, n, fronts, providers)
    ensures var r := records[n];
      CollectedUpTo(records, n + 1, if r.Client? then fronts + [Front(r.id, r.sequence, r.thread, None)] else fronts,
                    if r.Provider? then Enter(providers, r.id, Attempt(r.sequence, r.usage)) else providers)
  {
    assert records[..n + 1][..n] == records[..n];
  }

  // The ids and sequences of the client records so far.
  ghost predicate SeenBefore(fronts: seq<Front>, ids: set<string>, sequences: set<nat>) {
    && (forall id :: id in ids <==> exists j :: 0 <= j < |fronts| && fronts[j].id == id)
    && (forall n :: n in sequences <==> exists j :: 0 <= j < |fronts| && fronts[j].sequence == n)
  }

  lemma SeenOneMore(fronts: seq<Front>, front: Front, ids: set<string>, sequences: set<nat>)
    requires SeenBefore(fronts, ids, sequences) && Distinct(fronts)
    ensures SeenBefore(fronts + [front], ids + {front.id}, sequences + {front.sequence})
    ensures Distinct(fronts + [front]) <==> front.id !in ids && front.sequence !in sequences
  {
    var more := fronts + [front];
    assert more[|fronts|] == front;
    forall id ensures id in ids + {front.id} <==> exists j :: 0 <= j < |more| && more[j].id == id {
      if j :| 0 <= j < |fronts| && fronts[j].id == id {
        assert more[j].id == id;
      }
    }
    forall n ensures n in sequences + {front.sequence} <==> exists j :: 0 <= j < |more| && more[j].sequence == n {
      if j :| 0 <= j < |fronts| && fronts[j].sequence == n {
        assert more[j].sequence == n;
      }
    }
    DistinctOneMore(fronts, front, ids, sequences);
  }

  lemma DistinctOneMore(fronts: seq<Front>, front: Front, ids: set<string>, sequences: set<nat>)
    requires SeenBefore(fronts, ids, sequences) && Distinct(fronts)
    ensures Distinct(fronts + [front]) <==> front.id !in ids && front.sequence !in sequences
  {
    var more := fronts + [front];
    if j :| 0 <= j < |fronts| && (fronts[j].id == front.id || fronts[j].sequence == front.sequence) {
      assert Clashes(more, j, |fronts|);
    } else {
      forall i, j | 0 <= i < j < |more| ensures !Clashes(more, i, j) {
        assert j < |fronts| ==> !Clashes(fronts, i, j);
      }
    }
  }

  lemma {:induction false} ClientsGrow(records: seq<Record>, n: nat)
    requires n <= |records|
    ensures |Clients(records[..n])| <= |Clients(records)|
    ensures Clients(records)[..|Clients(records[..n])|] == Clients(records[..n])
    decreases |records|
  {
    if n < |records| {
      ClientsGrow(records[..|records| - 1], n);
      assert records[..|records| - 1][..n] == records[..n];
    } else {
      assert records[..n] == records;
    }
  }

  lemma ClashStays(records: seq<Record>, n: nat)
    requires n <= |records| && !Distinct(Clients(records[..n]))
    ensures !Distinct(Clients(records))
  {
    ClientsGrow(records, n);
    var part, all := Clients(records[..n]), Clients(records);
    var i, j :| 0 <= i < j < |part| && Clashes(part, i, j);
    assert part[i] == all[i] && part[j] == all[j];
    assert Clashes(all, i, j);
  }

  /** The first loop: unreadable records and repeated clients are refused, all others
      are collected. */
  method Collect(records: seq<Record>)
      returns (error: Option<ReplayError>, fronts: seq<Front>, providers: map<string, seq<Attempt>>)
    ensures error.None? <==> AllReadable(records) && Distinct(Clients(records))
    ensures error == Some(DuplicateClient) ==> !Distinct(Clients(records))
    ensures error.Some? && error != Some(DuplicateClient) ==> !AllReadable(records)
    ensures error.None? ==> CollectedUpTo(records, |records|, fronts, providers)
  {
    fronts, providers := [], map[];
    var ids: set<string>, sequences: set<nat> := {}, {};
    for i := 0 to |records|
      invariant forall j :: 0 <= j < i ==> Readable(records[j])
      invariant CollectedUpTo(records, i, fronts, providers)
      invariant SeenBefore(fronts, ids, sequences) && Distinct(fronts)
    {
      var r := records[i];
      CollectOne(records, i, fronts, providers);
      error := Refusal(r);
      if error.Some? {
        return;
      }
      if r.Client? {
        SeenOneMore(fronts, Front(r.id, r.sequence, r.thread, None), ids, sequences);
        if r.id in ids || r.sequence in sequences {
          ClashStays(records, i + 1);
          error := Some(DuplicateClient);
          return;
        }
        fronts := fronts + [Front(r.id, r.sequence, r.thread, None)];
        ids, sequences := ids + {r.id}, sequences + {r.sequence};
      } else if r.Provider? {
        providers := Enter(providers, r.id, Attempt(r.sequence, r.usage));
      }
    }
    assert records[..|records|] == records;
    error := None;
  }

  function Refusal(r: Record): (error: Option<ReplayError>)
    ensures error.None? <==> Readable(r)
    ensures error != Some(DuplicateClient)
  {
    if r.Control? then
      if r.id == "" then Some(MissingControlIdentity) else if !r.directed then Some(InvalidDirection) else None
    else if r.id == "" || r.sequence == 0 then Some(MissingIdentity)
    else if r.Unknown? then Some(UnknownBoundary)
    else None
  }

  // ---- Attempts and their clients ----------------------------------------------------------

  ghost predicate IsAttempt(records: seq<Record>, id: string, attempt: Attempt) {
    Provider(id, attempt.sequence, attempt.usage) in records
  }

  /** The attempts of a capture are exactly its provider records. */
  lemma {:induction false} AttemptsAreRecords(records: seq<Record>, id: string)
    ensures forall attempt :: attempt in Attempts(records, id) <==> IsAttempt(records, id, attempt)
  {
    if records != [] {
      var rest, last := records[..|records| - 1], records[|records| - 1];
      AttemptsAreRecords(rest, id);
      assert records == rest + [last];
      forall attempt ensures attempt in Attempts(records, id) <==> IsAttempt(records, id, attempt) {
        assert attempt in Attempts(rest, id) <==> IsAttempt(rest, id, attempt);
      }
    }
  }

  ghost predicate AttemptsMatch(records: seq<Record>) {
    && (forall k :: 0 <= k < |Clients(records)| ==>
        SameSequence(Clients(records)[k], Attempts(records, Clients(records)[k].id)))
    && (forall id :: Attempts(records, id) != [] ==>
        exists k :: 0 <= k < |Clients(records)| && Clients(records)[k].id == id)
  }

  lemma MatchedIff(records: seq<Record>)
    requires Distinct(Clients(records))
    ensures Matched(records) <==> AttemptsMatch(records)
  {
    if Matched(records) {
      MatchedAttempts(records);
    }
    if AttemptsMatch(records) {
      AttemptsMatched(records);
    }
  }

  lemma DifferentIds(clients: seq<Front>, a: nat, b: nat)
    requires Distinct(clients) && a < |clients| && b < |clients| && a != b
    ensures clients[a].id != clients[b].id
  {
    if a < b {
      assert !Clashes(clients, a, b);
    } else {
      assert !Clashes(clients, b, a);
    }
  }

  lemma AttemptHasClient(records: seq<Record>, id: string, attempt: Attempt) returns (k: nat)
    requires Matched(records) && attempt in Attempts(records, id)
    ensures k < |Clients(records)| && Clients(records)[k].id == id && Clients(records)[k].sequence == attempt.sequence
  {
    AttemptsAreRecords(records, id);
    assert IsAttempt(records, id, attempt);
    var i :| 0 <= i < |records| && records[i] == Provider(id, attempt.sequence, attempt.usage);
    var found :| HasClient(records, i, found);
    k := found;
  }

  lemma MatchedAttempts(records: seq<Record>)
    requires Distinct(Clients(records)) && Matched(records)
    ensures AttemptsMatch(records)
  {
    var clients := Clients(records);
    forall k | 0 <= k < |clients| ensures SameSequence(clients[k], Attempts(records, clients[k].id)) {
      var attempts := Attempts(records, clients[k].id);
      forall a | 0 <= a < |attempts| ensures attempts[a].sequence == clients[k].sequence {
        var other := AttemptHasClient(records, clients[k].id, attempts[a]);
        if other != k {
          DifferentIds(clients, other, k);
        }
      }
    }
    forall id | Attempts(records, id) != [] ensures exists k :: 0 <= k < |clients| && clients[k].id == id {
      var k := AttemptHasClient(records, id, Attempts(records, id)[0]);
    }
  }

  lemma AttemptsMatched(records: seq<Record>)
    requires AttemptsMatch(records)
    ensures Matched(records)
  {
    var clients := Clients(records);
    forall i | 0 <= i < |records| && records[i].Provider? ensures exists k :: HasClient(records, i, k) {
      var id, attempt := records[i].id, Attempt(records[i].sequence, records[i].usage);
      AttemptsAreRecords(records, id);
      assert IsAttempt(records, id, attempt);
      var k :| 0 <= k < |clients| && clients[k].id == id;
      assert SameSequence(clients[k], Attempts(records, id));
      assert HasClient(records, i, k);
    }
  }

  // The attempts that the first clients have not taken.
  ghost predicate LeftAfter(clients: seq<Front>, n: nat, providers: map<string, seq<Attempt>>, left: map<string,
                            seq<Attempt>>)
    requires n <= |clients|
  {
    forall id :: if id in left then id in providers && left[id] == providers[id] && !Taken(clients, n, id)
                 else id in providers ==> Taken(clients, n, id)
  }

  ghost predicate Taken(clients: seq<Front>, n: nat, id: string)
    requires n <= |clients|
  {
    exists k :: 0 <= k < n && clients[k].id == id
  }

  lemma TakeOne(clients: seq<Front>, n: nat, providers: map<string, seq<Attempt>>, left: map<string, seq<Attempt>>)
    requires Distinct(clients) && n < |clients| && LeftAfter(clients, n, providers, left)
    ensures LeftAfter(clients, n + 1, providers, left - {clients[n].id})
    ensures clients[n].id in left <==> clients[n].id in providers
    ensures clients[n].id in left ==> left[clients[n].id] == providers[clients[n].id]
  {
    forall k | 0 <= k < n ensures clients[k].id != clients[n].id {
      DifferentIds(clients, k, n);
    }
    assert !Taken(clients, n, clients[n].id);
    forall id ensures Taken(clients, n + 1, id) <==> Taken(clients, n, id) || id == clients[n].id {
    }
  }

  lemma NoneLeft(records: seq<Record>, clients: seq<Front>, providers: map<string, seq<Attempt>>, left: map<string,
                 seq<Attempt>>)
    requires CollectedUpTo(records, |records|, clients, providers) && LeftAfter(clients, |clients|, providers, left)
    requires forall k :: 0 <= k < |clients| ==> SameSequence(clients[k], Attempts(records, clients[k].id))
    ensures left == map[] <==> AttemptsMatch(records)
  {
    assert records[..|records|] == records;
    if left == map[] {
      forall id | Attempts(records, id) != [] ensures exists k :: 0 <= k < |clients| && clients[k].id == id {
        assert id in providers && id !in left && Taken(clients, |clients|, id);
      }
    } else {
      var id :| id in left;
      assert Attempts(records, id) != [] && !Taken(clients, |clients|, id);
    }
  }

  // Where the second loop stands.
  ghost predicate Taking(records: seq<Record>, clients: seq<Front>, providers: map<string, seq<Attempt>>, n: nat,
                         fronts: seq<Front>, left: map<string, seq<Attempt>>)
    requires n <= |clients|
  {
    && (forall k :: 0 <= k < n ==> SameSequence(clients[k], Attempts(records, clients[k].id)))
    && n <= |Fronts(records)| && fronts == Fronts(records)[..n]
    && LeftAfter(clients, n, providers, left)
  }

  function TakenBy(front: Front, left: map<string, seq<Attempt>>): seq<Attempt> {
    if front.id in left then left[front.id] else []
  }

  lemma TakesItsAttempts(records: seq<Record>, clients: seq<Front>, providers: map<string, seq<Attempt>>, n: nat,
                         left: map<string, seq<Attempt>>)
    requires CollectedUpTo(records, |records|, clients, providers) && Distinct(clients)
    requires n < |clients| && LeftAfter(clients, n, providers, left)
    ensures TakenBy(clients[n], left) == Attempts(records, clients[n].id)
  {
    assert records[..|records|] == records;
    TakeOne(clients, n, providers, left);
  }

  lemma OneMoreFront(records: seq<Record>, n: nat, attempts: seq<Attempt>)
    requires n < |Clients(records)| && attempts == Attempts(records, Clients(records)[n].id)
    ensures n < |Fronts(records)|
    ensures Fronts(records)[..n + 1] == Fronts(records)[..n] + [Finished(Clients(records)[n], attempts)]
  {
  }

  lemma TakesNext(records: seq<Record>, clients: seq<Front>, providers: map<string, seq<Attempt>>, n: nat,
                  fronts: seq<Front>, left: map<string, seq<Attempt>>)
    requires clients == Clients(records) && CollectedUpTo(records, |records|, clients, providers) && Distinct(clients)
    requires n < |clients| && Taking(records, clients, providers, n, fronts, left)
    ensures TakenBy(clients[n], left) == Attempts(records, clients[n].id)
    ensures SameSequence(clients[n], TakenBy(clients[n], left)) ==>
      Taking(records, clients, providers, n + 1, fronts + [Finished(clients[n], TakenBy(clients[n], left))],
             left - {clients[n].id})
  {
    TakesItsAttempts(records, clients, providers, n, left);
    OneMoreFront(records, n, TakenBy(clients[n], left));
    TakeOne(clients, n, providers, left);
  }

  /** The second loop, without the totals: each client takes its attempts, and none
      may be left over or carry another sequence. */
  method TakeAttempts(ghost records: seq<Record>, clients: seq<Front>, providers: map<string, seq<Attempt>>)
      returns (error: Option<ReplayError>, fronts: seq<Front>)
    requires CollectedUpTo(records, |records|, clients, providers) && Distinct(clients)
    ensures error.None? <==> Matched(records)
    ensures error.None? ==> fronts == Fronts(records)
  {
    assert records[..|records|] == records;
    MatchedIff(records);
    fronts := [];
    var left := providers;
    for i := 0 to |clients|
      invariant Taking(records, clients, providers, i, fronts, left)
    {
      TakesNext(records, clients, providers, i, fronts, left);
      var attempts := TakenBy(clients[i], left);
      if !SameSequence(clients[i], attempts) {
        return Some(SequenceMismatch), [];
      }
      fronts := fronts + [Finished(clients[i], attempts)];
      left := left - {clients[i].id};
    }
    NoneLeft(records, clients, providers, left);
    error := if left == map[] then None else Some(NoClient);
  }

  lemma FrontsAreDistinct(records: seq<Record>)
    requires Distinct(Clients(records))
    ensures Distinct(Fronts(records))
  {
    forall i, j | 0 <= i < j < |Fronts(records)| ensures !Clashes(Fronts(records), i, j) {
      assert !Clashes(Clients(records), i, j);
    }
  }

  // ---- The replay -----------------------------------------------------------------------

  // The map from ids to states names the first arrivals by position.
  ghost predicate StatesOk(arrival: seq<Front>, n: nat, states: map<string, nat>)
    requires n <= |arrival|
  {
    forall k :: 0 <= k < n ==> arrival[k].id in states && states[arrival[k].id] == k
  }

  lemma OneMoreState(arrival: seq<Front>, i: nat, states: map<string, nat>)
    requires Distinct(arrival) && i < |arrival| && StatesOk(arrival, i, states)
    ensures StatesOk(arrival, i + 1, states[arrival[i].id := i])
  {
    forall k | 0 <= k < i ensures arrival[k].id != arrival[i].id {
      assert !Clashes(arrival, k, i);
    }
  }

  lemma OneMoreThread(arrival: seq<Front>, i: nat)
    requires i < |arrival|
    ensures ThreadsOf(arrival[..i + 1]) == ThreadsOf(arrival[..i]) + [arrival[i].thread]
  {
  }

  // Which arrivals have completed after the first records.
  ghost predicate CompletedSo(arrival: seq<Front>, records: seq<Front>, done: nat, outcomes: Outcomes)
    requires done <= |records|
  {
    forall k: nat ::
      k in outcomes <==> (k < |arrival| && arrival[k] in records[..done])
  }

  ghost predicate OutcomesMatch(arrival: seq<Front>, outcomes: Outcomes) {
    forall k :: k in outcomes ==> k < |arrival| && outcomes[k] == arrival[k].observed
  }

  lemma PositionOf(arrival: seq<Front>, records: seq<Front>, states: map<string, nat>, i: nat)
    requires IsArrival(records, arrival) && Distinct(records) && i < |records|
    requires StatesOk(arrival, |arrival|, states)
    ensures records[i].id in states && states[records[i].id] < |arrival|
    ensures arrival[states[records[i].id]] == records[i] && records[i] !in records[..i]
  {
    assert records[i] in multiset(records);
    assert records[i] in multiset(arrival);
    var k :| 0 <= k < |arrival| && arrival[k] == records[i];
    forall j | 0 <= j < i ensures records[j] != records[i] {
      assert !Clashes(records, j, i);
    }
  }

  lemma CompletedOneMore(arrival: seq<Front>, records: seq<Front>, i: nat, p: nat, outcomes: Outcomes)
    requires i < |records| && p < |arrival| && arrival[p] == records[i] && Ascending(arrival)
    requires CompletedSo(arrival, records, i, outcomes) && OutcomesMatch(arrival, outcomes)
    ensures CompletedSo(arrival, records, i + 1, outcomes[p := records[i].observed])
    ensures OutcomesMatch(arrival, outcomes[p := records[i].observed])
  {
    assert records[..i + 1] == records[..i] + [records[i]];
    forall k | 0 <= k < |arrival| && k != p ensures arrival[k] != records[i] {
      assert k < p ==> Before(arrival[k], arrival[p]);
      assert p < k ==> Before(arrival[p], arrival[k]);
    }
  }

  lemma AllCompleted(arrival: seq<Front>, records: seq<Front>, outcomes: Outcomes)
    requires IsArrival(records, arrival) && CompletedSo(arrival, records, |records|, outcomes)
    requires OutcomesMatch(arrival, outcomes)
    ensures Due(ThreadsOf(arrival), outcomes) == Recomputed(ThreadsOf(arrival), OutcomesOf(arrival))
  {
    assert records[..|records|] == records;
    forall k | 0 <= k < |arrival| ensures k in outcomes && outcomes[k] == OutcomesOf(arrival)[k] {
      assert arrival[k] in multiset(arrival);
      assert arrival[k] in multiset(records);
    }
    AllCompleteIsRecomputed(ThreadsOf(arrival), outcomes, OutcomesOf(arrival));
  }

  /** The request states are created in order of sequence. */
  method ArriveAll(arrival: seq<Front>) returns (recorder: Recorder, states: map<string, nat>)
    requires Distinct(arrival)
    ensures fresh(recorder) && recorder.Valid() && recorder.outcomes == map[]
    ensures Threads(recorder.requests) == ThreadsOf(arrival)
    ensures StatesOk(arrival, |arrival|, states)
  {
    recorder := new Recorder();
    states := map[];
    for i := 0 to |arrival|
      invariant fresh(recorder) && recorder.Valid() && recorder.outcomes == map[]
      invariant Threads(recorder.requests) == ThreadsOf(arrival[..i])
      invariant StatesOk(arrival, i, states)
    {
      var id := recorder.Arrive(arrival[i].thread);
      OneMoreThread(arrival, i);
      assert id == |ThreadsOf(arrival[..i])| == i;
      OneMoreState(arrival, i, states);
      states := states[arrival[i].id := id];
    }
    assert arrival[..|arrival|] == arrival;
  }

  lemma ArrivalIsDistinct(records: seq<Front>, arrival: seq<Front>)
    requires IsArrival(records, arrival) && Distinct(records)
    ensures Distinct(arrival)
  {
    forall i, j | 0 <= i < j < |arrival| ensures !Clashes(arrival, i, j) {
      assert Before(arrival[i], arrival[j]);
      assert arrival[i] in multiset(arrival) && arrival[j] in multiset(arrival);
      assert arrival[i] in multiset(records) && arrival[j] in multiset(records);
      var a :| 0 <= a < |records| && records[a] == arrival[i];
      var b :| 0 <= b < |records| && records[b] == arrival[j];
      assert a < b ==> !Clashes(records, a, b);
      assert b < a ==> !Clashes(records, b, a);
    }
  }

  // Requests arrive in order of sequence and complete in the order of the records.
  method Replay(records: seq<Front>) returns (totals: Totals)
    requires Distinct(records)
    ensures forall arrival :: IsArrival(records, arrival) ==>
      totals == Recomputed(ThreadsOf(arrival), OutcomesOf(arrival)).totals
  {
    var arrival := Sort(records);
    SortSorts(records);
    ArrivalIsDistinct(records, arrival);
    var recorder, states := ArriveAll(arrival);
    for i := 0 to |records|
      invariant fresh(recorder) && recorder.Valid() && Threads(recorder.requests) == ThreadsOf(arrival)
      invariant CompletedSo(arrival, records, i, recorder.outcomes) && OutcomesMatch(arrival, recorder.outcomes)
      invariant i == |records| ==> recorder.Current() == Due(ThreadsOf(arrival), recorder.outcomes)
    {
      PositionOf(arrival, records, states, i);
      CompletedOneMore(arrival, records, i, states[records[i].id], recorder.outcomes);
      assert |Threads(recorder.requests)| == |arrival|;
      recorder.Complete(states[records[i].id], records[i].observed);
    }
    AllCompleted(arrival, records, recorder.outcomes);
    forall other | IsArrival(records, other) ensures other == arrival {
      ArrivalIsUnique(other, arrival);
    }
    totals := recorder.totals;
  }

  /** The cache part of metricsFromRecords: it accepts exactly the readable captures with
      distinct clients that own every provider attempt, and whatever order the records
      are in, the totals are those of the recomputation in order of sequence. */
  method MetricsFromRecords(records: seq<Record>) returns (result: Result<Totals, ReplayError>)
    ensures result.Ok? <==> AllReadable(records) && Distinct(Clients(records)) && Matched(records)
    ensures result.Ok? ==> forall arrival ::
      IsArrival(Fronts(records), arrival) ==> result.value == Recomputed(ThreadsOf(arrival), OutcomesOf(arrival)).totals
  {
    var error, clients, providers := Collect(records);
    if error.Some? {
      return Err(error.value);
    }
    assert records[..|records|] == records;
    var fronts;
    error, fronts := TakeAttempts(records, clients, providers);
    if error.Some? {
      return Err(error.value);
    }
    FrontsAreDistinct(records);
    var totals := Replay(fronts);
    result := Ok(totals);
  }
}

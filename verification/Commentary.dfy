/** The commentary broker (internal/router/commentary_publisher.go): publishers hold a
    token for a route, accepted events wait in it until one drain takes them, and a
    thread's message identities outlive its route. Random tokens are new values, and
    a message identity is the pair it is hashed from. */
module Commentary {
  import opened Texts
  import opened Wrappers

  const MAX_THREAD_IDS := 16384
  const MAX_ROUTES := 256
  const MAX_EVENTS := 1024
  const MAX_EVENTS_PER_ROUTE := 64
  const MAX_PUBLICATION_BYTES := 16384
  const ROUTE_TTL := 3600

  type Token = nat

  datatype MessageId = MessageId(token: Token, n: nat)

  datatype Event = Event(callID: string, id: MessageId, text: string)

  datatype Route = Route(originThread: string, author: string, threadID: string, sessionID: string, callID: string,
                         expires: int, nextID: nat, events: seq<Event>, complete: bool)

  datatype Provenance = Provenance(author: string, sessionID: string, ids: set<MessageId>)

  // ---- Attribution --------------------------------------------------------------------

  // The longest run of backticks, the last of which has length `run` so far.
  function LongestRun(value: string, run: nat, longest: nat): nat
    decreases |value|
  {
    if value == "" then longest
    else if value[0] == '`' then LongestRun(value[1..], run + 1, if run + 1 > longest then run + 1 else longest)
    else LongestRun(value[1..], 0, longest)
  }

  function Fence(n: nat): string {
    seq(n, i => '`')
  }

  /** commentaryCode */
  function Code(value: string): string {
    var longest := LongestRun(value, 0, 0);
    var fence := Fence(longest + 1);
    if longest > 0 || (value != "" && (value[0] == ' ' || value[|value| - 1] == ' ')) then
      fence + " " + value + " " + fence
    else fence + value + fence
  }

  function Prefix(author: string): string {
    "[" + Code(author) + "] "
  }

  predicate HasAuthor(text: string, author: string) {
    |Prefix(author)| <= |text| && text[..|Prefix(author)|] == Prefix(author)
  }

  /** attributedCommentary */
  function Attributed(author: string, text: string): string {
    if author == "" || HasAuthor(text, author) then text else Prefix(author) + text
  }

  // The check before the text is rendered.
  predicate RenderedFits(author: string, text: string) {
    && Size(text) <= MAX_PUBLICATION_BYTES
    && (author != "" && !HasAuthor(text, author) ==> Size(Code(author)) + 3 <= MAX_PUBLICATION_BYTES - Size(text))
  }

  lemma PrefixSize(author: string)
    ensures Size(Prefix(author)) == Size(Code(author)) + 3
  {
    SizeConcat("[" + Code(author), "] ");
    SizeConcat("[", Code(author));
    assert Size("[") == 1 && Size("] ") == 2;
  }

  /** The check is exactly that the rendered text is within the limit. */
  lemma FitsIffRendered(author: string, text: string)
    ensures RenderedFits(author, text) <==> Size(Attributed(author, text)) <= MAX_PUBLICATION_BYTES
  {
    PrefixSize(author);
    SizeConcat(Prefix(author), text);
  }

  lemma {:induction false} RunsAreShorter(value: string, run: nat, longest: nat, i: nat, n: nat)
    requires i + n <= |value| && forall k :: i <= k < i + n ==> value[k] == '`'
    ensures longest <= LongestRun(value, run, longest)
    ensures i == 0 && n > 0 ==> run + n <= LongestRun(value, run, longest)
    ensures n <= LongestRun(value, run, longest)
    decreases |value|
  {
    if value != "" {
      var tick := value[0] == '`';
      var more, most := if tick then run + 1 else 0, if tick && run + 1 > longest then run + 1 else longest;
      if i > 0 {
        RunsAreShorter(value[1..], more, most, i - 1, n);
      } else {
        RunsAreShorter(value[1..], more, most, 0, if n == 0 then 0 else n - 1);
      }
    }
  }

  /** The fence of a code span is longer than every run of backticks in it, so the span
      ends where the fence says. */
  lemma FenceIsAbsent(value: string, i: nat)
    requires i + LongestRun(value, 0, 0) + 1 <= |value|
    ensures value[i..i + LongestRun(value, 0, 0) + 1] != Fence(LongestRun(value, 0, 0) + 1)
  {
    var n := LongestRun(value, 0, 0) + 1;
    var part := value[i..i + n];
    if part == Fence(n) {
      forall k | i <= k < i + n ensures value[k] == '`' {
        assert value[k] == part[k - i] == Fence(n)[k - i];
      }
      RunsAreShorter(value, 0, 0, i, n);
    }
  }

  predicate HasFence(value: string, i: nat, fence: nat) {
    i + fence <= |value| && value[i..i + fence] == Fence(fence)
  }

  /** A code span is its value between two fences, and no part of the value reads as
      one: the value holds no such run, and none of its backticks touches a fence. */
  lemma CodeIsOneSpan(value: string) returns (fence: nat, inner: string)
    ensures fence > 0 && Code(value) == Fence(fence) + inner + Fence(fence)
    ensures inner == value || inner == " " + value + " "
    ensures forall i: nat :: !HasFence(value, i, fence)
    ensures value != "" ==> inner[0] != '`' && inner[|inner| - 1] != '`'
  {
    var longest := LongestRun(value, 0, 0);
    fence := longest + 1;
    var padded := longest > 0 || (value != "" && (value[0] == ' ' || value[|value| - 1] == ' '));
    inner := if padded then " " + value + " " else value;
    assert padded ==> Fence(fence) + " " + value + " " + Fence(fence) == Fence(fence) + inner + Fence(fence);
    forall i: nat ensures !HasFence(value, i, fence) {
      if i + fence <= |value| {
        FenceIsAbsent(value, i);
      }
    }
    if value != "" {
      TicksCount(value, 0);
      TicksCount(value, |value| - 1);
    }
  }

  lemma TicksCount(value: string, i: nat)
    requires i < |value|
    ensures value[i] == '`' ==> LongestRun(value, 0, 0) > 0
  {
    if value[i] == '`' {
      RunsAreShorter(value, 0, 0, i, 1);
    }
  }

  /** An attributed text starts with its author, once, and ends with the text. */
  lemma AttributedOnce(author: string, text: string)
    ensures author != "" ==> HasAuthor(Attributed(author, text), author)
    ensures Attributed(author, Attributed(author, text)) == Attributed(author, text)
    ensures |text| <= |Attributed(author, text)|
    ensures Attributed(author, text)[|Attributed(author, text)| - |text|..] == text
    ensures author == "" ==> Attributed(author, text) == text
  {
  }

  predicate IsSpace(c: char) {
    || '\t' <= c <= '\r' || c == ' ' || c == '\U{85}' || c == '\U{A0}' || c == '\U{1680}'
    || '\U{2000}' <= c <= '\U{200A}'
    || c == '\U{2028}' || c == '\U{2029}' || c == '\U{202F}' || c == '\U{205F}' || c == '\U{3000}'
  }

  predicate Blank(text: string) {
    forall i :: 0 <= i < |text| ==> IsSpace(text[i])
  }

  // ---- Sums over maps --------------------------------------------------------------------

  ghost function Total<K(!new)>(m: map<K, nat>): nat
    decreases |m|
  {
    if m == map[] then 0 else
    var k :| k in m;
    m[k] + Total(m - {k})
  }

  lemma {:induction false} TotalRemove<K(!new)>(m: map<K, nat>, k: K)
    requires k in m
    ensures Total(m) == m[k] + Total(m - {k})
    decreases |m|
  {
    var first :| first in m && Total(m) == m[first] + Total(m - {first});
    if first != k {
      TotalRemove(m - {first}, k);
      TotalRemove(m - {k}, first);
      assert m - {first} - {k} == m - {k} - {first};
    }
  }

  lemma TotalUpdate<K(!new)>(m: map<K, nat>, k: K, v: nat)
    ensures Total(m[k := v]) == v + Total(m - {k})
  {
    TotalRemove(m[k := v], k);
    assert m[k := v] - {k} == m - {k};
  }

  function EventCounts(routes: map<Token, Route>): map<Token, nat> {
    map t | t in routes :: |routes[t].events|
  }

  function IdCounts(threads: map<string, Provenance>): map<string, nat> {
    map t | t in threads :: |threads[t].ids|
  }

  // ---- The state and its invariant ---------------------------------------------------------

  /** The fields of the broker, and a log of everything that was ever accepted: where
      each event went, and the thread (or none) that each token was issued for. */
  datatype State = State(routes: map<Token, Route>, threads: map<string, Provenance>,
                         eventCount: int, threadIDCount: int, closed: bool,
                         owner: map<Token, string>, log: map<MessageId, Event>,
                         delivered: set<MessageId>, discarded: set<MessageId>)

  const EMPTY := State(map[], map[], 0, 0, false, map[], map[], {}, {})

  // The identities of the events that wait in a route: the last ones it gave out.
  function Waiting(t: Token, r: Route): set<MessageId> {
    set n: nat | n <= r.nextID < n + |r.events| :: MessageId(t, n)
  }

  predicate Pending(s: State, id: MessageId) {
    id.token in s.routes && id.n <= s.routes[id.token].nextID < id.n + |s.routes[id.token].events|
  }

  ghost predicate EventsOk(t: Token, r: Route, log: map<MessageId, Event>) {
    && |r.events| <= r.nextID
    && forall i :: 0 <= i < |r.events| ==>
      && r.events[i].id == MessageId(t, r.nextID - |r.events| + 1 + i)
      && r.events[i].id in log && log[r.events[i].id] == r.events[i]
  }

  ghost predicate RouteOk(s: State, t: Token) {
    t in s.routes ==>
      var r := s.routes[t];
      && EventsOk(t, r, s.log) && t in s.owner && s.owner[t] == r.threadID
      && |r.events| <= MAX_EVENTS_PER_ROUTE && (r.threadID == "" ==> r.nextID <= MAX_EVENTS_PER_ROUTE)
      && (r.threadID != "" ==>
            && r.threadID in s.threads
            && r.author == s.threads[r.threadID].author && r.sessionID == s.threads[r.threadID].sessionID)
      && forall n: nat :: MessageId(t, n) in s.log <==> 1 <= n <= r.nextID
  }

  /** Every accepted event waits, was delivered, or was discarded: exactly one of them. */
  ghost predicate LogOk(s: State, id: MessageId) {
    && (id in s.log ==> id.token in s.owner && s.log[id].id == id && Size(s.log[id].text) <= MAX_PUBLICATION_BYTES)
    && (id in s.delivered || id in s.discarded ==> id in s.log && !Pending(s, id))
    && !(id in s.delivered && id in s.discarded)
    && (id in s.log && id !in s.delivered && id !in s.discarded ==> Pending(s, id))
  }

  ghost predicate ThreadOk(s: State, thread: string) {
    thread in s.threads ==>
      && thread != ""
      && forall id :: id in s.threads[thread].ids <==>
        (id in s.log && id.token in s.owner && s.owner[id.token] == thread)
  }

  // Until the broker closes, a thread that was given a token keeps its provenance.
  ghost predicate OwnerOk(s: State, t: Token) {
    t in s.owner && s.owner[t] != "" && !s.closed ==> s.owner[t] in s.threads
  }

  ghost predicate OnePerThread(s: State, t: Token, u: Token) {
    t in s.routes && u in s.routes && s.routes[t].threadID == s.routes[u].threadID != "" ==> t == u
  }

  predicate BoundsOk(s: State) {
    && |s.routes| <= MAX_ROUTES && |s.threads| <= MAX_ROUTES
    && 0 <= s.eventCount <= MAX_EVENTS && 0 <= s.threadIDCount <= MAX_THREAD_IDS
    && (s.closed ==> s.routes == map[] && s.threads == map[])
  }

  ghost predicate CountsOk(s: State) {
    s.eventCount == Total(EventCounts(s.routes)) && s.threadIDCount == Total(IdCounts(s.threads))
  }

  ghost predicate RoutesOk(s: State) {
    forall t :: RouteOk(s, t)
  }

  ghost predicate LogsOk(s: State) {
    forall id :: LogOk(s, id)
  }

  ghost predicate ThreadsOk(s: State) {
    && (forall thread :: ThreadOk(s, thread))
    && (forall t :: OwnerOk(s, t))
    && (forall t, u :: OnePerThread(s, t, u))
  }

  ghost predicate Inv(s: State) {
    BoundsOk(s) && CountsOk(s) && RoutesOk(s) && LogsOk(s) && ThreadsOk(s)
  }

  // ---- Steps ---------------------------------------------------------------------------------

  /** A route goes away with everything that waits in it. */
  ghost function Retired(s: State, t: Token): State
    requires t in s.routes
  {
    s.(routes := s.routes - {t}, eventCount := s.eventCount - |s.routes[t].events|,
       discarded := s.discarded + Waiting(t, s.routes[t]))
  }

  /** A drain takes everything that waits; a completed route then goes away. */
  ghost function Drained(s: State, t: Token): State
    requires t in s.routes
  {
    var r := s.routes[t];
    s.(routes := if r.complete then s.routes - {t} else s.routes[t := r.(events := [])],
       eventCount := s.eventCount - |r.events|, delivered := s.delivered + Waiting(t, r))
  }

  lemma WaitingIsPending(s: State, t: Token, n: nat)
    requires t in s.routes && EventsOk(t, s.routes[t], s.log)
    ensures MessageId(t, n) in Waiting(t, s.routes[t]) <==> Pending(s, MessageId(t, n))
    ensures Pending(s, MessageId(t, n)) ==> 1 <= n && MessageId(t, n) in s.log
  {
    var r := s.routes[t];
    if r.nextID - |r.events| < n <= r.nextID {
      assert r.events[n - (r.nextID - |r.events|) - 1].id == MessageId(t, n);
    }
  }

  lemma EventsWithout(routes: map<Token, Route>, t: Token)
    requires t in routes
    ensures Total(EventCounts(routes)) == |routes[t].events| + Total(EventCounts(routes - {t}))
  {
    TotalRemove(EventCounts(routes), t);
    assert EventCounts(routes) - {t} == EventCounts(routes - {t});
  }

  lemma EventsWith(routes: map<Token, Route>, t: Token, r: Route)
    ensures Total(EventCounts(routes[t := r])) == |r.events| + Total(EventCounts(routes - {t}))
  {
    EventsWithout(routes[t := r], t);
    assert routes[t := r] - {t} == routes - {t};
  }

  lemma IdsWith(threads: map<string, Provenance>, thread: string, p: Provenance)
    ensures Total(IdCounts(threads[thread := p])) == |p.ids| + Total(IdCounts(threads - {thread}))
  {
    TotalUpdate(IdCounts(threads), thread, |p.ids|);
    assert IdCounts(threads[thread := p]) == IdCounts(threads)[thread := |p.ids|];
    assert IdCounts(threads) - {thread} == IdCounts(threads - {thread});
  }

  lemma IdsWithout(threads: map<string, Provenance>, thread: string)
    requires thread in threads
    ensures Total(IdCounts(threads)) == |threads[thread].ids| + Total(IdCounts(threads - {thread}))
  {
    IdsWith(threads, thread, threads[thread]);
    assert threads[thread := threads[thread]] == threads;
  }

  // A log entry in the next state is as good when nothing about it changed.
  lemma SameEntry(s: State, next: State, id: MessageId)
    requires LogOk(s, id)
    requires (id in next.log <==> id in s.log) && (id in s.log ==> next.log[id] == s.log[id])
    requires forall t :: t in s.owner ==> t in next.owner
    requires (Pending(next, id) <==> Pending(s, id))
    requires (id in next.delivered <==> id in s.delivered) && (id in next.discarded <==> id in s.discarded)
    ensures LogOk(next, id)
  {
  }

  // Threads, owners and uniqueness do not depend on what waits in a route.
  lemma ThreadsKeep(s: State, next: State)
    requires ThreadsOk(s) && next.threads == s.threads && next.log == s.log && next.owner == s.owner
    requires next.closed == s.closed
    requires forall t :: t in next.routes ==> t in s.routes && next.routes[t].threadID == s.routes[t].threadID
    ensures ThreadsOk(next)
  {
    forall thread ensures ThreadOk(next, thread) {
      assert ThreadOk(s, thread);
    }
    forall t ensures OwnerOk(next, t) {
      assert OwnerOk(s, t);
    }
    forall t, u ensures OnePerThread(next, t, u) {
      assert OnePerThread(s, t, u);
    }
  }

  lemma {:induction false} FewerElements<K>(a: set<K>, b: set<K>)
    requires a <= b
    ensures |a| <= |b|
  {
    if a != {} {
      var k :| k in a;
      FewerElements(a - {k}, b - {k});
    }
  }

  lemma FewerRoutes(a: map<Token, Route>, b: map<Token, Route>)
    requires a.Keys <= b.Keys
    ensures |a| <= |b|
  {
    FewerElements(a.Keys, b.Keys);
  }

  // ---- A route goes away ------------------------------------------------------------------------

  lemma RetireCounts(s: State, t: Token)
    requires BoundsOk(s) && CountsOk(s) && t in s.routes
    ensures BoundsOk(Retired(s, t)) && CountsOk(Retired(s, t))
  {
    EventsWithout(s.routes, t);
    FewerRoutes(s.routes - {t}, s.routes);
  }

  lemma RetireLog(s: State, t: Token, id: MessageId)
    requires LogOk(s, id) && RouteOk(s, t) && t in s.routes
    ensures LogOk(Retired(s, t), id)
  {
    WaitingIsPending(s, t, id.n);
  }

  lemma RetireKeeps(s: State, t: Token)
    requires Inv(s) && t in s.routes
    ensures Inv(Retired(s, t))
  {
    var next := Retired(s, t);
    RetireCounts(s, t);
    forall id ensures LogOk(next, id) {
      assert LogOk(s, id) && RouteOk(s, t);
      RetireLog(s, t, id);
    }
    forall u ensures RouteOk(next, u) {
      assert RouteOk(s, u);
    }
    ThreadsKeep(s, next);
  }

  // ---- A drain -----------------------------------------------------------------------------------

  lemma DrainCounts(s: State, t: Token)
    requires BoundsOk(s) && CountsOk(s) && t in s.routes
    ensures BoundsOk(Drained(s, t)) && CountsOk(Drained(s, t))
  {
    EventsWithout(s.routes, t);
    EventsWith(s.routes, t, s.routes[t].(events := []));
    FewerRoutes(Drained(s, t).routes, s.routes);
  }

  lemma DrainLog(s: State, t: Token, id: MessageId)
    requires LogOk(s, id) && RouteOk(s, t) && t in s.routes
    ensures LogOk(Drained(s, t), id)
  {
    WaitingIsPending(s, t, id.n);
  }

  lemma DrainKeeps(s: State, t: Token)
    requires Inv(s) && t in s.routes
    ensures Inv(Drained(s, t))
  {
    var next := Drained(s, t);
    DrainCounts(s, t);
    forall id ensures LogOk(next, id) {
      assert LogOk(s, id) && RouteOk(s, t);
      DrainLog(s, t, id);
    }
    forall u ensures RouteOk(next, u) {
      assert RouteOk(s, u);
    }
    ThreadsKeep(s, next);
  }

  // ---- Fields that no event depends on --------------------------------------------------------------

  ghost function Touched(s: State, t: Token, r: Route): State {
    s.(routes := s.routes[t := r])
  }

  predicate SameEvents(r: Route, before: Route) {
    && r.events == before.events && r.nextID == before.nextID && r.author == before.author
    && r.threadID == before.threadID && r.sessionID == before.sessionID
  }

  lemma TouchCounts(s: State, t: Token, r: Route)
    requires BoundsOk(s) && CountsOk(s) && t in s.routes && r.events == s.routes[t].events
    ensures BoundsOk(Touched(s, t, r)) && CountsOk(Touched(s, t, r))
  {
    EventsWithout(s.routes, t);
    EventsWith(s.routes, t, r);
    FewerRoutes(s.routes[t := r], s.routes);
  }

  lemma TouchKeeps(s: State, t: Token, r: Route)
    requires Inv(s) && t in s.routes && SameEvents(r, s.routes[t])
    ensures Inv(Touched(s, t, r))
  {
    var next := Touched(s, t, r);
    TouchCounts(s, t, r);
    forall id ensures LogOk(next, id) {
      assert LogOk(s, id);
      SameEntry(s, next, id);
    }
    forall u ensures RouteOk(next, u) {
      assert RouteOk(s, u);
    }
    ThreadsKeep(s, next);
  }

  // ---- A new route ------------------------------------------------------------------------------------

  /** A route for a token that was never issued before. */
  ghost function Subscribed(s: State, t: Token, r: Route): State {
    s.(routes := s.routes[t := r], owner := s.owner[t := r.threadID])
  }

  // The route belongs to no thread, or to one that has provenance and no other route.
  ghost predicate MaySubscribe(s: State, t: Token, r: Route) {
    && t !in s.owner && !s.closed && |s.routes| < MAX_ROUTES && r.nextID == 0 && r.events == []
    && (r.threadID != "" ==>
          && r.threadID in s.threads
          && r.author == s.threads[r.threadID].author && r.sessionID == s.threads[r.threadID].sessionID
          && forall u :: u in s.routes ==> s.routes[u].threadID != r.threadID)
  }

  lemma SubscribeCounts(s: State, t: Token, r: Route)
    requires BoundsOk(s) && CountsOk(s) && MaySubscribe(s, t, r) && t !in s.routes
    ensures BoundsOk(Subscribed(s, t, r)) && CountsOk(Subscribed(s, t, r))
  {
    NewRoute(s.routes, t, r);
  }

  lemma NewRoute(routes: map<Token, Route>, t: Token, r: Route)
    requires t !in routes && r.events == []
    ensures Total(EventCounts(routes[t := r])) == Total(EventCounts(routes)) && |routes[t := r]| == |routes| + 1
  {
    EventsWith(routes, t, r);
    assert routes - {t} == routes;
  }

  lemma SubscribeThreads(s: State, t: Token, r: Route)
    requires LogsOk(s) && ThreadsOk(s) && MaySubscribe(s, t, r) && t !in s.routes
    ensures ThreadsOk(Subscribed(s, t, r))
  {
    var next := Subscribed(s, t, r);
    forall thread ensures ThreadOk(next, thread) {
      assert ThreadOk(s, thread);
      forall id | id in s.log ensures id.token != t {
        assert LogOk(s, id);
      }
    }
    forall u ensures OwnerOk(next, u) {
      assert OwnerOk(s, u);
    }
    forall u, v ensures OnePerThread(next, u, v) {
      assert OnePerThread(s, u, v);
    }
  }

  lemma SubscribeRoute(s: State, t: Token, r: Route, u: Token)
    requires RouteOk(s, u) && MaySubscribe(s, t, r) && forall n: nat :: MessageId(t, n) !in s.log
    ensures RouteOk(Subscribed(s, t, r), u)
  {
  }

  lemma SubscribeLog(s: State, t: Token, r: Route, id: MessageId)
    requires LogOk(s, id) && MaySubscribe(s, t, r) && t !in s.routes
    ensures LogOk(Subscribed(s, t, r), id)
  {
  }

  lemma SubscribeKeeps(s: State, t: Token, r: Route)
    requires Inv(s) && MaySubscribe(s, t, r)
    ensures Inv(Subscribed(s, t, r))
  {
    assert RouteOk(s, t);
    SubscribeCounts(s, t, r);
    SubscribeThreads(s, t, r);
    forall n: nat ensures MessageId(t, n) !in s.log {
      assert LogOk(s, MessageId(t, n));
    }
    forall id ensures LogOk(Subscribed(s, t, r), id) {
      assert LogOk(s, id);
      SubscribeLog(s, t, r, id);
    }
    forall u ensures RouteOk(Subscribed(s, t, r), u) {
      assert RouteOk(s, u);
      SubscribeRoute(s, t, r, u);
    }
  }

  // ---- A thread --------------------------------------------------------------------------------------

  /** A thread gets provenance when it first asks for a token. */
  ghost function Introduced(s: State, thread: string, p: Provenance): State {
    s.(threads := s.threads[thread := p])
  }

  lemma IntroduceCounts(s: State, thread: string, p: Provenance)
    requires BoundsOk(s) && CountsOk(s) && thread !in s.threads && p.ids == {} && !s.closed && |s.threads| < MAX_ROUTES
    ensures BoundsOk(Introduced(s, thread, p)) && CountsOk(Introduced(s, thread, p))
  {
    NewThread(s.threads, thread, p);
  }

  lemma NewThread(threads: map<string, Provenance>, thread: string, p: Provenance)
    requires thread !in threads && p.ids == {}
    ensures Total(IdCounts(threads[thread := p])) == Total(IdCounts(threads)) && |threads[thread := p]| == |threads| + 1
  {
    IdsWith(threads, thread, p);
    assert threads - {thread} == threads;
  }

  lemma IntroduceKeeps(s: State, thread: string, p: Provenance)
    requires Inv(s) && thread !in s.threads && thread != "" && p.ids == {} && !s.closed && |s.threads| < MAX_ROUTES
    ensures Inv(Introduced(s, thread, p))
  {
    var next := Introduced(s, thread, p);
    IntroduceCounts(s, thread, p);
    forall id ensures LogOk(next, id) {
      assert LogOk(s, id);
      SameEntry(s, next, id);
    }
    forall t ensures RouteOk(next, t) {
      assert RouteOk(s, t);
    }
    IntroduceThreads(s, thread, p);
  }

  lemma IntroduceThreads(s: State, thread: string, p: Provenance)
    requires LogsOk(s) && ThreadsOk(s) && thread !in s.threads && thread != "" && p.ids == {} && !s.closed
    ensures ThreadsOk(Introduced(s, thread, p))
  {
    var next := Introduced(s, thread, p);
    forall other ensures ThreadOk(next, other) {
      assert ThreadOk(s, other);
      forall id | id in s.log && id.token in s.owner ensures s.owner[id.token] != thread {
        assert OwnerOk(s, id.token);
      }
    }
    forall t ensures OwnerOk(next, t) {
      assert OwnerOk(s, t);
    }
    forall t, u ensures OnePerThread(next, t, u) {
      assert OnePerThread(s, t, u);
    }
  }

  /** A thread asks again: its session is renewed, in its provenance and its route. */
  ghost function Renewed(s: State, thread: string, session: string, expires: int): State
    requires thread in s.threads
  {
    s.(threads := s.threads[thread := s.threads[thread].(sessionID := session)],
       routes := map t | t in s.routes ::
         if s.routes[t].threadID == thread then s.routes[t].(sessionID := session, expires := expires) else s.routes[t])
  }

  lemma RenewCounts(s: State, thread: string, session: string, expires: int)
    requires BoundsOk(s) && CountsOk(s) && thread in s.threads
    ensures BoundsOk(Renewed(s, thread, session, expires)) && CountsOk(Renewed(s, thread, session, expires))
  {
    var next := Renewed(s, thread, session, expires);
    assert EventCounts(next.routes) == EventCounts(s.routes);
    assert IdCounts(next.threads) == IdCounts(s.threads);
    FewerRoutes(next.routes, s.routes);
    FewerElements(next.threads.Keys, s.threads.Keys);
  }

  lemma RenewThreads(s: State, thread: string, session: string, expires: int)
    requires ThreadsOk(s) && thread in s.threads
    ensures ThreadsOk(Renewed(s, thread, session, expires))
  {
    var next := Renewed(s, thread, session, expires);
    forall other ensures ThreadOk(next, other) {
      assert ThreadOk(s, other);
    }
    forall t ensures OwnerOk(next, t) {
      assert OwnerOk(s, t);
    }
    forall t, u ensures OnePerThread(next, t, u) {
      assert OnePerThread(s, t, u);
    }
  }

  lemma RenewLog(s: State, thread: string, session: string, expires: int, id: MessageId)
    requires LogOk(s, id) && thread in s.threads
    ensures LogOk(Renewed(s, thread, session, expires), id)
  {
  }

  lemma RenewRoute(s: State, thread: string, session: string, expires: int, t: Token)
    requires RouteOk(s, t) && thread in s.threads
    ensures RouteOk(Renewed(s, thread, session, expires), t)
  {
  }

  lemma RenewKeeps(s: State, thread: string, session: string, expires: int)
    requires Inv(s) && thread in s.threads
    ensures Inv(Renewed(s, thread, session, expires))
  {
    var next := Renewed(s, thread, session, expires);
    RenewCounts(s, thread, session, expires);
    RenewThreads(s, thread, session, expires);
    forall id ensures LogOk(next, id) {
      assert LogOk(s, id);
      RenewLog(s, thread, session, expires, id);
    }
    forall t ensures RouteOk(next, t) {
      assert RouteOk(s, t);
      RenewRoute(s, thread, session, expires, t);
    }
  }

  // ---- Accepting an event --------------------------------------------------------------------------

  function Grown(r: Route, event: Event): Route {
    r.(nextID := r.nextID + 1, events := r.events + [event])
  }

  function WithId(threads: map<string, Provenance>, thread: string, id: MessageId): map<string, Provenance> {
    if thread in threads then threads[thread := threads[thread].(ids := threads[thread].ids + {id})] else threads
  }

  ghost function Accepted(s: State, t: Token, event: Event): State
    requires t in s.routes
  {
    var r := s.routes[t];
    s.(routes := s.routes[t := Grown(r, event)], eventCount := s.eventCount + 1, log := s.log[event.id := event],
       threads := if r.threadID == "" then s.threads else WithId(s.threads, r.threadID, event.id),
       threadIDCount := if r.threadID == "" then s.threadIDCount else s.threadIDCount + 1)
  }

  predicate HasCapacity(r: Route, eventCount: int, threadIDCount: int) {
    && eventCount < MAX_EVENTS
    && if r.threadID == "" then r.nextID < MAX_EVENTS_PER_ROUTE
       else |r.events| < MAX_EVENTS_PER_ROUTE && threadIDCount < MAX_THREAD_IDS
  }

  /** What may be published on a route, with that many events and identities around. */
  predicate IsAcceptable(r: Route, text: string, eventCount: int, threadIDCount: int) {
    && !Blank(text) && Size(Attributed(r.author, text)) <= MAX_PUBLICATION_BYTES
    && HasCapacity(r, eventCount, threadIDCount)
  }

  predicate MayAccept(s: State, t: Token, event: Event) {
    && t in s.routes && event.id == MessageId(t, s.routes[t].nextID + 1)
    && Size(event.text) <= MAX_PUBLICATION_BYTES && HasCapacity(s.routes[t], s.eventCount, s.threadIDCount)
  }

  lemma AcceptCounts(s: State, t: Token, event: Event)
    requires BoundsOk(s) && CountsOk(s) && RouteOk(s, t) && MayAccept(s, t, event)
    requires s.routes[t].threadID != "" ==> ThreadOk(s, s.routes[t].threadID)
    ensures BoundsOk(Accepted(s, t, event)) && CountsOk(Accepted(s, t, event))
  {
    var r := s.routes[t];
    EventsWithout(s.routes, t);
    EventsWith(s.routes, t, Grown(r, event));
    FewerRoutes(s.routes[t := Grown(r, event)], s.routes);
    if r.threadID != "" {
      AcceptIds(s, t, event);
    }
  }

  // The identity is new to its thread.
  lemma AcceptIds(s: State, t: Token, event: Event)
    requires RouteOk(s, t) && MayAccept(s, t, event) && s.routes[t].threadID != "" && ThreadOk(s, s.routes[t].threadID)
    ensures var threads := WithId(s.threads, s.routes[t].threadID, event.id);
      Total(IdCounts(threads)) == Total(IdCounts(s.threads)) + 1 && |threads| == |s.threads|
  {
    var thread := s.routes[t].threadID;
    var p := s.threads[thread];
    assert event.id !in p.ids;
    IdsWithout(s.threads, thread);
    IdsWith(s.threads, thread, p.(ids := p.ids + {event.id}));
    var threads := WithId(s.threads, thread, event.id);
    assert threads.Keys == s.threads.Keys;
    assert |threads.Keys| == |s.threads.Keys|;
  }

  lemma AcceptLog(s: State, t: Token, event: Event, id: MessageId)
    requires LogOk(s, id) && RouteOk(s, t) && MayAccept(s, t, event)
    ensures LogOk(Accepted(s, t, event), id)
  {
    if id != event.id && id.token == t {
      assert Pending(Accepted(s, t, event), id) <==> Pending(s, id);
    }
  }

  lemma AcceptRoute(s: State, t: Token, event: Event, u: Token)
    requires RouteOk(s, u) && RouteOk(s, t) && MayAccept(s, t, event)
    ensures RouteOk(Accepted(s, t, event), u)
  {
    var next := Accepted(s, t, event);
    if u == t {
      GrownEvents(t, s.routes[t], s.log, event);
    } else if u in s.routes {
      OtherEvents(u, s.routes[u], s.log, event);
      assert next.routes[u] == s.routes[u];
    }
  }

  lemma GrownEvents(t: Token, r: Route, log: map<MessageId, Event>, event: Event)
    requires EventsOk(t, r, log) && event.id == MessageId(t, r.nextID + 1)
    ensures EventsOk(t, Grown(r, event), log[event.id := event])
  {
  }

  lemma OtherEvents(u: Token, r: Route, log: map<MessageId, Event>, event: Event)
    requires EventsOk(u, r, log) && event.id.token != u
    ensures EventsOk(u, r, log[event.id := event])
  {
  }

  lemma AcceptThreads(s: State, t: Token, event: Event)
    requires ThreadsOk(s) && RouteOk(s, t) && MayAccept(s, t, event)
    ensures ThreadsOk(Accepted(s, t, event))
  {
    var next := Accepted(s, t, event);
    forall other ensures ThreadOk(next, other) {
      assert ThreadOk(s, other);
    }
    forall u ensures OwnerOk(next, u) {
      assert OwnerOk(s, u);
    }
    forall u, v ensures OnePerThread(next, u, v) {
      assert OnePerThread(s, u, v);
    }
  }

  lemma AcceptKeeps(s: State, t: Token, event: Event)
    requires Inv(s) && MayAccept(s, t, event)
    ensures Inv(Accepted(s, t, event))
  {
    assert RouteOk(s, t) && ThreadOk(s, s.routes[t].threadID);
    AcceptCounts(s, t, event);
    AcceptThreads(s, t, event);
    forall id ensures LogOk(Accepted(s, t, event), id) {
      assert LogOk(s, id);
      AcceptLog(s, t, event, id);
    }
    forall u ensures RouteOk(Accepted(s, t, event), u) {
      assert RouteOk(s, u);
      AcceptRoute(s, t, event, u);
    }
  }

  // ---- Closing ------------------------------------------------------------------------------------------

  /** Everything that was not delivered is discarded. */
  ghost function Closed(s: State): State {
    s.(routes := map[], threads := map[], eventCount := 0, threadIDCount := 0, closed := true,
       discarded := s.log.Keys - s.delivered)
  }

  lemma CloseKeeps(s: State)
    requires Inv(s)
    ensures Inv(Closed(s)) && s.discarded <= Closed(s).discarded
  {
    var next := Closed(s);
    assert EventCounts(next.routes) == map[] && IdCounts(next.threads) == map[];
    forall id ensures LogOk(next, id) && (id in s.discarded ==> id in next.discarded) {
      assert LogOk(s, id);
    }
  }

  // ---- Conservation -----------------------------------------------------------------------------------

  function PendingIds(s: State): set<MessageId> {
    set id | id in s.log && Pending(s, id)
  }

  lemma {:induction false} SetOfRange(t: Token, low: nat, count: nat)
    ensures |set n: nat | low < n <= low + count :: MessageId(t, n)| == count
    decreases count
  {
    var ids := set n: nat | low < n <= low + count :: MessageId(t, n);
    if count == 0 {
      assert ids == {};
    } else {
      SetOfRange(t, low, count - 1);
      var fewer := set n: nat | low < n <= low + (count - 1) :: MessageId(t, n);
      assert ids == fewer + {MessageId(t, low + count)};
    }
  }

  lemma WaitingCount(t: Token, r: Route)
    requires |r.events| <= r.nextID
    ensures |Waiting(t, r)| == |r.events|
  {
    var low := r.nextID - |r.events|;
    SetOfRange(t, low, |r.events|);
    assert Waiting(t, r) == set n: nat | low < n <= low + |r.events| :: MessageId(t, n);
  }

  lemma PendingSplit(s: State, t: Token)
    requires Inv(s) && t in s.routes
    ensures PendingIds(s) == PendingIds(Retired(s, t)) + Waiting(t, s.routes[t])
    ensures PendingIds(Retired(s, t)) !! Waiting(t, s.routes[t])
  {
    assert RouteOk(s, t);
    forall id ensures id in PendingIds(s) <==> id in PendingIds(Retired(s, t)) || id in Waiting(t, s.routes[t]) {
      WaitingIsPending(s, t, id.n);
    }
  }

  lemma {:induction false} PendingCount(s: State)
    requires Inv(s)
    ensures |PendingIds(s)| == s.eventCount
    decreases |s.routes|
  {
    if s.routes == map[] {
      assert PendingIds(s) == {} && EventCounts(s.routes) == map[];
    } else {
      var t :| t in s.routes;
      RetireKeeps(s, t);
      RetireCounts(s, t);
      assert RouteOk(s, t);
      FewerAfterRetiring(s, t);
      PendingCount(Retired(s, t));
      PendingSplit(s, t);
      WaitingCount(t, s.routes[t]);
    }
  }

  lemma FewerAfterRetiring(s: State, t: Token)
    requires t in s.routes
    ensures |Retired(s, t).routes| < |s.routes|
  {
    assert s.routes.Keys == (s.routes - {t}).Keys + {t};
  }

  /** In every reachable state an accepted event was delivered, was discarded or waits,
      and exactly one of these. */
  lemma EventsHaveOneFate(s: State)
    requires Inv(s)
    ensures s.log.Keys == s.delivered + s.discarded + PendingIds(s)
    ensures s.delivered !! s.discarded && s.delivered !! PendingIds(s) && s.discarded !! PendingIds(s)
  {
    forall id ensures id in s.log <==> id in s.delivered || id in s.discarded || id in PendingIds(s) {
      assert LogOk(s, id);
    }
    forall id | id in s.delivered || id in s.discarded
      ensures id !in PendingIds(s) && !(id in s.delivered && id in s.discarded)
    {
      assert LogOk(s, id);
    }
  }

  lemma SizeOfThree<K>(whole: set<K>, a: set<K>, b: set<K>, c: set<K>)
    requires whole == a + b + c && a !! b && a !! c && b !! c
    ensures |whole| == |a| + |b| + |c|
  {
    assert |a + b| == |a| + |b|;
    assert (a + b) !! c;
  }

  /** No accepted event is lost or counted twice. */
  lemma EventsAreConserved(s: State)
    requires Inv(s)
    ensures |s.log.Keys| == |s.delivered| + |s.discarded| + s.eventCount
  {
    EventsHaveOneFate(s);
    PendingCount(s);
    SizeOfThree(s.log.Keys, s.delivered, s.discarded, PendingIds(s));
  }

  // ---- The broker -----------------------------------------------------------------------------------

  function IdsOf(events: seq<Event>): set<MessageId> {
    set e | e in events :: e.id
  }

  lemma IdsOfWaiting(t: Token, r: Route, log: map<MessageId, Event>)
    requires EventsOk(t, r, log)
    ensures IdsOf(r.events) == Waiting(t, r)
  {
    forall n: nat | n <= r.nextID < n + |r.events| ensures MessageId(t, n) in IdsOf(r.events) {
      assert r.events[n - (r.nextID - |r.events|) - 1].id == MessageId(t, n);
    }
  }

  // Accepted before, as they are logged, and not yet taken by anyone.
  ghost predicate FreshFrom(events: seq<Event>, s: State) {
    forall e :: e in events ==> e.id in s.log && s.log[e.id] == e && e.id !in s.delivered && e.id !in s.discarded
  }

  ghost predicate DistinctEvents(events: seq<Event>) {
    forall i, j :: 0 <= i < j < |events| ==> events[i].id != events[j].id
  }

  lemma RouteEventsAreFresh(s: State, t: Token)
    requires Inv(s) && t in s.routes
    ensures FreshFrom(s.routes[t].events, s) && DistinctEvents(s.routes[t].events)
    ensures IdsOf(s.routes[t].events) == Waiting(t, s.routes[t])
  {
    var events := s.routes[t].events;
    assert RouteOk(s, t);
    IdsOfWaiting(t, s.routes[t], s.log);
    forall e | e in events ensures e.id in s.log && s.log[e.id] == e && e.id !in s.delivered && e.id !in s.discarded {
      assert LogOk(s, e.id);
    }
  }

  /** The routes that have not expired. */
  function Live(routes: map<Token, Route>, now: int): map<Token, Route> {
    map t | t in routes && now < routes[t].expires :: routes[t]
  }

  // What is left when all but the remaining tokens have been looked at.
  ghost function Swept(routes: map<Token, Route>, remaining: set<Token>, now: int): map<Token, Route> {
    map t | t in routes && (t in remaining || now < routes[t].expires) :: routes[t]
  }

  lemma NothingSwept(routes: map<Token, Route>, now: int)
    ensures Swept(routes, routes.Keys, now) == routes && Swept(routes, {}, now) == Live(routes, now)
  {
  }

  lemma SweepOne(routes: map<Token, Route>, remaining: set<Token>, t: Token, now: int)
    requires t in remaining && remaining <= routes.Keys
    ensures t in Swept(routes, remaining, now) && Swept(routes, remaining, now)[t] == routes[t]
    ensures Swept(routes, remaining - {t}, now)
            == if now < routes[t].expires then Swept(routes, remaining, now) else Swept(routes, remaining, now) - {t}
  {
  }

  // The author and the identities of a thread never change or go away on a subscription.
  ghost predicate KeepsProvenance(before: map<string, Provenance>, after: map<string, Provenance>) {
    forall thread :: thread in before ==>
      thread in after && after[thread].author == before[thread].author && after[thread].ids == before[thread].ids
  }

  predicate Granted(routes: map<Token, Route>, threads: map<string, Provenance>, token: Token,
                    thread: string, session: string, expires: int) {
    && token in routes && routes[token].threadID == thread
    && routes[token].sessionID == session && routes[token].expires == expires
    && thread in threads && threads[thread].sessionID == session && threads[thread].author == routes[token].author
  }

  // The only route of the thread is the one with this token.
  ghost predicate ReusesRoute(routes: map<Token, Route>, thread: string, token: Option<Token>) {
    forall t :: t in routes && routes[t].threadID == thread ==> token == Some(t)
  }

  predicate HasRoute(routes: map<Token, Route>, thread: string) {
    exists t :: t in routes && routes[t].threadID == thread
  }

  // Every other route is as it was.
  ghost predicate OthersKeep(routes: map<Token, Route>, before: map<Token, Route>, token: Token) {
    forall t :: t != token ==> (t in routes <==> t in before) && (t in routes && t in before ==> routes[t] == before[t])
  }

  // Open, with the thread known or room for it, and a live route of it or room for a new one.
  predicate MayGrant(routes: map<Token, Route>, threads: map<string, Provenance>, closed: bool, thread: string,
                     random: Option<Token>) {
    && !closed && (thread in threads || |threads| < MAX_ROUTES)
    && (HasRoute(routes, thread) || (|routes| < MAX_ROUTES && random.Some?))
  }

  // The author's prefix alone is within the limit.
  predicate AuthorFits(author: string) {
    Size(author) <= MAX_PUBLICATION_BYTES && Size(Prefix(author)) <= MAX_PUBLICATION_BYTES
  }

  lemma RenewOne(s: State, thread: string, session: string, expires: int, token: Option<Token>)
    requires thread in s.threads && ReusesRoute(s.routes, thread, token)
    requires token.Some? ==> token.value in s.routes && s.routes[token.value].threadID == thread
    ensures Renewed(s, thread, session, expires).routes
            == if token.Some? then
                 s.routes[token.value := s.routes[token.value].(sessionID := session, expires := expires)]
               else s.routes
  {
  }

  lemma FreshLonger(events: seq<Event>, more: seq<Event>, start: State, now: State)
    requires FreshFrom(events, start) && FreshFrom(more, now) && DistinctEvents(events) && DistinctEvents(more)
    requires now.log == start.log && now.discarded == start.discarded
    requires now.delivered == start.delivered + IdsOf(events)
    ensures FreshFrom(events + more, start) && DistinctEvents(events + more)
    ensures IdsOf(events + more) == IdsOf(events) + IdsOf(more)
  {
    forall i, j | 0 <= i < j < |events + more| ensures (events + more)[i].id != (events + more)[j].id {
      if i < |events| <= j {
        assert (events + more)[i].id in IdsOf(events);
        assert (events + more)[j] in more;
      }
    }
    forall e | e in events + more ensures e in events || e in more {
    }
  }

  lemma NothingWaits(t: Token, r: Route)
    requires r.events == []
    ensures Waiting(t, r) == {}
  {
  }

  // The drained events are those that waited in the routes, and no others.
  ghost predicate TakenFrom(events: seq<Event>, s: State, tokens: set<Token>) {
    forall id: MessageId :: id in IdsOf(events) <==> (id.token in tokens && Pending(s, id))
  }

  ghost predicate DrainedRoutes(before: map<Token, Route>, after: map<Token, Route>, tokens: set<Token>) {
    forall t ::
      if t in tokens then t in after ==> after[t].events == []
      else (t in after <==> t in before) && (t in before ==> after[t] == before[t])
  }

  lemma TakenLonger(events: seq<Event>, more: seq<Event>, s: State, t: Token, tokens: set<Token>)
    requires TakenFrom(events, s, tokens) && t in s.routes && RouteOk(s, t) && more == s.routes[t].events
    ensures TakenFrom(events + more, s, tokens + {t})
  {
    IdsOfWaiting(t, s.routes[t], s.log);
    forall id ensures id in IdsOf(events + more) <==> (id.token in tokens + {t} && Pending(s, id)) {
      WaitingIsPending(s, t, id.n);
      assert id in IdsOf(events + more) <==> id in IdsOf(events) || id in IdsOf(more) by {
        assert IdsOf(events + more) == IdsOf(events) + IdsOf(more);
      }
    }
  }

  function ForSession(routes: map<Token, Route>, session: string, thread: string): set<Token> {
    set t | t in routes && routes[t].sessionID == session && (routes[t].threadID == "" || routes[t].threadID == thread)
  }

  function ForThread(routes: map<Token, Route>, session: string, thread: string): set<Token> {
    set t | t in routes && routes[t].threadID != "" && routes[t].threadID == thread && routes[t].sessionID == session
  }

  // What waits in routes that are still there is the same.
  lemma StillPending(before: State, after: State, tokens: set<Token>)
    requires tokens <= after.routes.Keys && forall t :: t in after.routes ==>
      t in before.routes && after.routes[t] == before.routes[t]
    ensures forall id: MessageId :: id.token in tokens ==> (Pending(after, id) <==> Pending(before, id))
  {
  }

  function WithEvent(events: seq<Event>, more: Option<Event>): seq<Event> {
    if more.Some? then events + [more.value] else events
  }

  // What has been drained so far.
  ghost predicate Draining(start: State, now: State, events: seq<Event>, done: set<Token>) {
    && now.log == start.log && now.discarded == start.discarded && now.delivered == start.delivered + IdsOf(events)
    && FreshFrom(events, start) && DistinctEvents(events)
    && TakenFrom(events, start, done) && DrainedRoutes(start.routes, now.routes, done)
  }

  lemma OneLess(tokens: set<Token>, remaining: set<Token>, t: Token)
    requires t in remaining && remaining <= tokens
    ensures tokens - remaining + {t} == tokens - (remaining - {t})
  {
  }

  lemma NoneAndAll(tokens: set<Token>)
    ensures tokens - tokens == {} && tokens - {} == tokens
  {
  }

  lemma NothingDrained(s: State)
    ensures Draining(s, s, [], {})
  {
    assert IdsOf([]) == {};
  }

  lemma DrainOneMore(start: State, now: State, t: Token, events: seq<Event>, more: seq<Event>, done: set<Token>)
    requires Draining(start, now, events, done) && Inv(start) && Inv(now) && t in start.routes && t !in done
    requires t in now.routes && more == now.routes[t].events
    ensures Draining(start, Drained(now, t), events + more, done + {t})
  {
    assert now.routes[t] == start.routes[t] && RouteOk(start, t);
    RouteEventsAreFresh(now, t);
    FreshLonger(events, more, start, now);
    TakenLonger(events, more, start, t, done);
    DrainedOneMore(start.routes, now, t, done);
  }

  lemma DrainedOneMore(before: map<Token, Route>, now: State, t: Token, done: set<Token>)
    requires DrainedRoutes(before, now.routes, done) && t in now.routes && t !in done
    ensures DrainedRoutes(before, Drained(now, t).routes, done + {t})
  {
  }

  class CommentaryBroker {
    var routes: map<Token, Route>
    var threads: map<string, Provenance>
    var eventCount: int
    var threadIDCount: int
    var closed: bool
    ghost var owner: map<Token, string>
    ghost var log: map<MessageId, Event>
    ghost var delivered: set<MessageId>
    ghost var discarded: set<MessageId>

    ghost function View(): State
      reads this
    {
      State(routes, threads, eventCount, threadIDCount, closed, owner, log, delivered, discarded)
    }

    ghost predicate Valid()
      reads this
    {
      Inv(View())
    }

    constructor ()
      ensures Valid() && View() == EMPTY
    {
      routes, threads, eventCount, threadIDCount, closed := map[], map[], 0, 0, false;
      owner, log, delivered, discarded := map[], map[], {}, {};
      new;
      assert EventCounts(routes) == map[] && IdCounts(threads) == map[];
    }

    method Retire(token: Token)
      requires Valid() && token in routes
      modifies this`routes, this`eventCount, this`discarded
      ensures Valid() && View() == Retired(old(View()), token)
    {
      RetireKeeps(View(), token);
      discarded := discarded + Waiting(token, routes[token]);
      eventCount := eventCount - |routes[token].events|;
      routes := routes - {token};
    }

    /** cleanupExpiredLocked: what waits in expired routes is discarded. */
    method CleanupExpired(now: int)
      requires Valid()
      modifies this`routes, this`eventCount, this`discarded
      ensures Valid() && discarded >= old(discarded)
      ensures routes == Live(old(routes), now)
    {
      ghost var before := routes;
      var remaining := routes.Keys;
      NothingSwept(before, now);
      while remaining != {}
        invariant Valid() && discarded >= old(discarded)
        invariant remaining <= before.Keys && routes == Swept(before, remaining, now)
        decreases |remaining|
      {
        var token :| token in remaining;
        SweepOne(before, remaining, token, now);
        if now >= routes[token].expires {
          Retire(token);
        }
        remaining := remaining - {token};
      }
    }

    /** cancel */
    method Cancel(token: Token)
      requires Valid()
      modifies this`routes, this`eventCount, this`discarded
      ensures Valid() && token !in routes && routes == old(routes) - {token}
      ensures View() == if token in old(routes) then Retired(old(View()), token) else old(View())
    {
      if token in routes {
        Retire(token);
      }
    }

    /** close: nothing is delivered afterwards. */
    method Close()
      requires Valid()
      modifies this
      ensures Valid() && View() == Closed(old(View())) && discarded >= old(discarded)
    {
      CloseKeeps(View());
      discarded := log.Keys - delivered;
      closed := true;
      routes, threads := map[], map[];
      threadIDCount, eventCount := 0, 0;
    }

    /** drainLocked: what waits is handed over, exactly once. */
    method DrainLocked(token: Token) returns (events: seq<Event>)
      requires Valid()
      modifies this`routes, this`eventCount, this`delivered
      ensures Valid() && View() == if token in old(routes) then Drained(old(View()), token) else old(View())
      ensures events == if token in old(routes) then old(routes)[token].events else []
      ensures FreshFrom(events, old(View())) && DistinctEvents(events) && delivered == old(delivered) + IdsOf(events)
    {
      if token !in routes {
        return [];
      }
      DrainKeeps(View(), token);
      RouteEventsAreFresh(View(), token);
      events := routes[token].events;
      TakeEvents(token);
    }

    // The fields that a drain changes.
    method TakeEvents(token: Token)
      requires token in routes
      modifies this`routes, this`eventCount, this`delivered
      ensures View() == Drained(old(View()), token)
    {
      var route := routes[token];
      delivered := delivered + Waiting(token, route);
      eventCount := eventCount - |route.events|;
      routes := routes[token := route.(events := [])];
      if route.complete {
        routes := routes - {token};
        assert routes == old(routes) - {token};
      }
    }

    /** drain */
    method Drain(token: Token, now: int) returns (events: seq<Event>)
      requires Valid()
      modifies this`routes, this`eventCount, this`delivered, this`discarded
      ensures Valid()
      ensures events
              == if token in old(routes) && now < old(routes)[token].expires then old(routes)[token].events else []
      ensures FreshFrom(events, old(View())) && DistinctEvents(events) && delivered == old(delivered) + IdsOf(events)
    {
      CleanupExpired(now);
      events := DrainLocked(token);
    }

    /** subscribe: a new token for a route without a thread. */
    method Subscribe(session: string, call: string, author: string, now: int, random: Option<Token>)
        returns (token: Option<Token>)
      requires Valid() && (random.Some? ==> random.value !in owner)
      modifies this
      ensures Valid() && log == old(log) && delivered == old(delivered) && threads == old(threads)
      ensures discarded >= old(discarded)
      ensures token.None? ==> routes == Live(old(routes), now) || View() == old(View())
      ensures token.Some? <==>
        AuthorFits(author) && !old(closed) && |Live(old(routes), now)| < MAX_ROUTES && random.Some?
      ensures token.Some? ==> token == random
      ensures token.Some? ==>
        routes
        == Live(old(routes), now)[token.value := Route("", author, "", session, call, now + ROUTE_TTL, 0, [], false)]
    {
      PrefixSize(author);
      if Size(author) > MAX_PUBLICATION_BYTES || Size(Code(author)) + 3 > MAX_PUBLICATION_BYTES {
        return None;
      }
      CleanupExpired(now);
      if closed || |routes| >= MAX_ROUTES || random.None? {
        return None;
      }
      AddRoute(random.value, Route("", author, "", session, call, now + ROUTE_TTL, 0, [], false));
      token := random;
    }

    method AddRoute(token: Token, route: Route)
      requires Valid() && MaySubscribe(View(), token, route)
      modifies this`routes, this`owner
      ensures Valid() && View() == Subscribed(old(View()), token, route)
    {
      SubscribeKeeps(View(), token, route);
      routes := routes[token := route];
      owner := owner[token := route.threadID];
    }

    // The live route of a thread, if it has one.
    method FindRoute(thread: string) returns (token: Option<Token>)
      requires Valid() && thread != ""
      ensures token.Some? ==> token.value in routes && routes[token.value].threadID == thread
      ensures ReusesRoute(routes, thread, token)
    {
      var remaining := routes.Keys;
      while remaining != {}
        invariant remaining <= routes.Keys
        invariant forall t :: t in routes && t !in remaining ==> routes[t].threadID != thread
        decreases |remaining|
      {
        var t :| t in remaining;
        if routes[t].threadID == thread {
          forall u | u in routes && routes[u].threadID == thread ensures u == t {
            assert OnePerThread(View(), t, u);
          }
          return Some(t);
        }
        remaining := remaining - {t};
      }
      token := None;
    }

    /** subscribeThread: a thread has one route, its first author for good, and the
        session it asked with last. */
    method SubscribeThread(session: string, thread: string, author: string, now: int, random: Option<Token>)
        returns (token: Option<Token>)
      requires Valid() && (random.Some? ==> random.value !in owner)
      modifies this
      ensures Valid() && log == old(log) && delivered == old(delivered) && discarded >= old(discarded)
      ensures KeepsProvenance(old(threads), threads)
      ensures token.Some? ==> Granted(routes, threads, token.value, thread, session, now + ROUTE_TTL)
      ensures token.Some? ==> ReusesRoute(Live(old(routes), now), thread, token)
      ensures token.Some? ==> OthersKeep(routes, Live(old(routes), now), token.value)
      ensures token.Some? <==>
        && session != "" && thread != "" && AuthorFits(author)
        && MayGrant(Live(old(routes), now), old(threads), old(closed), thread, random)
      ensures token.Some? && !HasRoute(Live(old(routes), now), thread) ==> token == random
    {
      PrefixSize(author);
      if session == "" || thread == "" || Size(author) > MAX_PUBLICATION_BYTES
          || Size(Code(author)) + 3 > MAX_PUBLICATION_BYTES {
        return None;
      }
      CleanupExpired(now);
      token := SubscribeLive(session, thread, author, now + ROUTE_TTL, random);
    }

    // subscribeThread once expired routes are gone.
    method SubscribeLive(session: string, thread: string, author: string, expires: int, random: Option<Token>)
        returns (token: Option<Token>)
      requires Valid() && thread != "" && (random.Some? ==> random.value !in owner)
      modifies this`routes, this`threads, this`owner
      ensures Valid() && KeepsProvenance(old(threads), threads)
      ensures token.Some? ==> Granted(routes, threads, token.value, thread, session, expires)
      ensures token.Some? ==> ReusesRoute(old(routes), thread, token) && OthersKeep(routes, old(routes), token.value)
      ensures token.Some? <==> MayGrant(old(routes), old(threads), closed, thread, random)
      ensures token.Some? && !HasRoute(old(routes), thread) ==> token == random
    {
      if closed {
        return None;
      }
      var known := EnsureThread(thread, author);
      if known {
        token := GrantThread(session, thread, expires, random);
      } else {
        token := None;
      }
    }

    method EnsureThread(thread: string, author: string) returns (known: bool)
      requires Valid() && !closed && thread != ""
      modifies this`threads
      ensures Valid() && KeepsProvenance(old(threads), threads) && (known <==> thread in threads)
      ensures known <==> thread in old(threads) || |old(threads)| < MAX_ROUTES
    {
      if thread !in threads {
        if |threads| >= MAX_ROUTES {
          return false;
        }
        Introduce(thread, author);
      }
      known := true;
    }

    // The live route of the thread, or a new one.
    method GrantThread(session: string, thread: string, expires: int,
                       random: Option<Token>) returns (token: Option<Token>)
      requires Valid() && !closed && thread in threads && thread != "" && (random.Some? ==> random.value !in owner)
      modifies this`routes, this`threads, this`owner
      ensures Valid() && KeepsProvenance(old(threads), threads)
      ensures token.Some? ==> Granted(routes, threads, token.value, thread, session, expires)
      ensures token.Some? ==> ReusesRoute(old(routes), thread, token) && OthersKeep(routes, old(routes), token.value)
      ensures token.Some? <==> HasRoute(old(routes), thread) || (|old(routes)| < MAX_ROUTES && random.Some?)
      ensures token.Some? && !HasRoute(old(routes), thread) ==> token == random
    {
      token := FindRoute(thread);
      Renew(thread, session, expires, token);
      if token.None? && |routes| < MAX_ROUTES && random.Some? {
        AddThreadRoute(random.value, session, thread, expires);
        token := random;
      }
    }

    method AddThreadRoute(token: Token, session: string, thread: string, expires: int)
      requires Valid() && token !in owner && !closed && |routes| < MAX_ROUTES && thread != ""
      requires thread in threads && threads[thread].sessionID == session
      requires forall t :: t in routes ==> routes[t].threadID != thread
      modifies this`routes, this`owner
      ensures Valid() && Granted(routes, threads, token, thread, session, expires)
      ensures OthersKeep(routes, old(routes), token)
    {
      AddRoute(token, Route(thread, threads[thread].author, thread, session, "", expires, 0, [], false));
    }

    method Introduce(thread: string, author: string)
      requires Valid() && thread !in threads && thread != "" && !closed && |threads| < MAX_ROUTES
      modifies this`threads
      ensures Valid() && View() == Introduced(old(View()), thread, Provenance(author, "", {}))
    {
      IntroduceKeeps(View(), thread, Provenance(author, "", {}));
      threads := threads[thread := Provenance(author, "", {})];
    }

    // The provenance first, then the route that was found.
    method Renew(thread: string, session: string, expires: int, token: Option<Token>)
      requires Valid() && thread in threads && thread != ""
      requires token.Some? ==> token.value in routes && routes[token.value].threadID == thread
      requires ReusesRoute(routes, thread, token)
      modifies this`threads, this`routes
      ensures Valid() && View() == Renewed(old(View()), thread, session, expires)
      ensures token.Some? ==> Granted(routes, threads, token.value, thread, session, expires)
      ensures routes.Keys == old(routes.Keys) && KeepsProvenance(old(threads), threads)
      ensures token.Some? ==> OthersKeep(routes, old(routes), token.value)
      ensures token.None? ==> routes == old(routes)
    {
      ghost var before := View();
      assert token.Some? ==> RouteOk(before, token.value);
      RenewKeeps(before, thread, session, expires);
      RenewOne(before, thread, session, expires, token);
      SetSession(thread, session, expires, token);
    }

    // The fields that a renewal changes.
    method SetSession(thread: string, session: string, expires: int, token: Option<Token>)
      requires thread in threads && (token.Some? ==> token.value in routes)
      modifies this`threads, this`routes
      ensures threads == old(threads)[thread := old(threads)[thread].(sessionID := session)]
      ensures routes
              == if token.Some? then
                   old(routes)[token.value := old(routes)[token.value].(sessionID := session, expires := expires)]
                 else old(routes)
    {
      threads := threads[thread := threads[thread].(sessionID := session)];
      if token.Some? {
        routes := routes[token.value := routes[token.value].(sessionID := session, expires := expires)];
      }
    }

    method Touch(token: Token, route: Route)
      requires Valid() && token in routes && SameEvents(route, routes[token])
      modifies this`routes
      ensures Valid() && View() == Touched(old(View()), token, route)
    {
      TouchKeeps(View(), token, route);
      routes := routes[token := route];
    }

    method Accept(token: Token, event: Event)
      requires Valid() && MayAccept(View(), token, event)
      modifies this`routes, this`threads, this`threadIDCount, this`eventCount, this`log
      ensures Valid() && View() == Accepted(old(View()), token, event)
    {
      AcceptKeeps(View(), token, event);
      Store(token, event);
    }

    // The fields that an accepted event changes.
    method Store(token: Token, event: Event)
      requires token in routes
      modifies this`routes, this`threads, this`threadIDCount, this`eventCount, this`log
      ensures View() == Accepted(old(View()), token, event)
    {
      var route := routes[token];
      if route.threadID != "" {
        threads := WithId(threads, route.threadID, event.id);
        threadIDCount := threadIDCount + 1;
      }
      routes := routes[token := Grown(route, event)];
      eventCount := eventCount + 1;
      log := log[event.id := event];
    }

    // A call's route that was told to complete goes away once nothing waits in it.
    method CompleteRoute(token: Token, complete: bool)
      requires Valid() && token in routes
      modifies this`routes, this`eventCount, this`discarded
      ensures Valid() && discarded == old(discarded)
      ensures var r := old(routes)[token];
        routes == if complete && r.events == [] then old(routes) - {token}
                  else old(routes)[token := r.(complete := r.complete || complete)]
    {
      if complete && |routes[token].events| == 0 {
        NothingWaits(token, routes[token]);
        Retire(token);
      } else {
        Touch(token, routes[token].(complete := routes[token].complete || complete));
      }
    }

    /** publish: an event is accepted exactly when its route is live, it is not blank, its
        rendered text fits, and route, thread and broker have room for it. */
    method Publish(token: Token, text: string, complete: bool, now: int) returns (known: bool,
                   ghost accepted: Option<Event>)
      requires Valid()
      modifies this
      ensures Valid() && delivered == old(delivered) && discarded >= old(discarded)
      ensures known <==> token in Live(old(routes), now)
      ensures known ==>
        if complete && old(routes)[token].threadID == "" && WithEvent(old(routes)[token].events, accepted) == [] then
          token !in routes
        else token in routes && routes[token].events == WithEvent(old(routes)[token].events, accepted)
      ensures accepted.Some? <==>
        known && IsAcceptable(old(routes)[token], text, Total(EventCounts(Live(old(routes), now))), old(threadIDCount))
      ensures log == if accepted.Some? then old(log)[accepted.value.id := accepted.value] else old(log)
      ensures accepted.Some? ==> accepted.value.id !in old(log)
      ensures accepted.Some? ==> accepted.value.text == Attributed(old(routes)[token].author, text)
      ensures accepted.Some? && old(routes)[token].threadID != "" ==>
        old(routes)[token].threadID in threads && accepted.value.id in threads[old(routes)[token].threadID].ids
    {
      CleanupExpired(now);
      if token !in routes {
        return false, None;
      }
      known := true;
      accepted := PublishTo(token, text, now + ROUTE_TTL);
      // Workers of a thread share its route, so none of them completes it.
      CompleteRoute(token, complete && routes[token].threadID == "");
    }

    method PublishTo(token: Token, text: string, expires: int) returns (ghost accepted: Option<Event>)
      requires Valid() && token in routes
      modifies this`routes, this`threads, this`threadIDCount, this`eventCount, this`log
      ensures Valid() && token in routes
      ensures routes[token].events == WithEvent(old(routes)[token].events, accepted)
      ensures routes[token].threadID == old(routes)[token].threadID && routes[token].author == old(routes)[token].author
      ensures accepted.Some? <==> IsAcceptable(old(routes)[token], text, old(eventCount), old(threadIDCount))
      ensures log == if accepted.Some? then old(log)[accepted.value.id := accepted.value] else old(log)
      ensures accepted.Some? ==> accepted.value.id !in old(log)
      ensures accepted.Some? && routes[token].threadID != "" ==>
        routes[token].threadID in threads && accepted.value.id in threads[routes[token].threadID].ids
      ensures accepted.Some? ==> accepted.value.text == Attributed(routes[token].author, text)
    {
      Touch(token, routes[token].(expires := expires));
      var route := routes[token];
      assert RouteOk(View(), token);
      FitsIffRendered(route.author, text);
      accepted := None;
      if !Blank(text) && RenderedFits(route.author, text) && HasCapacity(route, eventCount, threadIDCount) {
        var event := Event(route.callID, MessageId(token, route.nextID + 1), Attributed(route.author, text));
        Accept(token, event);
        accepted := Some(event);
      }
    }

    method DrainNext(token: Token, before: seq<Event>, ghost start: State,
                     ghost done: set<Token>) returns (events: seq<Event>)
      requires Valid() && Inv(start) && token in start.routes && token !in done && Draining(start, View(), before, done)
      modifies this`routes, this`eventCount, this`delivered
      ensures Valid() && Draining(start, View(), events, done + {token})
    {
      ghost var now := View();
      assert token in routes;
      var more := DrainLocked(token);
      DrainOneMore(start, now, token, before, more, done);
      events := before + more;
    }

    method DrainTokens(tokens: set<Token>) returns (events: seq<Event>)
      requires Valid() && tokens <= routes.Keys
      modifies this`routes, this`eventCount, this`delivered
      ensures Valid() && Draining(old(View()), View(), events, tokens)
    {
      ghost var start := View();
      events := [];
      NothingDrained(start);
      NoneAndAll(tokens);
      var remaining := tokens;
      while remaining != {}
        invariant Valid() && remaining <= tokens && Draining(start, View(), events, tokens - remaining)
        decreases |remaining|
      {
        var token :| token in remaining;
        OneLess(tokens, remaining, token);
        events := DrainNext(token, events, start, tokens - remaining);
        remaining := remaining - {token};
      }
    }

    /** drainSession: everything that waits for the session, in call routes and in the
        routes of the thread. */
    method DrainSession(session: string, thread: string, now: int) returns (events: seq<Event>)
      requires Valid()
      modifies this`routes, this`eventCount, this`delivered, this`discarded
      ensures Valid() && FreshFrom(events, old(View())) && DistinctEvents(events)
      ensures delivered == old(delivered) + IdsOf(events)
      ensures TakenFrom(events, old(View()), ForSession(Live(old(routes), now), session, thread))
      ensures DrainedRoutes(Live(old(routes), now), routes, ForSession(Live(old(routes), now), session, thread))
    {
      CleanupExpired(now);
      StillPending(old(View()), View(), ForSession(routes, session, thread));
      events := DrainTokens(ForSession(routes, session, thread));
    }

    /** drainThreadSession */
    method DrainThreadSession(session: string, thread: string, now: int) returns (events: seq<Event>)
      requires Valid()
      modifies this`routes, this`eventCount, this`delivered, this`discarded
      ensures Valid() && FreshFrom(events, old(View())) && DistinctEvents(events)
      ensures delivered == old(delivered) + IdsOf(events)
      ensures TakenFrom(events, old(View()), ForThread(Live(old(routes), now), session, thread))
      ensures DrainedRoutes(Live(old(routes), now), routes, ForThread(Live(old(routes), now), session, thread))
    {
      CleanupExpired(now);
      StillPending(old(View()), View(), ForThread(routes, session, thread));
      events := DrainTokens(ForThread(routes, session, thread));
    }

    /** bindActivity */
    method BindActivity(token: Token, thread: string)
      requires Valid()
      modifies this`routes
      ensures Valid() && routes.Keys == old(routes.Keys)
      ensures forall t :: t in routes && (t != token || old(routes)[t].originThread != "") ==>
        routes[t] == old(routes)[t]
      ensures token in routes && old(routes)[token].originThread == "" ==>
        routes[token] == old(routes)[token].(originThread := thread)
    {
      if token in routes && routes[token].originThread == "" {
        TouchKeeps(View(), token, routes[token].(originThread := thread));
        routes := routes[token := routes[token].(originThread := thread)];
      }
    }

    /** hasThreadMessageID: every identity ever accepted for the thread, whatever became
        of its route and sessions. */
    method HasThreadMessageID(thread: string, id: MessageId) returns (has: bool)
      requires Valid()
      ensures has <==> thread in threads && id in log && id.token in owner && owner[id.token] == thread
    {
      assert ThreadOk(View(), thread);
      has := thread in threads && id in threads[thread].ids;
    }
  }
}

/** The large-piece tokenizer of plugins/tokens.ts: pieces are linked byte
    offsets, pair ranks wait in a heap, and a heap entry is stale when the rank
    recorded for its offset has changed since it was pushed. */
module LongPiece {
  import opened Wrappers
  import opened BytePairs
  import BinaryHeap

  const MAX_TOKEN_BYTES: nat := 128
  const ABSENT: nat := 0xffff_ffff

  // Ranks fit beside the sentinel, and no token is longer than the bound used to skip lookups.
  ghost predicate UsableRanks(ranks: Ranks) {
    forall b :: b in ranks ==> |b| <= MAX_TOKEN_BYTES && ranks[b] < ABSENT
  }

  // ---- A partition of the text by the start offsets of its pieces ----------

  ghost predicate IsPartition(starts: seq<nat>, n: nat) {
    && (n == 0 <==> starts == [])
    && (n > 0 ==> starts[0] == 0)
    && (forall i, j :: 0 <= i < j < |starts| ==> starts[i] < starts[j])
    && (forall i :: 0 <= i < |starts| ==> starts[i] < n)
  }

  ghost function End(starts: seq<nat>, n: nat, k: nat): nat
    requires k < |starts|
  {
    if k + 1 < |starts| then starts[k + 1] else n
  }

  ghost function Pieces(bytes: Bytes, starts: seq<nat>): (pieces: seq<Bytes>)
    requires IsPartition(starts, |bytes|)
    ensures |pieces| == |starts|
  {
    seq(|starts|, k requires 0 <= k < |starts| => bytes[starts[k]..End(starts, |bytes|, k)])
  }

  // The rank of the pair that starts at piece `k`, or ABSENT.
  ghost function SlotRank(ranks: Ranks, bytes: Bytes, starts: seq<nat>, k: nat): nat
    requires IsPartition(starts, |bytes|) && k < |starts|
  {
    if k + 1 == |starts| then ABSENT else
    var pair := bytes[starts[k]..End(starts, |bytes|, k + 1)];
    if pair in ranks then ranks[pair] else ABSENT
  }

  lemma SlotIsPairRank(ranks: Ranks, bytes: Bytes, starts: seq<nat>, k: nat)
    requires UsableRanks(ranks) && IsPartition(starts, |bytes|) && k + 1 < |starts|
    ensures SlotRank(ranks, bytes, starts, k)
            == match PairRank(ranks, Pieces(bytes, starts), k) case None => ABSENT case Some(rank) => rank
  {
    var pieces := Pieces(bytes, starts);
    assert pieces[k] + pieces[k + 1] == bytes[starts[k]..End(starts, |bytes|, k + 1)];
  }

  ghost function Joined(starts: seq<nat>, i: nat): seq<nat>
    requires i + 1 < |starts|
  {
    starts[..i + 1] + starts[i + 2..]
  }

  // Where piece `k` of the joined partition was before.
  ghost function Before(i: nat, k: nat): nat {
    if k <= i then k else k + 1
  }

  lemma JoinedAt(starts: seq<nat>, n: nat, i: nat, k: nat)
    requires i + 1 < |starts| && k + 1 < |starts|
    ensures Joined(starts, i)[k] == starts[Before(i, k)]
    ensures End(Joined(starts, i), n, k) == End(starts, n, if k < i then k else k + 1)
  {
  }

  lemma JoinedIsPartition(starts: seq<nat>, n: nat, i: nat)
    requires IsPartition(starts, n) && i + 1 < |starts|
    ensures IsPartition(Joined(starts, i), n)
  {
  }

  lemma JoinedPiece(bytes: Bytes, starts: seq<nat>, i: nat, k: nat)
    requires IsPartition(starts, |bytes|) && i + 1 < |starts| && k + 1 < |starts|
    requires IsPartition(Joined(starts, i), |bytes|)
    ensures Pieces(bytes, Joined(starts, i))[k] == MergeAt(Pieces(bytes, starts), i)[k]
  {
    JoinedAt(starts, |bytes|, i, k);
    var pieces := Pieces(bytes, starts);
    if k == i {
      assert pieces[i] + pieces[i + 1] == bytes[starts[i]..End(starts, |bytes|, i + 1)];
    }
  }

  lemma JoinedIsMerge(bytes: Bytes, starts: seq<nat>, i: nat)
    requires IsPartition(starts, |bytes|) && i + 1 < |starts|
    ensures IsPartition(Joined(starts, i), |bytes|)
    ensures Pieces(bytes, Joined(starts, i)) == MergeAt(Pieces(bytes, starts), i)
  {
    JoinedIsPartition(starts, |bytes|, i);
    forall k: nat | k + 1 < |starts|
      ensures Pieces(bytes, Joined(starts, i))[k] == MergeAt(Pieces(bytes, starts), i)[k]
    {
      JoinedPiece(bytes, starts, i, k);
    }
  }

  // ---- The linked offsets, the recorded ranks and the heap -----------------

  ghost predicate LinkedAt(next: seq<nat>, previous: seq<int>, starts: seq<nat>, n: nat, k: nat)
    requires IsPartition(starts, n) && |next| == |previous| == n && k < |starts|
  {
    && next[starts[k]] == End(starts, n, k)
    && previous[starts[k]] == if k == 0 then -1 else starts[k - 1]
  }

  ghost predicate Linked(next: seq<nat>, previous: seq<int>, starts: seq<nat>, n: nat) {
    && IsPartition(starts, n) && |next| == |previous| == n
    && (forall k: nat :: k < |starts| ==> LinkedAt(next, previous, starts, n, k))
  }

  ghost predicate RecordedAt(ranks: Ranks, bytes: Bytes, starts: seq<nat>, pending: seq<nat>, k: nat)
    requires IsPartition(starts, |bytes|) && |pending| == |bytes| && k < |starts|
  {
    pending[starts[k]] == SlotRank(ranks, bytes, starts, k)
  }

  // Offsets inside a piece record nothing; every piece but those in `stale` records its pair.
  ghost predicate Recorded(ranks: Ranks, bytes: Bytes, starts: seq<nat>, pending: seq<nat>, stale: set<int>) {
    && IsPartition(starts, |bytes|) && |pending| == |bytes|
    && (forall k: nat :: k < |starts| && k !in stale ==> RecordedAt(ranks, bytes, starts, pending, k))
    && (forall o :: 0 <= o < |pending| && o !in starts ==> pending[o] == ABSENT)
  }

  function Key(rank: nat, offset: nat, stride: nat): nat {
    rank * stride + offset
  }

  lemma AtLeastOnce(times: int, stride: nat)
    requires times >= 1
    ensures times * stride >= stride
  {
  }

  lemma KeyGap(rank: nat, rank': nat, stride: nat)
    ensures rank > rank' ==> rank * stride >= rank' * stride + stride
  {
    if rank > rank' {
      AtLeastOnce(rank - rank', stride);
      assert (rank - rank') * stride == rank * stride - rank' * stride;
    }
  }

  lemma KeyOrder(rank: nat, offset: nat, rank': nat, offset': nat, stride: nat)
    requires offset < stride && offset' < stride
    requires rank * stride + offset <= rank' * stride + offset'
    ensures rank < rank' || (rank == rank' && offset <= offset')
  {
    KeyGap(rank, rank', stride);
  }

  lemma KeyParts(rank: nat, offset: nat, stride: nat)
    requires offset < stride
    ensures Key(rank, offset, stride) / stride == rank
    ensures Key(rank, offset, stride) % stride == offset
  {
    var key := Key(rank, offset, stride);
    KeyOrder(rank, offset, key / stride, key % stride, stride);
    KeyOrder(key / stride, key % stride, rank, offset, stride);
  }

  // Every recorded rank, except the one at `missing`, has its key in the heap.
  ghost predicate Covered(heap: seq<nat>, pending: seq<nat>, missing: int) {
    forall o :: 0 <= o < |pending| && o != missing && pending[o] != ABSENT ==>
      Key(pending[o], o, |pending| + 1) in heap
  }

  ghost predicate KeysInRange(heap: seq<nat>, n: nat) {
    forall key :: key in heap ==> key / (n + 1) < ABSENT && key % (n + 1) < n
  }

  lemma PushedKeys(heap: seq<nat>, grown: seq<nat>, rank: nat, offset: nat, n: nat)
    requires KeysInRange(heap, n) && rank < ABSENT && offset < n
    requires multiset(grown) == multiset(heap) + multiset{Key(rank, offset, n + 1)}
    ensures KeysInRange(grown, n)
    ensures Key(rank, offset, n + 1) in grown && forall key :: key in heap ==> key in grown
  {
    KeyParts(rank, offset, n + 1);
    assert Key(rank, offset, n + 1) in multiset(grown);
    forall key | key in grown ensures key in heap || key == Key(rank, offset, n + 1) {
      assert key in multiset(grown);
    }
    forall key | key in heap ensures key in grown {
      assert key in multiset(heap);
      assert key in multiset(grown);
    }
  }

  lemma MergeLinks(next: seq<nat>, previous: seq<int>, starts: seq<nat>, n: nat, i: nat, next': seq<nat>,
                   previous': seq<int>)
    requires Linked(next, previous, starts, n) && i + 1 < |starts|
    requires next' == next[starts[i] := next[starts[i + 1]]]
    requires previous' == if next'[starts[i]] < n then previous[next'[starts[i]] := starts[i]] else previous
    ensures Linked(next', previous', Joined(starts, i), n)
  {
    var joined := Joined(starts, i);
    JoinedIsPartition(starts, n, i);
    assert LinkedAt(next, previous, starts, n, i) && LinkedAt(next, previous, starts, n, i + 1);
    forall k: nat | k < |joined| ensures LinkedAt(next', previous', joined, n, k) {
      JoinedAt(starts, n, i, k);
      assert LinkedAt(next, previous, starts, n, Before(i, k));
    }
  }

  // The link of a piece leads to the next one.
  lemma NextStart(next: seq<nat>, previous: seq<int>, starts: seq<nat>, n: nat, i: nat)
    requires Linked(next, previous, starts, n) && i + 1 < |starts|
    ensures starts[i] < n && starts[i + 1] < n && next[starts[i]] == starts[i + 1]
  {
    assert LinkedAt(next, previous, starts, n, i) && LinkedAt(next, previous, starts, n, i + 1);
  }

  lemma UnlinkedMerges(next: seq<nat>, previous: seq<int>, starts: seq<nat>, n: nat, i: nat, next': seq<nat>,
                       previous': seq<int>)
    requires Linked(next, previous, starts, n) && i + 1 < |starts| && starts[i] < n && next[starts[i]] < n
    requires next' == next[starts[i] := next[next[starts[i]]]]
    requires previous' == if next[next[starts[i]]] < n then previous[next[next[starts[i]]] := starts[i]] else previous
    ensures Linked(next', previous', Joined(starts, i), n)
  {
    NextStart(next, previous, starts, n, i);
    MergeLinks(next, previous, starts, n, i, next', previous');
  }

  lemma MergeSlot(ranks: Ranks, bytes: Bytes, starts: seq<nat>, i: nat, k: nat)
    requires IsPartition(starts, |bytes|) && i + 1 < |starts| && k + 1 < |starts| && k != i && k != i - 1
    ensures IsPartition(Joined(starts, i), |bytes|)
    ensures SlotRank(ranks, bytes, Joined(starts, i), k) == SlotRank(ranks, bytes, starts, Before(i, k))
  {
    JoinedIsPartition(starts, |bytes|, i);
    JoinedAt(starts, |bytes|, i, k);
    if k + 2 < |starts| {
      JoinedAt(starts, |bytes|, i, k + 1);
    }
  }

  lemma JoinedMembers(starts: seq<nat>, i: nat, o: nat)
    requires i + 1 < |starts| && o in starts && o != starts[i + 1]
    ensures o in Joined(starts, i)
  {
    var k :| 0 <= k < |starts| && starts[k] == o;
    assert Joined(starts, i)[if k <= i then k else k - 1] == o;
  }

  lemma MergeRecords(ranks: Ranks, bytes: Bytes, starts: seq<nat>, pending: seq<nat>, i: nat)
    requires Recorded(ranks, bytes, starts, pending, {}) && i + 1 < |starts|
    ensures Recorded(ranks, bytes, Joined(starts, i), pending[starts[i + 1] := ABSENT], {i - 1, i})
  {
    var joined, cleared := Joined(starts, i), pending[starts[i + 1] := ABSENT];
    JoinedIsPartition(starts, |bytes|, i);
    forall o | 0 <= o < |cleared| && o !in joined ensures cleared[o] == ABSENT {
      if o in starts && o != starts[i + 1] {
        JoinedMembers(starts, i, o);
      }
    }
    forall k: nat | k < |joined| && k !in {i - 1, i} ensures RecordedAt(ranks, bytes, joined, cleared, k) {
      MergeSlot(ranks, bytes, starts, i, k);
      JoinedAt(starts, |bytes|, i, k);
      assert RecordedAt(ranks, bytes, starts, pending, Before(i, k));
    }
  }

  lemma LiveSlot(ranks: Ranks, bytes: Bytes, starts: seq<nat>, pending: seq<nat>, left: nat) returns (i: nat)
    requires UsableRanks(ranks) && Recorded(ranks, bytes, starts, pending, {})
    requires left < |pending| && pending[left] != ABSENT
    ensures i + 1 < |starts| && starts[i] == left
    ensures PairRank(ranks, Pieces(bytes, starts), i) == Some(pending[left])
  {
    i :| 0 <= i < |starts| && starts[i] == left;
    assert RecordedAt(ranks, bytes, starts, pending, i);
    SlotIsPairRank(ranks, bytes, starts, i);
  }

  lemma SlotOfPair(ranks: Ranks, bytes: Bytes, starts: seq<nat>, pending: seq<nat>, j: nat)
    requires UsableRanks(ranks) && Recorded(ranks, bytes, starts, pending, {})
    requires j + 1 < |starts| && PairRank(ranks, Pieces(bytes, starts), j).Some?
    ensures starts[j] < |pending| && pending[starts[j]] == PairRank(ranks, Pieces(bytes, starts), j).value < ABSENT
  {
    assert RecordedAt(ranks, bytes, starts, pending, j);
    SlotIsPairRank(ranks, bytes, starts, j);
  }

  /** A least key that is not stale names the pair the reference algorithm merges next. */
  lemma FreshKeyIsBest(ranks: Ranks, bytes: Bytes, starts: seq<nat>, pending: seq<nat>, heap: seq<nat>, rank: nat,
                       left: nat)
    returns (i: nat)
    requires UsableRanks(ranks) && Recorded(ranks, bytes, starts, pending, {})
    requires Covered(heap, pending, -1)
    requires forall other :: other in heap ==> Key(rank, left, |bytes| + 1) <= other
    requires left < |bytes| && pending[left] == rank < ABSENT
    ensures i + 1 < |starts| && starts[i] == left
    ensures BestPair(ranks, Pieces(bytes, starts)) == Some(i)
  {
    var pieces := Pieces(bytes, starts);
    i := LiveSlot(ranks, bytes, starts, pending, left);
    forall j: nat | j + 1 < |pieces| ensures NoLater(ranks, pieces, i, j) {
      if PairRank(ranks, pieces, j).Some? {
        SlotOfPair(ranks, bytes, starts, pending, j);
        KeyOrder(rank, left, pending[starts[j]], starts[j], |bytes| + 1);
      }
    }
    BestIsUnique(ranks, pieces, i);
  }

  /** With no key left, no adjacent pair is in the vocabulary. */
  lemma EmptyHeapIsFinal(ranks: Ranks, bytes: Bytes, starts: seq<nat>, pending: seq<nat>)
    requires UsableRanks(ranks) && Recorded(ranks, bytes, starts, pending, {}) && Covered([], pending, -1)
    ensures NaiveMerge(ranks, Pieces(bytes, starts)) == Pieces(bytes, starts)
  {
    var pieces := Pieces(bytes, starts);
    var best := BestPair(ranks, pieces);
    if best.Some? {
      assert NoLater(ranks, pieces, best.value, best.value);
      SlotOfPair(ranks, bytes, starts, pending, best.value);
    }
  }

  // The least key and what is left of the heap without it.
  ghost predicate Popped(heap: seq<nat>, rest: seq<nat>, key: nat, n: nat) {
    && key in heap && BinaryHeap.IsHeap(rest) && KeysInRange(rest, n)
    && forall other :: other in heap ==> key <= other && (other != key ==> other in rest)
  }

  lemma PoppedKeys(heap: seq<nat>, rest: seq<nat>, key: nat, n: nat)
    requires KeysInRange(heap, n) && multiset(heap) == multiset(rest) + multiset{key}
    ensures key in heap && |rest| < |heap| && KeysInRange(rest, n)
    ensures forall other :: other in heap && other != key ==> other in rest
  {
    assert key in multiset(heap);
    assert |multiset(heap)| == |multiset(rest)| + 1;
    forall other | other in rest ensures other in heap {
      assert other in multiset(rest);
      assert other in multiset(heap);
    }
    forall other | other in heap && other != key ensures other in rest {
      assert other in multiset(heap);
      assert other in multiset(rest);
    }
  }

  /** Dropping a key whose offset records another rank loses no recorded rank. */
  lemma StaleKey(heap: seq<nat>, rest: seq<nat>, key: nat, pending: seq<nat>)
    requires Covered(heap, pending, -1) && key % (|pending| + 1) < |pending|
    requires forall other :: other in heap && other != key ==> other in rest
    requires pending[key % (|pending| + 1)] != key / (|pending| + 1)
    ensures Covered(rest, pending, -1)
  {
    forall o | 0 <= o < |pending| && pending[o] != ABSENT ensures Key(pending[o], o, |pending| + 1) in rest {
      KeyParts(pending[o], o, |pending| + 1);
    }
  }

  lemma FreshKeyPopped(heap: seq<nat>, rest: seq<nat>, key: nat, pending: seq<nat>)
    requires Covered(heap, pending, -1)
    requires forall other :: other in heap && other != key ==> other in rest
    ensures Covered(rest, pending, key % (|pending| + 1))
  {
    forall o | 0 <= o < |pending| && o != key % (|pending| + 1) && pending[o] != ABSENT
      ensures Key(pending[o], o, |pending| + 1) in rest
    {
      KeyParts(pending[o], o, |pending| + 1);
    }
  }

  // A fresh key names the best pair, and merging it is the next step of the reference.
  lemma PopFresh(ranks: Ranks, bytes: Bytes, starts: seq<nat>, pending: seq<nat>, heap: seq<nat>, rest: seq<nat>,
                 key: nat, left: nat, rank: nat)
    returns (i: nat)
    requires UsableRanks(ranks) && Recorded(ranks, bytes, starts, pending, {}) && Covered(heap, pending, -1)
    requires KeysInRange(heap, |bytes|) && Popped(heap, rest, key, |bytes|)
    requires left == key % (|bytes| + 1) && rank == key / (|bytes| + 1) && left < |bytes| && pending[left] == rank
    ensures i + 1 < |starts| && starts[i] == left && Covered(rest, pending, left)
    ensures IsPartition(starts, |bytes|) && IsPartition(Joined(starts, i), |bytes|)
    ensures NaiveMerge(ranks, Pieces(bytes, Joined(starts, i))) == NaiveMerge(ranks, Pieces(bytes, starts))
  {
    i := FreshKeyIsBest(ranks, bytes, starts, pending, heap, rank, left);
    FreshKeyPopped(heap, rest, key, pending);
    JoinedIsMerge(bytes, starts, i);
  }

  lemma CoveredAfterUpdate(heap: seq<nat>, grown: seq<nat>, pending: seq<nat>, rank: nat, index: nat, missing: int)
    requires index < |pending| && Covered(heap, pending, missing)
    requires forall key :: key in heap ==> key in grown
    requires rank != ABSENT ==> Key(rank, index, |pending| + 1) in grown
    ensures Covered(grown, pending[index := rank], if missing == index then -1 else missing)
  {
  }

  lemma RecordsRestored(ranks: Ranks, bytes: Bytes, starts: seq<nat>, cleared: seq<nat>, pending: seq<nat>, i: nat)
    requires Recorded(ranks, bytes, starts, cleared, {i - 1, i}) && i < |starts| && |pending| == |cleared|
    requires RecordedAt(ranks, bytes, starts, pending, i)
    requires i > 0 ==> RecordedAt(ranks, bytes, starts, pending, i - 1)
    requires forall o :: 0 <= o < |pending| && o != starts[i] && (i > 0 ==> o != starts[i - 1]) ==>
      pending[o] == cleared[o]
    ensures Recorded(ranks, bytes, starts, pending, {})
  {
    forall k: nat | k < |starts| ensures RecordedAt(ranks, bytes, starts, pending, k) {
      if k != i && k != i - 1 {
        assert RecordedAt(ranks, bytes, starts, cleared, k);
      }
    }
  }

  ghost function Identity(n: nat): seq<nat> {
    seq(n, i => i)
  }

  lemma IdentityLinked(next: seq<nat>, previous: seq<int>, n: nat)
    requires |next| == |previous| == n
    requires forall o :: 0 <= o < n ==> next[o] == o + 1 && previous[o] == o - 1
    ensures Linked(next, previous, Identity(n), n)
  {
    assert n > 0 ==> Identity(n)[0] == 0;
  }

  lemma IdentityIsSingles(bytes: Bytes)
    ensures IsPartition(Identity(|bytes|), |bytes|)
    ensures Pieces(bytes, Identity(|bytes|)) == Singles(bytes)
  {
    assert |bytes| > 0 ==> Identity(|bytes|)[0] == 0;
    forall k | 0 <= k < |bytes| ensures Pieces(bytes, Identity(|bytes|))[k] == Singles(bytes)[k] {
      assert End(Identity(|bytes|), |bytes|, k) == k + 1;
    }
  }

  lemma IdentityRecorded(ranks: Ranks, bytes: Bytes, pending: seq<nat>)
    requires |pending| == |bytes| > 0 && IsPartition(Identity(|bytes|), |bytes|)
    requires forall k: nat :: k + 1 < |bytes| ==> RecordedAt(ranks, bytes, Identity(|bytes|), pending, k)
    requires pending[|bytes| - 1] == ABSENT
    ensures Recorded(ranks, bytes, Identity(|bytes|), pending, {})
  {
    forall o | 0 <= o < |pending| ensures o in Identity(|bytes|) {
      assert Identity(|bytes|)[o] == o;
    }
    assert RecordedAt(ranks, bytes, Identity(|bytes|), pending, |bytes| - 1);
  }

  // ---- The encoder ---------------------------------------------------------

  class Encoder {
    const ranks: Ranks
    const bytes: Bytes
    const next: array<nat>
    const previous: array<int>
    const pending: array<nat>
    var heap: seq<nat>
    ghost var starts: seq<nat>

    ghost predicate Shape()
      reads this, next, previous
    {
      && UsableRanks(ranks)
      && next.Length == previous.Length == pending.Length == |bytes|
      && next != pending && (next as object) != previous && (pending as object) != previous
      && Linked(next[..], previous[..], starts, |bytes|)
      && BinaryHeap.IsHeap(heap) && KeysInRange(heap, |bytes|)
    }

    ghost predicate Valid()
      reads this, next, previous, pending
    {
      && Shape()
      && Recorded(ranks, bytes, starts, pending[..], {})
      && Covered(heap, pending[..], -1)
    }

    constructor (ranks: Ranks, bytes: Bytes)
      requires UsableRanks(ranks)
      ensures this.ranks == ranks && this.bytes == bytes
      ensures fresh(next) && fresh(previous) && fresh(pending)
      ensures Shape() && heap == [] && starts == Identity(|bytes|)
      ensures forall o :: 0 <= o < pending.Length ==> pending[o] == ABSENT
    {
      this.ranks, this.bytes := ranks, bytes;
      heap := [];
      next, previous := new nat[|bytes|], new int[|bytes|];
      pending := new nat[|bytes|](_ => ABSENT);
      starts := Identity(|bytes|);
      new;
      for index := 0 to |bytes|
        modifies next, previous
        invariant forall o :: 0 <= o < index ==> next[o] == o + 1 && previous[o] == o - 1
        invariant forall o :: 0 <= o < pending.Length ==> pending[o] == ABSENT
      {
        next[index] := index + 1;
        previous[index] := index - 1;
      }
      IdentityLinked(next[..], previous[..], |bytes|);
    }

    /** Record the rank of the pair that starts at piece `k` and push its key. */
    method Update(index: nat, ghost k: nat)
      requires Shape() && k < |starts| && starts[k] == index
      modifies this`heap, pending
      ensures Shape()
      ensures pending[..] == old(pending[..])[index := SlotRank(ranks, bytes, starts, k)]
      ensures forall key :: key in old(heap) ==> key in heap
      ensures forall missing :: old(Covered(heap, pending[..], missing)) ==>
                Covered(heap, pending[..], if missing == index then -1 else missing)
    {
      ghost var oldHeap, oldPending := heap, pending[..];
      assert LinkedAt(next[..], previous[..], starts, |bytes|, k);
      var right := next[index];
      if k + 1 < |starts| {
        assert LinkedAt(next[..], previous[..], starts, |bytes|, k + 1);
      }
      var end := if right < |bytes| then next[right] else |bytes|;
      if right < |bytes| && end - index <= MAX_TOKEN_BYTES && bytes[index..end] in ranks {
        var rank := ranks[bytes[index..end]];
        pending[index] := rank;
        var grown := BinaryHeap.Push(heap, Key(rank, index, |bytes| + 1));
        PushedKeys(heap, grown, rank, index, |bytes|);
        heap := grown;
      } else {
        pending[index] := ABSENT;
      }
      forall missing | Covered(oldHeap, oldPending, missing)
        ensures Covered(heap, pending[..], if missing == index then -1 else missing)
      {
        CoveredAfterUpdate(oldHeap, heap, oldPending, pending[index], index, missing);
      }
    }

    /** Fill the records of the initial single-byte pieces. */
    method RecordAll()
      requires Shape() && heap == [] && starts == Identity(|bytes|)
      requires forall o :: 0 <= o < pending.Length ==> pending[o] == ABSENT
      modifies this`heap, pending
      ensures Valid()
    {
      if |bytes| == 0 {
        return;
      }
      for index := 0 to |bytes| - 1
        invariant Shape()
        invariant forall k: nat :: k < index ==> RecordedAt(ranks, bytes, starts, pending[..], k)
        invariant forall o :: index <= o < pending.Length ==> pending[o] == ABSENT
        invariant Covered(heap, pending[..], -1)
      {
        ghost var before := pending[..];
        Update(index, index);
        forall k: nat | k < index ensures RecordedAt(ranks, bytes, starts, pending[..], k) {
          assert RecordedAt(ranks, bytes, starts, before, k);
        }
      }
      IdentityRecorded(ranks, bytes, pending[..]);
    }

    /** One iteration of the merge loop: either the popped key was stale and only
        the heap changed, or the best pair of the reference algorithm was merged. */
    method Step()
      requires Valid() && heap != []
      modifies this`heap, this`starts, next, previous, pending
      ensures Valid()
      ensures if starts == old(starts) then |heap| < |old(heap)| else |starts| < |old(starts)|
      ensures NaiveMerge(ranks, Pieces(bytes, starts)) == old(NaiveMerge(ranks, Pieces(bytes, starts)))
    {
      var key, rest := BinaryHeap.Pop(heap);
      PoppedKeys(heap, rest, key, |bytes|);
      var left, rank := key % (|bytes| + 1), key / (|bytes| + 1);
      if pending[left] != rank {
        StaleKey(heap, rest, key, pending[..]);
        heap := rest;
        return;
      }
      MergeFresh(rest, key, left, rank);
    }

    // A popped key that is still recorded is the best pair.
    method MergeFresh(rest: seq<nat>, key: nat, left: nat, rank: nat)
      requires Valid() && Popped(heap, rest, key, |bytes|)
      requires left == key % (|bytes| + 1) && rank == key / (|bytes| + 1) && pending[left] == rank
      modifies this`heap, this`starts, next, previous, pending
      ensures Valid() && |starts| < |old(starts)|
      ensures NaiveMerge(ranks, Pieces(bytes, starts)) == old(NaiveMerge(ranks, Pieces(bytes, starts)))
    {
      ghost var i := PopFresh(ranks, bytes, starts, pending[..], heap, rest, key, left, rank);
      heap := rest;
      Merge(left, i);
    }

    /** Join piece `i` with its successor. */
    method Merge(left: nat, ghost i: nat)
      requires Shape() && i + 1 < |starts| && starts[i] == left
      requires Recorded(ranks, bytes, starts, pending[..], {}) && Covered(heap, pending[..], left)
      modifies this`heap, this`starts, next, previous, pending
      ensures Valid() && starts == Joined(old(starts), i)
    {
      Relink(left, i);
      ghost var cleared := pending[..];
      Update(left, i);
      assert LinkedAt(next[..], previous[..], starts, |bytes|, i);
      assert Covered(heap, pending[..], -1);
      if previous[left] >= 0 {
        Update(previous[left], i - 1);
      }
      RecordsRestored(ranks, bytes, starts, cleared, pending[..], i);
    }

    /** Drop the link between piece `i` and its successor. */
    // The successor of `right` follows `left`.
    method Unlink(left: nat, right: nat)
      requires next.Length == previous.Length && left < next.Length && right < next.Length
      requires (next as object) != previous
      modifies next, previous
      ensures next[..] == old(next[..])[left := old(next[right])]
      ensures previous[..]
              == if old(next[right]) < previous.Length then old(previous[..])[old(next[right]) := left]
                 else old(previous[..])
    {
      next[left] := next[right];
      if next[left] < next.Length {
        previous[next[left]] := left;
      }
    }

    method Relink(left: nat, ghost i: nat)
      requires Shape() && i + 1 < |starts| && starts[i] == left
      requires Recorded(ranks, bytes, starts, pending[..], {}) && Covered(heap, pending[..], left)
      modifies this`starts, next, previous, pending
      ensures Shape() && starts == Joined(old(starts), i) && i < |starts|
      ensures Recorded(ranks, bytes, starts, pending[..], {i - 1, i}) && Covered(heap, pending[..], left)
    {
      ghost var oldNext, oldPrevious, oldPending := next[..], previous[..], pending[..];
      MergeRecords(ranks, bytes, starts, oldPending, i);
      NextStart(oldNext, oldPrevious, starts, |bytes|, i);
      var right := next[left];
      Unlink(left, right);
      pending[right] := ABSENT;
      assert pending[..] == oldPending[right := ABSENT];
      UnlinkedMerges(oldNext, oldPrevious, starts, |bytes|, i, next[..], previous[..]);
      starts := Joined(starts, i);
    }

    /** Walk the links and look every piece up. */
    method Collect() returns (tokens: Result<seq<nat>, EncodeError>)
      requires Shape()
      ensures tokens == Lookup(ranks, Pieces(bytes, starts))
    {
      ghost var pieces := Pieces(bytes, starts);
      ghost var k := 0;
      var index, result := 0, [];
      while index < |bytes|
        invariant 0 <= k <= |starts| && index == (if k < |starts| then starts[k] else |bytes|)
        invariant |result| == k
        invariant forall j :: 0 <= j < k ==> pieces[j] in ranks && result[j] == ranks[pieces[j]]
        decreases |bytes| - index
      {
        assert LinkedAt(next[..], previous[..], starts, |bytes|, k);
        assert pieces[k] == bytes[index..next[index]];
        if bytes[index..next[index]] !in ranks {
          return Err(UnrecognizedBytePair);
        }
        result := result + [ranks[bytes[index..next[index]]]];
        index, k := next[index], k + 1;
      }
      assert k == |starts|;
      assert Lookup(ranks, pieces).Ok? && result == Lookup(ranks, pieces).value;
      tokens := Ok(result);
    }
  }

  /** The heap-and-links encoder returns exactly what the quadratic reference returns. */
  method EncodeLongPiece(ranks: Ranks, bytes: Bytes) returns (tokens: Result<seq<nat>, EncodeError>)
    requires UsableRanks(ranks)
    ensures tokens == NaiveEncode(ranks, bytes)
  {
    var encoder := new Encoder(ranks, bytes);
    encoder.RecordAll();
    IdentityIsSingles(bytes);
    while encoder.heap != []
      invariant encoder.Valid()
      invariant fresh(encoder) && fresh(encoder.next) && fresh(encoder.previous) && fresh(encoder.pending)
      invariant NaiveMerge(ranks, Pieces(bytes, encoder.starts)) == NaiveMerge(ranks, Singles(bytes))
      decreases |encoder.starts|, |encoder.heap|
    {
      encoder.Step();
    }
    EmptyHeapIsFinal(ranks, bytes, encoder.starts, encoder.pending[..]);
    tokens := encoder.Collect();
  }

  // ---- Vocabularies --------------------------------------------------------

  ghost predicate RanksOf(vocabulary: seq<Bytes>, ranks: Ranks) {
    && (forall b :: b in ranks ==> ranks[b] < |vocabulary| && vocabulary[ranks[b]] == b)
    && (forall rank :: 0 <= rank < |vocabulary| ==> vocabulary[rank] in ranks)
  }

  /** The table built from the token list inverts it, so it is injective even if
      the list repeats a spelling. */
  method RanksByBytes(vocabulary: seq<Bytes>) returns (ranks: Ranks)
    ensures RanksOf(vocabulary, ranks)
  {
    ranks := map[];
    for rank := 0 to |vocabulary|
      invariant forall b :: b in ranks ==> ranks[b] < rank && vocabulary[ranks[b]] == b
      invariant forall r :: 0 <= r < rank ==> vocabulary[r] in ranks
    {
      ranks := ranks[vocabulary[rank] := rank];
    }
  }

  ghost function Spell(vocabulary: seq<Bytes>, tokens: seq<nat>): Bytes
    requires forall i :: 0 <= i < |tokens| ==> tokens[i] < |vocabulary|
  {
    Concat(seq(|tokens|, i requires 0 <= i < |tokens| => vocabulary[tokens[i]]))
  }

  /** A vocabulary with every single byte encodes every text, and the token
      spellings concatenate back to it. */
  lemma EncodingSpellsInput(vocabulary: seq<Bytes>, ranks: Ranks, bytes: Bytes)
    requires RanksOf(vocabulary, ranks)
    ensures (forall b: byte :: [b] in ranks) ==> NaiveEncode(ranks, bytes).Ok?
    ensures NaiveEncode(ranks, bytes).Ok? ==>
      var tokens := NaiveEncode(ranks, bytes).value;
      && (forall i :: 0 <= i < |tokens| ==> tokens[i] < |vocabulary|)
      && Spell(vocabulary, tokens) == bytes
  {
    var pieces := NaiveMerge(ranks, Singles(bytes));
    NaiveMergeSound(ranks, Singles(bytes));
    SinglesSpell(bytes);
    if NaiveEncode(ranks, bytes).Ok? {
      var tokens := NaiveEncode(ranks, bytes).value;
      assert seq(|tokens|, i requires 0 <= i < |tokens| => vocabulary[tokens[i]]) == pieces;
    }
  }
}

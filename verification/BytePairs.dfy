/** The reference algorithm of byte-pair encoding: repeatedly merge the adjacent
    pair of lowest rank, the leftmost one on ties, until no adjacent pair is in
    the vocabulary. plugins/tokens.ts replaces this quadratic loop. */
module BytePairs {
  import opened Wrappers

  newtype byte = x: int | 0 <= x < 256

  type Bytes = seq<byte>
  type Ranks = map<Bytes, nat>

  datatype EncodeError = UnrecognizedBytePair

  function PairRank(ranks: Ranks, pieces: seq<Bytes>, i: nat): Option<nat>
    requires i + 1 < |pieces|
  {
    var merged := pieces[i] + pieces[i + 1];
    if merged in ranks then Some(ranks[merged]) else None
  }

  // Pair `i` is in the vocabulary and comes no later than `j` in (rank, position) order.
  ghost predicate NoLater(ranks: Ranks, pieces: seq<Bytes>, i: nat, j: nat)
    requires i + 1 < |pieces| && j + 1 < |pieces|
  {
    && PairRank(ranks, pieces, i).Some?
    && (PairRank(ranks, pieces, j).Some? ==>
          || PairRank(ranks, pieces, i).value < PairRank(ranks, pieces, j).value
          || (PairRank(ranks, pieces, i).value == PairRank(ranks, pieces, j).value && i <= j))
  }

  ghost predicate IsBest(ranks: Ranks, pieces: seq<Bytes>, i: nat) {
    i + 1 < |pieces| && forall j: nat :: j + 1 < |pieces| ==> NoLater(ranks, pieces, i, j)
  }

  /** One left-to-right scan over the first `n` pairs, replacing the candidate
      only by a strictly lower rank. */
  function Scan(ranks: Ranks, pieces: seq<Bytes>, n: nat): (best: Option<nat>)
    requires n == 0 || n < |pieces|
    ensures best.Some? ==> best.value < n && PairRank(ranks, pieces, best.value).Some?
    ensures best.Some? ==> forall j: nat
      {:trigger PairRank(ranks, pieces, j)} {:trigger NoLater(ranks, pieces, best.value, j)} ::
      j < n ==> NoLater(ranks, pieces, best.value, j)
    ensures best.None? ==> forall j: nat :: j < n ==> PairRank(ranks, pieces, j).None?
  {
    if n == 0 then None else
    var best := Scan(ranks, pieces, n - 1);
    match PairRank(ranks, pieces, n - 1)
    case None => best
    case Some(rank) =>
      if best.None? || rank < PairRank(ranks, pieces, best.value).value then Some(n - 1) else best
  }

  function BestPair(ranks: Ranks, pieces: seq<Bytes>): (best: Option<nat>)
    ensures best.Some? ==> IsBest(ranks, pieces, best.value)
    ensures best.None? ==> forall j: nat :: j + 1 < |pieces| ==> PairRank(ranks, pieces, j).None?
  {
    Scan(ranks, pieces, if pieces == [] then 0 else |pieces| - 1)
  }

  lemma BestIsUnique(ranks: Ranks, pieces: seq<Bytes>, i: nat)
    requires IsBest(ranks, pieces, i)
    ensures BestPair(ranks, pieces) == Some(i)
  {
    assert NoLater(ranks, pieces, i, i);
    var best := BestPair(ranks, pieces);
    assert best.Some?;
    assert NoLater(ranks, pieces, i, best.value) && NoLater(ranks, pieces, best.value, i);
  }

  function MergeAt(pieces: seq<Bytes>, i: nat): seq<Bytes>
    requires i + 1 < |pieces|
  {
    pieces[..i] + [pieces[i] + pieces[i + 1]] + pieces[i + 2..]
  }

  function NaiveMerge(ranks: Ranks, pieces: seq<Bytes>): seq<Bytes>
    decreases |pieces|
  {
    match BestPair(ranks, pieces)
    case None => pieces
    case Some(i) => NaiveMerge(ranks, MergeAt(pieces, i))
  }

  function Singles(bytes: Bytes): seq<Bytes> {
    seq(|bytes|, i requires 0 <= i < |bytes| => [bytes[i]])
  }

  predicate AllKnown(ranks: Ranks, pieces: seq<Bytes>) {
    forall i :: 0 <= i < |pieces| ==> pieces[i] in ranks
  }

  function Lookup(ranks: Ranks, pieces: seq<Bytes>): Result<seq<nat>, EncodeError> {
    if AllKnown(ranks, pieces) then
      Ok(seq(|pieces|, i requires 0 <= i < |pieces| => ranks[pieces[i]]))
    else
      Err(UnrecognizedBytePair)
  }

  function NaiveEncode(ranks: Ranks, bytes: Bytes): Result<seq<nat>, EncodeError> {
    Lookup(ranks, NaiveMerge(ranks, Singles(bytes)))
  }

  // ---- What the reference guarantees -------------------------------------

  function Concat(pieces: seq<Bytes>): Bytes {
    if pieces == [] then [] else pieces[0] + Concat(pieces[1..])
  }

  lemma {:induction false} ConcatSplit(left: seq<Bytes>, right: seq<Bytes>)
    ensures Concat(left + right) == Concat(left) + Concat(right)
  {
    if left == [] {
      assert left + right == right;
    } else {
      assert (left + right)[1..] == left[1..] + right;
      ConcatSplit(left[1..], right);
    }
  }

  lemma ConcatFirst(first: Bytes, rest: seq<Bytes>)
    ensures Concat([first] + rest) == first + Concat(rest)
  {
    assert ([first] + rest)[1..] == rest;
  }

  lemma PairSpells(first: Bytes, second: Bytes, rest: seq<Bytes>)
    ensures Concat([first, second] + rest) == Concat([first + second] + rest)
  {
    assert [first, second] + rest == [first] + ([second] + rest);
    ConcatFirst(first, [second] + rest);
    ConcatFirst(second, rest);
    ConcatFirst(first + second, rest);
  }

  lemma SplitAtPair(pieces: seq<Bytes>, i: nat)
    requires i + 1 < |pieces|
    ensures pieces == pieces[..i] + ([pieces[i], pieces[i + 1]] + pieces[i + 2..])
    ensures MergeAt(pieces, i) == pieces[..i] + ([pieces[i] + pieces[i + 1]] + pieces[i + 2..])
  {
  }

  lemma MergeKeepsText(pieces: seq<Bytes>, i: nat)
    requires i + 1 < |pieces|
    ensures Concat(MergeAt(pieces, i)) == Concat(pieces)
  {
    var left, right := pieces[..i], pieces[i + 2..];
    SplitAtPair(pieces, i);
    ConcatSplit(left, [pieces[i], pieces[i + 1]] + right);
    ConcatSplit(left, [pieces[i] + pieces[i + 1]] + right);
    PairSpells(pieces[i], pieces[i + 1], right);
  }

  /** Merging never changes the text, and a vocabulary that has every single
      piece it starts from has every piece it ends with. */
  lemma {:induction false} NaiveMergeSound(ranks: Ranks, pieces: seq<Bytes>)
    ensures Concat(NaiveMerge(ranks, pieces)) == Concat(pieces)
    ensures AllKnown(ranks, pieces) ==> AllKnown(ranks, NaiveMerge(ranks, pieces))
    decreases |pieces|
  {
    var best := BestPair(ranks, pieces);
    if best.Some? {
      assert NoLater(ranks, pieces, best.value, best.value);
      MergeKeepsText(pieces, best.value);
      NaiveMergeSound(ranks, MergeAt(pieces, best.value));
    }
  }

  lemma {:induction false} SinglesSpell(bytes: Bytes)
    ensures Concat(Singles(bytes)) == bytes
  {
    if bytes != [] {
      SinglesSpell(bytes[1..]);
      assert Singles(bytes)[1..] == Singles(bytes[1..]);
    }
  }
}

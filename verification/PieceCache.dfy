/** The byte-bounded cache in front of the long-piece tokenizer
    (plugins/tokens.ts). Keys are JavaScript strings, whose lone surrogates
    become U+FFFD when the key is rebuilt from the UTF-8 buffer. */
module PieceCache {
  import opened Wrappers
  import opened BytePairs
  import LongPiece

  const CACHE_BYTES: nat := 4 * 1024 * 1024

  // One code point of a JavaScript string, or an unpaired surrogate.
  datatype Unit = Scalar(c: char) | LoneSurrogate(code: nat)

  type Piece = seq<Unit>

  function Utf8Unit(unit: Unit): (bytes: Bytes)
    ensures 1 <= |bytes| <= 4
  {
    match unit
    case LoneSurrogate(_) => [0xEF, 0xBF, 0xBD]
    case Scalar(c) =>
      var n := c as int;
      if n < 0x80 then [n as byte]
      else if n < 0x800 then [(0xC0 + n / 64) as byte, (0x80 + n % 64) as byte]
      else if n < 0x10000 then
        [(0xE0 + n / 4096) as byte, (0x80 + n / 64 % 64) as byte, (0x80 + n % 64) as byte]
      else
        [(0xF0 + n / 262144) as byte, (0x80 + n / 4096 % 64) as byte, (0x80 + n / 64 % 64) as byte,
          (0x80 + n % 64) as byte]
  }

  function Utf8(piece: Piece): Bytes {
    if piece == [] then [] else Utf8Unit(piece[0]) + Utf8(piece[1..])
  }

  function Replaced(unit: Unit): Unit {
    if unit.LoneSurrogate? then Scalar('\U{FFFD}') else unit
  }

  lemma ReplacedKeepsBytes(unit: Unit)
    ensures Utf8Unit(Replaced(unit)) == Utf8Unit(unit)
  {
  }

  // `Buffer.from(piece, "utf8").toString("utf8")`
  function RoundTrip(piece: Piece): (key: Piece)
    ensures |key| == |piece|
  {
    seq(|piece|, i requires 0 <= i < |piece| => Replaced(piece[i]))
  }

  predicate WellFormed(piece: Piece) {
    forall i :: 0 <= i < |piece| ==> piece[i].Scalar?
  }

  lemma {:induction false} RoundTripKeepsBytes(piece: Piece)
    ensures Utf8(RoundTrip(piece)) == Utf8(piece)
  {
    if piece != [] {
      RoundTripKeepsBytes(piece[1..]);
      ReplacedKeepsBytes(piece[0]);
      assert RoundTrip(piece)[1..] == RoundTrip(piece[1..]);
    }
  }

  lemma WellFormedRoundTrip(piece: Piece)
    ensures WellFormed(piece) <==> RoundTrip(piece) == piece
  {
    if WellFormed(piece) {
      assert RoundTrip(piece) == piece;
    } else {
      var i :| 0 <= i < |piece| && !piece[i].Scalar?;
      assert RoundTrip(piece)[i] != piece[i];
    }
  }

  // ---- Decoding ----------------------------------------------------------------

  // The length of a sequence and the payload of its first byte (section 3 of RFC 3629).
  function Lead(b: byte): Option<(nat, int)> {
    var n := b as int;
    if n < 0x80 then Some((1, n))
    else if 0xC0 <= n < 0xE0 then Some((2, n - 0xC0))
    else if 0xE0 <= n < 0xF0 then Some((3, n - 0xE0))
    else if 0xF0 <= n < 0xF8 then Some((4, n - 0xF0))
    else None
  }

  predicate IsContinuation(b: byte) {
    0x80 <= b as int < 0xC0
  }

  // The first byte's payload followed by six bits of each byte behind it.
  function Payload(value: int, behind: Bytes): Option<int>
    decreases |behind|
  {
    if behind == [] then Some(value)
    else if !IsContinuation(behind[0]) then None
    else Payload(value * 64 + (behind[0] as int - 0x80), behind[1..])
  }

  // The code point that the bytes start with, and its length.
  function FirstScalar(bytes: Bytes): Option<(Unit, nat)>
    requires bytes != []
  {
    var lead := Lead(bytes[0]);
    if lead.None? || |bytes| < lead.value.0 then None else
    var value := Payload(lead.value.1, bytes[1..lead.value.0]);
    if value.None? || !(0 <= value.value < 0xD800 || 0xE000 <= value.value < 0x110000) then None
    else Some((Scalar(value.value as char), lead.value.0))
  }

  function FromUtf8(bytes: Bytes): Option<Piece> {
    if bytes == [] then Some([]) else
    var first := FirstScalar(bytes);
    if first.None? || first.value.1 == 0 then None else
    var rest := FromUtf8(bytes[first.value.1..]);
    if rest.None? then None else Some([first.value.0] + rest.value)
  }

  lemma UnitDecodes(unit: Unit, rest: Bytes)
    ensures FirstScalar(Utf8Unit(unit) + rest) == Some((Replaced(unit), |Utf8Unit(unit)|))
  {
    var bytes, n := Utf8Unit(unit), |Utf8Unit(unit)|;
    var all := bytes + rest;
    assert all[1..n] == bytes[1..];
    PayloadIs(unit);
  }

  ghost predicate PayloadGives(bytes: Bytes, n: int) {
    bytes != [] && Lead(bytes[0]).Some? && Lead(bytes[0]).value.0 == |bytes|
    && Payload(Lead(bytes[0]).value.1, bytes[1..]) == Some(n)
  }

  lemma PayloadIs(unit: Unit)
    ensures Replaced(unit).Scalar? && PayloadGives(Utf8Unit(unit), Replaced(unit).c as int)
  {
    var bytes, n := Utf8Unit(unit), Replaced(unit).c as int;
    ReplacedKeepsBytes(unit);
    SixBits(n);
    if n < 0x80 {
      assert bytes[1..] == [];
    } else if n < 0x800 {
      TwoBytes(bytes, n / 64);
    } else if n < 0x10000 {
      ThreeBytes(bytes, n / 4096, n / 64);
    } else {
      FourBytes(bytes, n / 262144, n / 4096, n / 64);
    }
  }

  lemma TwoBytes(bytes: Bytes, v: int)
    requires |bytes| == 2 && IsContinuation(bytes[1])
    ensures Payload(v, bytes[1..]) == Some(v * 64 + (bytes[1] as int - 0x80))
  {
    assert bytes[1..] == [bytes[1]] + [];
    OneBehind(v, bytes[1], []);
  }

  lemma ThreeBytes(bytes: Bytes, v: int, w: int)
    requires |bytes| == 3 && IsContinuation(bytes[1]) && IsContinuation(bytes[2])
    requires w == v * 64 + (bytes[1] as int - 0x80)
    ensures Payload(v, bytes[1..]) == Some(w * 64 + (bytes[2] as int - 0x80))
  {
    assert bytes[1..] == [bytes[1]] + bytes[2..];
    OneBehind(v, bytes[1], bytes[2..]);
    TwoBytes(bytes[1..], w);
    assert bytes[1..][1..] == bytes[2..];
  }

  lemma FourBytes(bytes: Bytes, v: int, w: int, x: int)
    requires |bytes| == 4 && IsContinuation(bytes[1]) && IsContinuation(bytes[2]) && IsContinuation(bytes[3])
    requires w == v * 64 + (bytes[1] as int - 0x80) && x == w * 64 + (bytes[2] as int - 0x80)
    ensures Payload(v, bytes[1..]) == Some(x * 64 + (bytes[3] as int - 0x80))
  {
    assert bytes[1..] == [bytes[1]] + bytes[2..];
    OneBehind(v, bytes[1], bytes[2..]);
    ThreeBytes(bytes[1..], w, x);
    assert bytes[1..][1..] == bytes[2..];
  }

  lemma OneBehind(value: int, b: byte, rest: Bytes)
    requires IsContinuation(b)
    ensures Payload(value, [b] + rest) == Payload(value * 64 + (b as int - 0x80), rest)
  {
    assert ([b] + rest)[1..] == rest;
  }

  lemma SixBits(n: int)
    requires 0 <= n
    ensures n == n / 64 * 64 + n % 64 && n / 64 == n / 4096 * 64 + n / 64 % 64
    ensures n / 4096 == n / 262144 * 64 + n / 4096 % 64
  {
    assert n / 64 / 64 == n / 4096 && n / 4096 / 64 == n / 262144;
  }

  /** The bytes are the UTF-8 form of the piece: decoding gives every code point back,
      and U+FFFD for each lone surrogate. */
  lemma {:induction false} Utf8Decodes(piece: Piece)
    ensures FromUtf8(Utf8(piece)) == Some(RoundTrip(piece))
  {
    if piece != [] {
      Utf8Decodes(piece[1..]);
      var bytes := Utf8Unit(piece[0]);
      UnitDecodes(piece[0], Utf8(piece[1..]));
      assert (bytes + Utf8(piece[1..]))[|bytes|..] == Utf8(piece[1..]);
      assert RoundTrip(piece) == [Replaced(piece[0])] + RoundTrip(piece[1..]);
    }
  }

  /** So different pieces without lone surrogates have different bytes. */
  lemma Utf8IsInjective(a: Piece, b: Piece)
    requires Utf8(a) == Utf8(b)
    ensures RoundTrip(a) == RoundTrip(b)
  {
    Utf8Decodes(a);
    Utf8Decodes(b);
  }

  function Size(piece: Piece): nat {
    |Utf8(piece)|
  }

  // ---- Admission as a function on the key order and the byte counter ---------

  datatype Keys = Keys(order: seq<Piece>, counted: int)

  function Weight(order: seq<Piece>): nat {
    if order == [] then 0 else Size(order[0]) + Weight(order[1..])
  }

  lemma {:induction false} WeightAppend(order: seq<Piece>, key: Piece)
    ensures Weight(order + [key]) == Weight(order) + Size(key)
  {
    if order == [] {
      assert order + [key] == [key];
      assert Weight([key]) == Size(key) + Weight([]);
    } else {
      assert (order + [key])[1..] == order[1..] + [key];
      WeightAppend(order[1..], key);
    }
  }

  // How far the counter runs ahead of the keys that are really retained.
  function Drift(keys: Keys): int {
    keys.counted - Weight(keys.order)
  }

  ghost predicate Consistent(keys: Keys) {
    && 0 <= Drift(keys) && keys.counted <= CACHE_BYTES
    && (forall i, j :: 0 <= i < j < |keys.order| ==> keys.order[i] != keys.order[j])
  }

  function WithoutOldest(keys: Keys): Keys
    requires keys.order != []
  {
    Keys(keys.order[1..], keys.counted - Size(keys.order[0]))
  }

  function Evicted(keys: Keys, need: nat): Keys
    decreases |keys.order|
  {
    if keys.counted + need <= CACHE_BYTES || keys.order == [] then keys
    else Evicted(WithoutOldest(keys), need)
  }

  // The eviction loop runs out of keys and asks for the byte length of `undefined`.
  predicate Throws(keys: Keys, piece: Piece) {
    && piece !in keys.order && Size(piece) <= CACHE_BYTES
    && Evicted(keys, Size(piece)).counted + Size(piece) > CACHE_BYTES
  }

  function Admitted(keys: Keys, piece: Piece): Keys {
    if piece in keys.order || Size(piece) > CACHE_BYTES then keys else
    var kept := Evicted(keys, Size(piece));
    if kept.counted + Size(piece) > CACHE_BYTES then kept else
    var key := RoundTrip(piece);
    Keys(if key in kept.order then kept.order else kept.order + [key], kept.counted + Size(piece))
  }

  lemma {:induction false} EvictionKeepsDrift(keys: Keys, need: nat)
    requires Consistent(keys)
    ensures Consistent(Evicted(keys, need)) && Drift(Evicted(keys, need)) == Drift(keys)
    ensures forall key :: key in Evicted(keys, need).order ==> key in keys.order
    ensures Evicted(keys, need).counted + need > CACHE_BYTES <==> Drift(keys) + need > CACHE_BYTES
    decreases |keys.order|
  {
    if keys.counted + need > CACHE_BYTES && keys.order != [] {
      EvictionKeepsDrift(WithoutOldest(keys), need);
    }
  }

  /** The exact condition of the failure: the counter has drifted so far that
      even an emptied cache cannot take the piece. */
  lemma ThrowsIff(keys: Keys, piece: Piece)
    requires Consistent(keys)
    ensures Throws(keys, piece) <==>
      piece !in keys.order && Size(piece) <= CACHE_BYTES && Drift(keys) + Size(piece) > CACHE_BYTES
  {
    EvictionKeepsDrift(keys, Size(piece));
  }

  /** Admission keeps the budget; only a piece with a lone surrogate whose rebuilt
      key is already retained moves the counter away from the retained bytes. */
  lemma AdmissionStep(keys: Keys, piece: Piece)
    requires Consistent(keys)
    ensures Consistent(Admitted(keys, piece))
    ensures Weight(Admitted(keys, piece).order) <= CACHE_BYTES
    ensures WellFormed(piece) ==> Drift(Admitted(keys, piece)) == Drift(keys)
    ensures Drift(keys) <= Drift(Admitted(keys, piece)) <= Drift(keys) + Size(piece)
  {
    var kept := Evicted(keys, Size(piece));
    var key := RoundTrip(piece);
    EvictionKeepsDrift(keys, Size(piece));
    RoundTripKeepsBytes(piece);
    WellFormedRoundTrip(piece);
    WeightAppend(kept.order, key);
  }

  function Run(keys: Keys, pieces: seq<Piece>): Keys {
    if pieces == [] then keys else Admitted(Run(keys, pieces[..|pieces| - 1]), pieces[|pieces| - 1])
  }

  const EMPTY: Keys := Keys([], 0)

  /** Over every run of pieces without lone surrogates the counter is exactly the
      retained bytes, so the next piece is never refused. */
  lemma {:induction false} WellFormedRunsNeverThrow(pieces: seq<Piece>, next: Piece)
    requires forall i :: 0 <= i < |pieces| ==> WellFormed(pieces[i])
    ensures Consistent(Run(EMPTY, pieces)) && Drift(Run(EMPTY, pieces)) == 0
    ensures !Throws(Run(EMPTY, pieces), next)
    decreases |pieces|
  {
    if pieces != [] {
      WellFormedRunsNeverThrow(pieces[..|pieces| - 1], next);
      AdmissionStep(Run(EMPTY, pieces[..|pieces| - 1]), pieces[|pieces| - 1]);
    }
    ThrowsIff(Run(EMPTY, pieces), next);
  }

  /** Encoding one lone-surrogate piece twice makes the cache refuse a later
      well-formed piece that a fresh cache takes. */
  lemma LoneSurrogatesBreakTheCache(lone: Piece, next: Piece)
    requires !WellFormed(lone) && 2 * Size(lone) <= CACHE_BYTES
    requires next != RoundTrip(lone) && Size(next) <= CACHE_BYTES < Size(lone) + Size(next)
    ensures Throws(Run(EMPTY, [lone, lone]), next) && !Throws(EMPTY, next)
  {
    RoundTripKeepsBytes(lone);
    WellFormedRoundTrip(lone);
    var once := Keys([RoundTrip(lone)], Size(lone));
    var twice := Keys([RoundTrip(lone)], 2 * Size(lone));
    assert [lone, lone][..1] == [lone] && [lone][..0] == [];
    assert Run(EMPTY, [lone]) == Admitted(Run(EMPTY, []), lone);
    assert Admitted(EMPTY, lone) == once;
    assert Run(EMPTY, [lone, lone]) == Admitted(once, lone) == twice;
    assert Weight([RoundTrip(lone)]) == Size(RoundTrip(lone)) + Weight([]);
    ThrowsIff(twice, next);
    ThrowsIff(EMPTY, next);
  }

  function Repeated(unit: Unit, n: nat): Piece {
    seq(n, _ => unit)
  }

  lemma {:induction false} RepeatedSize(unit: Unit, n: nat)
    ensures Size(Repeated(unit, n)) == n * |Utf8Unit(unit)|
  {
    if n > 0 {
      assert Repeated(unit, n)[1..] == Repeated(unit, n - 1);
      RepeatedSize(unit, n - 1);
    }
  }

  /** A concrete instance: about two mebibytes of one unpaired surrogate, twice,
      then four mebibytes of one letter. */
  lemma CacheFailureExists()
    ensures exists lone: Piece, next: Piece ::
      WellFormed(next) && Size(next) == CACHE_BYTES && Throws(Run(EMPTY, [lone, lone]), next)
  {
    var lone, next := Repeated(LoneSurrogate(0xD800), 600_000), Repeated(Scalar('a'), CACHE_BYTES);
    RepeatedSize(LoneSurrogate(0xD800), 600_000);
    RepeatedSize(Scalar('a'), CACHE_BYTES);
    assert lone[0] == LoneSurrogate(0xD800);
    assert |RoundTrip(lone)| != |next|;
    LoneSurrogatesBreakTheCache(lone, next);
  }

  // ---- The cache object -------------------------------------------------------

  datatype Outcome = Tokens(tokens: seq<nat>) | Unrecognized | EvictedNothing

  // The stored answers are the answers of a fresh run, one for each retained key.
  ghost predicate Stores(ranks: Ranks, stored: map<Piece, seq<nat>>, order: seq<Piece>) {
    && (forall key :: key in stored <==> key in order)
    && (forall key :: key in stored ==> NaiveEncode(ranks, Utf8(key)) == Ok(stored[key]))
  }

  lemma DropOldest(ranks: Ranks, stored: map<Piece, seq<nat>>, keys: Keys)
    requires Consistent(keys) && keys.order != [] && Stores(ranks, stored, keys.order)
    ensures Consistent(WithoutOldest(keys))
    ensures Stores(ranks, stored - {keys.order[0]}, keys.order[1..])
  {
    var oldest, rest := keys.order[0], keys.order[1..];
    assert oldest !in rest;
    assert forall key :: key in keys.order <==> key == oldest || key in rest;
  }

  lemma StoreKey(ranks: Ranks, stored: map<Piece, seq<nat>>, order: seq<Piece>, key: Piece, tokens: seq<nat>)
    requires Stores(ranks, stored, order) && NaiveEncode(ranks, Utf8(key)) == Ok(tokens)
    ensures Stores(ranks, stored[key := tokens], if key in order then order else order + [key])
  {
    var after, listed := stored[key := tokens], if key in order then order else order + [key];
    forall other ensures other in after <==> other in listed {
      assert other in stored <==> other in order;
    }
    forall other | other in after ensures NaiveEncode(ranks, Utf8(other)) == Ok(after[other]) {
      if other != key {
        assert other in stored;
      }
    }
  }

  class Cache {
    const ranks: Ranks
    var order: seq<Piece>
    var stored: map<Piece, seq<nat>>
    var cachedPieceBytes: int

    ghost function View(): Keys
      reads this
    {
      Keys(order, cachedPieceBytes)
    }

    ghost predicate Valid()
      reads this
    {
      LongPiece.UsableRanks(ranks) && Consistent(View()) && Stores(ranks, stored, order)
    }

    constructor (ranks: Ranks)
      requires LongPiece.UsableRanks(ranks)
      ensures Valid() && View() == EMPTY && this.ranks == ranks
    {
      this.ranks := ranks;
      order, stored, cachedPieceBytes := [], map[], 0;
    }

    /** Answers with what a fresh run returns, whether or not the piece was cached. */
    method EncodePiece(piece: Piece) returns (outcome: Outcome)
      requires Valid()
      modifies this
      ensures Valid()
      ensures outcome == (match NaiveEncode(ranks, Utf8(piece))
                          case Err(_) => Unrecognized
                          case Ok(tokens) => if old(Throws(View(), piece)) then EvictedNothing else Tokens(tokens))
      ensures View() == old(if NaiveEncode(ranks, Utf8(piece)).Ok? then Admitted(View(), piece) else View())
    {
      if piece in stored {
        return Tokens(stored[piece]);
      }
      var source := Utf8(piece);
      var encoded := LongPiece.EncodeLongPiece(ranks, source);
      if encoded.Err? {
        return Unrecognized;
      }
      var kept := Store(piece, encoded.value);
      outcome := if kept then Tokens(encoded.value) else EvictedNothing;
    }

    method Store(piece: Piece, tokens: seq<nat>) returns (kept: bool)
      requires Valid() && piece !in order && NaiveEncode(ranks, Utf8(piece)) == Ok(tokens)
      modifies this
      ensures Valid() && View() == old(Admitted(View(), piece))
      ensures kept <==> !old(Throws(View(), piece))
    {
      AdmissionStep(View(), piece);
      kept := true;
      if Size(piece) <= CACHE_BYTES {
        kept := EvictFor(Size(piece));
        if kept {
          Insert(piece, tokens);
        }
      }
    }

    // longPieceCache.set and the byte count that goes with it.
    method Insert(piece: Piece, tokens: seq<nat>)
      requires LongPiece.UsableRanks(ranks) && Stores(ranks, stored, order)
      requires NaiveEncode(ranks, Utf8(piece)) == Ok(tokens)
      modifies this
      ensures Stores(ranks, stored, order)
      ensures var key := RoundTrip(piece);
        View() == old(Keys(if key in order then order else order + [key], cachedPieceBytes + Size(piece)))
    {
      RoundTripKeepsBytes(piece);
      SetKey(RoundTrip(piece), tokens);
      cachedPieceBytes := cachedPieceBytes + Size(piece);
    }

    method SetKey(key: Piece, tokens: seq<nat>)
      requires Stores(ranks, stored, order) && NaiveEncode(ranks, Utf8(key)) == Ok(tokens)
      modifies this`order, this`stored
      ensures Stores(ranks, stored, order)
      ensures order == if key in old(order) then old(order) else old(order) + [key]
    {
      StoreKey(ranks, stored, order, key, tokens);
      order := if key in stored then order else order + [key];
      stored := stored[key := tokens];
    }

    method EvictFor(need: nat) returns (kept: bool)
      requires Valid()
      modifies this
      ensures Valid() && View() == old(Evicted(View(), need))
      ensures kept <==> cachedPieceBytes + need <= CACHE_BYTES
    {
      ghost var goal := Evicted(View(), need);
      while cachedPieceBytes + need > CACHE_BYTES
        invariant Valid() && Evicted(View(), need) == goal
        decreases |order|
      {
        if order == [] {
          return false;
        }
        EvictOldest();
      }
      kept := true;
    }

    method EvictOldest()
      requires Valid() && order != []
      modifies this
      ensures Valid() && View() == old(WithoutOldest(View()))
    {
      var oldest := order[0];
      DropOldest(ranks, stored, View());
      cachedPieceBytes := cachedPieceBytes - Size(oldest);
      stored := stored - {oldest};
      order := order[1..];
    }
  }
}

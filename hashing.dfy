/** The hash combinators of main.rs: `concatenate_and_hash` (lines 104-112) and
    `concatenate_and_hash_multiple` (lines 114-129), built on an incremental
    SHA-1 hasher object. */
module Hashing {
  import opened Results
  import opened Bytes
  import opened Primitives

  /** Rust's `u8`: the iteration counter. */
  newtype u8 = x: int | 0 <= x < 256

  /** The incremental `Sha1` hasher: `update` appends to what is pending,
      `finalize_reset` digests it and starts over empty. */
  class Hasher {
    const sha1: Sha1
    var pending: Bytes

    constructor (sha1: Sha1)
      ensures this.sha1 == sha1 && pending == []
    {
      this.sha1 := sha1;
      pending := [];
    }

    method Update(data: Bytes)
      modifies this
      ensures pending == old(pending) + data
    {
      pending := pending + data;
    }

    method FinalizeReset() returns (digest: Bytes)
      requires sha1.Valid()
      modifies this
      ensures digest == sha1.digest(old(pending)) && |digest| == DIGEST_SIZE
      ensures pending == []
    {
      digest := sha1.digest(pending);
      pending := [];
    }

    /** `finalize` consumes the hasher; nothing is reset because nothing is used afterwards. */
    method Finalize() returns (digest: Bytes)
      requires sha1.Valid()
      ensures digest == sha1.digest(pending) && |digest| == DIGEST_SIZE
    {
      digest := sha1.digest(pending);
    }
  }

  /** Specification of `concatenate_and_hash`: the hex text of the digest of message1
      immediately followed by message2. */
  function HashConcat(sha1: Sha1, message1: Bytes, message2: Bytes): (r: string)
    requires sha1.Valid()
    ensures |r| == 2 * DIGEST_SIZE && IsLowerHex(r)
    ensures HexDecode(r) == Some(sha1.digest(message1 + message2))
  {
    HexRoundTrip(sha1.digest(message1 + message2));
    HexEncode(sha1.digest(message1 + message2))
  }

  /** With no delimiter, only the concatenation matters: different splits of the
      same bytes give the same hash. */
  lemma HashConcatFraming(sha1: Sha1, a: Bytes, b: Bytes, c: Bytes, d: Bytes)
    requires sha1.Valid()
    requires a + b == c + d
    ensures HashConcat(sha1, a, b) == HashConcat(sha1, c, d)
  {
  }

  /** So swapping two different messages need not change the hash. */
  lemma {:induction false} HashConcatSwapCanCollide(sha1: Sha1)
    requires sha1.Valid()
    ensures var a, b := [1 as byte], [1 as byte, 1 as byte];
      a != b && HashConcat(sha1, a, b) == HashConcat(sha1, b, a)
  {
    var a, b := [1 as byte], [1 as byte, 1 as byte];
    assert a + b == b + a;
  }

  method ConcatenateAndHash(sha1: Sha1, message1: Bytes, message2: Bytes) returns (hash: string)
    requires sha1.Valid()
    ensures hash == HashConcat(sha1, message1, message2)
  {
    var concatenated: Bytes := [];
    concatenated := concatenated + message1;
    concatenated := concatenated + message2;
    var hasher := new Hasher(sha1);
    hasher.Update(concatenated);
    assert hasher.pending == message1 + message2;
    var digest := hasher.Finalize();
    hash := HexEncode(digest);
  }

  /** `i.wrapping_sub(j)` on `u8`: subtraction modulo 256. */
  function WrappingSub(i: u8, j: u8): (r: u8)
    ensures i >= j ==> r as int == i as int - j as int
    ensures i < j ==> r as int == i as int - j as int + 256
  {
    ((i as int - j as int) % 256) as u8
  }

  /** `hash` hashed `n` more times. */
  function Rehash(sha1: Sha1, n: nat, hash: Bytes): (r: Bytes)
    requires sha1.Valid()
    ensures n > 0 ==> |r| == DIGEST_SIZE
  {
    if n == 0 then hash else sha1.digest(Rehash(sha1, n - 1, hash))
  }

  lemma {:induction false} RehashFirst(sha1: Sha1, n: nat, hash: Bytes)
    requires sha1.Valid()
    ensures Rehash(sha1, n + 1, hash) == Rehash(sha1, n, sha1.digest(hash))
  {
    if n > 0 {
      RehashFirst(sha1, n - 1, hash);
    }
  }

  /** The loop of lines 123-127, exactly as written, run for at most `fuel` rounds:
      Some(final hash) if the counter reaches zero within them, None if it is still
      running. */
  function RunLoop(sha1: Sha1, i: u8, hash: Bytes, fuel: nat): (r: Option<Bytes>)
    requires sha1.Valid()
    ensures i == 0 ==> r == Some(hash)
    ensures i != 0 && fuel == 0 ==> r == None
    decreases fuel
  {
    if i == 0 then Some(hash)
    else if fuel == 0 then None
    else RunLoop(sha1, WrappingSub(i, 2), sha1.digest(hash), fuel - 1)
  }

  /** An even counter leaves the loop after exactly i/2 rounds, having hashed i/2 more times. */
  lemma {:induction false} EvenCounterExits(sha1: Sha1, i: u8, hash: Bytes, fuel: nat)
    requires sha1.Valid() && i % 2 == 0
    ensures fuel >= i as int / 2 ==> RunLoop(sha1, i, hash, fuel) == Some(Rehash(sha1, i as int / 2, hash))
    ensures fuel < i as int / 2 ==> RunLoop(sha1, i, hash, fuel) == None
  {
    if i != 0 && fuel != 0 {
      EvenCounterExits(sha1, i - 2, sha1.digest(hash), fuel - 1);
      RehashFirst(sha1, i as int / 2 - 1, hash);
    }
  }

  /** An odd counter stays odd: 1 wraps to 255. It is never zero, so the loop never exits,
      however many rounds it is given. */
  lemma {:induction false} OddCounterNeverExits(sha1: Sha1, i: u8, hash: Bytes, fuel: nat)
    requires sha1.Valid() && i % 2 == 1
    ensures RunLoop(sha1, i, hash, fuel) == None
    decreases fuel
  {
    if fuel != 0 {
      var next := WrappingSub(i, 2);
      assert next % 2 == 1;
      OddCounterNeverExits(sha1, next, sha1.digest(hash), fuel - 1);
    }
  }

  /** Specification of `concatenate_and_hash_multiple`: for an even iteration count, the
      hex text of SHA-1 applied iteration/2 more times to the digest of message1 followed
      by message2; for an odd one, the call never returns. */
  function HashConcatMultiple(sha1: Sha1, message1: Bytes, message2: Bytes, iteration: u8): (r: Result<string>)
    requires sha1.Valid()
    ensures r.Ok? <==> iteration % 2 == 0
    ensures r.Err? ==> r.error == NeverTerminates
    ensures r.Ok? ==> |r.value| == 2 * DIGEST_SIZE && IsLowerHex(r.value)
  {
    if iteration % 2 == 1 then Err(NeverTerminates)
    else Ok(HexEncode(Rehash(sha1, iteration as int / 2, sha1.digest(message1 + message2))))
  }

  /** The specification agrees with the loop as written: Ok exactly when the loop exits
      (given enough rounds; 127 is the most an even u8 needs), with the hex of its hash. */
  lemma LoopMeetsSpec(sha1: Sha1, message1: Bytes, message2: Bytes, iteration: u8, fuel: nat)
    requires sha1.Valid() && fuel >= 127
    ensures var run := RunLoop(sha1, iteration, sha1.digest(message1 + message2), fuel);
      && (run.Some? <==> HashConcatMultiple(sha1, message1, message2, iteration).Ok?)
      && (run.Some? ==> HashConcatMultiple(sha1, message1, message2, iteration) == Ok(HexEncode(run.value)))
  {
    if iteration % 2 == 0 {
      EvenCounterExits(sha1, iteration, sha1.digest(message1 + message2), fuel);
    } else {
      OddCounterNeverExits(sha1, iteration, sha1.digest(message1 + message2), fuel);
    }
  }

  /** Zero iterations: no extra round, the same text as `concatenate_and_hash`. */
  lemma ZeroIterationsIsHashConcat(sha1: Sha1, message1: Bytes, message2: Bytes)
    requires sha1.Valid()
    ensures HashConcatMultiple(sha1, message1, message2, 0) == Ok(HashConcat(sha1, message1, message2))
  {
  }

  /** Two iterations: exactly one extra SHA-1 round over the concatenated digest. */
  lemma TwoIterationsIsOneRound(sha1: Sha1, message1: Bytes, message2: Bytes)
    requires sha1.Valid()
    ensures HashConcatMultiple(sha1, message1, message2, 2)
         == Ok(HexEncode(sha1.digest(sha1.digest(message1 + message2))))
  {
    assert Rehash(sha1, 1, sha1.digest(message1 + message2)) == sha1.digest(sha1.digest(message1 + message2));
  }

  /** The loop of `concatenate_and_hash_multiple`. It only terminates for an even
      iteration count (see OddCounterNeverExits), which is what it requires. */
  method ConcatenateAndHashMultiple(sha1: Sha1, message1: Bytes, message2: Bytes, iteration: u8)
    returns (hash: string)
    requires sha1.Valid() && iteration % 2 == 0
    ensures HashConcatMultiple(sha1, message1, message2, iteration) == Ok(hash)
  {
    var concatenated: Bytes := [];
    concatenated := concatenated + message1;
    concatenated := concatenated + message2;

    var hasher := new Hasher(sha1);
    var i := iteration;
    hasher.Update(concatenated);
    assert hasher.pending == message1 + message2;
    var digest := hasher.FinalizeReset();
    ghost var first := digest;
    ghost var rounds: nat := 0;
    while i > 0
      invariant hasher.sha1 == sha1 && hasher.pending == []
      invariant i % 2 == 0 && rounds * 2 + i as int == iteration as int
      invariant digest == Rehash(sha1, rounds, first)
      decreases i
    {
      hasher.Update(digest);
      assert hasher.pending == digest;
      digest := hasher.FinalizeReset();
      i := WrappingSub(i, 2);
      rounds := rounds + 1;
    }
    hash := HexEncode(digest);
  }

  /** `i.saturating_sub(j)` on `u8`: subtraction that stops at zero. */
  function SaturatingSub(i: u8, j: u8): (r: u8)
    ensures r as int == if i >= j then i as int - j as int else 0
  {
    if i >= j then i - j else 0
  }

  /** The loop of lines 123-127 with the counter decremented by `saturating_sub(2)`
      instead of `wrapping_sub(2)`. */
  function RunLoopSaturating(sha1: Sha1, i: u8, hash: Bytes, fuel: nat): (r: Option<Bytes>)
    requires sha1.Valid()
    ensures i == 0 ==> r == Some(hash)
    ensures i != 0 && fuel == 0 ==> r == None
    decreases fuel
  {
    if i == 0 then Some(hash)
    else if fuel == 0 then None
    else RunLoopSaturating(sha1, SaturatingSub(i, 2), sha1.digest(hash), fuel - 1)
  }

  /** With a saturating counter every count, odd or even, leaves the loop after exactly
      ceil(i/2) rounds. */
  lemma {:induction false} SaturatingCounterExits(sha1: Sha1, i: u8, hash: Bytes, fuel: nat)
    requires sha1.Valid()
    ensures fuel >= (i as int + 1) / 2 ==>
              RunLoopSaturating(sha1, i, hash, fuel) == Some(Rehash(sha1, (i as int + 1) / 2, hash))
    ensures fuel < (i as int + 1) / 2 ==> RunLoopSaturating(sha1, i, hash, fuel) == None
    decreases fuel
  {
    if i != 0 && fuel != 0 {
      SaturatingCounterExits(sha1, SaturatingSub(i, 2), sha1.digest(hash), fuel - 1);
      RehashFirst(sha1, (i as int + 1) / 2 - 1, hash);
    }
  }
}

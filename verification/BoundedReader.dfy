/** `readBoundedText`: a response body collected in a buffer that never grows beyond its maximum. */
module BoundedReader {
  import opened Utf16
  import opened Utf8Decoder
  import opened EventStream
  import opened Wrappers

  const INITIAL := 4096
  const MAX_EMPTY_CHUNKS := 1024

  /** What one read of the body brings; `Aborted` if the caller's signal has fired by then. */
  datatype Step = Chunk(bytes: seq<Byte>) | Done | Fails | Aborted

  datatype ReadError = TooLarge | Broken | Cancelled

  /** The bytes of the first `n` reads. */
  function Received(stream: nat -> Step, n: nat): seq<Byte> {
    if n == 0 then []
    else Received(stream, n - 1) + (if stream(n - 1).Chunk? then stream(n - 1).bytes else [])
  }

  /** How many of the last of the first `n` reads were empty chunks. */
  function EmptyRun(stream: nat -> Step, n: nat): nat {
    if n == 0 || stream(n - 1) != Chunk([]) then 0 else EmptyRun(stream, n - 1) + 1
  }

  // An empty run are the last reads up to one that was not empty.
  lemma {:induction false} EmptyRunIs(stream: nat -> Step, n: nat)
    ensures EmptyRun(stream, n) <= n
    ensures forall k :: n - EmptyRun(stream, n) <= k < n ==> stream(k) == Chunk([])
    ensures EmptyRun(stream, n) < n ==> stream(n - EmptyRun(stream, n) - 1) != Chunk([])
  {
    if n > 0 && stream(n - 1) == Chunk([]) { EmptyRunIs(stream, n - 1); }
  }

  /** The first `n` reads are chunks that stay within the limits. */
  ghost predicate Accepted(stream: nat -> Step, n: nat, maximumBytes: nat) {
    forall k :: 0 <= k < n ==> WithinLimits(stream, k, maximumBytes)
  }

  /** The read `k` is a chunk that stays within the limits. */
  predicate WithinLimits(stream: nat -> Step, k: nat, maximumBytes: nat) {
    stream(k).Chunk? && |Received(stream, k + 1)| <= maximumBytes && EmptyRun(stream, k + 1) <= MAX_EMPTY_CHUNKS
  }

  lemma LimitsAre(stream: nat -> Step, k: nat, maximumBytes: nat)
    ensures WithinLimits(stream, k, maximumBytes) <==>
            stream(k).Chunk? && |Received(stream, k + 1)| <= maximumBytes && EmptyRun(stream, k + 1) <= 1024
  {
  }

  function Pow2(n: nat): nat {
    if n == 0 then 1 else 2 * Pow2(n - 1)
  }

  function Min(a: nat, b: nat): nat { if a < b then a else b }

  function Max(a: nat, b: nat): nat { if a < b then b else a }

  /**
   Reads a body that may never end. `readCount` counts the reads, `growths` the new buffers and `capacity` is the size
   of the last one.
   */
  method ReadBounded(stream: nat -> Step, maximumBytes: nat)
    returns (result: Result<Text, ReadError>, readCount: nat, growths: nat, capacity: nat)
    ensures readCount > 0
    ensures forall k :: 0 <= k < readCount - 1 ==> WithinLimits(stream, k, maximumBytes)
    ensures match stream(readCount - 1)
            case Done => result == Ok(StripBom(DecodeAll(Received(stream, readCount - 1))))
            case Fails => result == Err(Broken)
            case Aborted => result == Err(Cancelled)
            case Chunk(_) =>
              && result == Err(TooLarge)
              && (|Received(stream, readCount)| > maximumBytes || EmptyRun(stream, readCount) > 1024)
    // The loop ends on every body, and soon.
    ensures readCount <= (maximumBytes + 1) * 1025
    // The buffer never exceeds the maximum, and it doubles until it reaches it.
    ensures capacity <= maximumBytes
    ensures growths == 0 || 4096 * Pow2(growths - 1) < maximumBytes
    ensures growths == 0 ==> capacity == if maximumBytes < 4096 then maximumBytes else 4096
  {
    ReadingStarts(stream, maximumBytes);
    hide StripBom, DecodeAll, Accepted, WithinLimits, Received, EmptyRun, Pow2, Reading, Grown, Min;
    var body := new Byte[Min(INITIAL, maximumBytes)](_ => 0);
    var size, emptyChunks := 0, 0;
    readCount, growths := 0, 0;
    ghost var collected: seq<Byte> := [];
    assert body[..size] == collected;
    while true
      invariant fresh(body) && size <= body.Length <= maximumBytes && Grown(body.Length, growths, maximumBytes)
      invariant body[..size] == collected && Reading(stream, readCount, maximumBytes, collected, emptyChunks)
      invariant emptyChunks <= MAX_EMPTY_CHUNKS
      decreases maximumBytes - size, MAX_EMPTY_CHUNKS - emptyChunks
    {
      ReadingEnds(stream, readCount, maximumBytes, collected, emptyChunks, body.Length, growths);
      var step := stream(readCount);
      readCount := readCount + 1;
      match step {
        case Aborted => return Err(Cancelled), readCount, growths, body.Length;
        case Fails => return Err(Broken), readCount, growths, body.Length;
        case Done => return Ok(StripBom(DecodeAll(body[..size]))), readCount, growths, body.Length;
        case Chunk(bytes) =>
          ReadingOn(stream, readCount - 1, maximumBytes, collected, emptyChunks);
          if |bytes| > maximumBytes - size { return Err(TooLarge), readCount, growths, body.Length; }
          emptyChunks := if |bytes| == 0 then emptyChunks + 1 else 0;
          if emptyChunks > MAX_EMPTY_CHUNKS { return Err(TooLarge), readCount, growths, body.Length; }
          body, growths := Store(body, size, bytes, maximumBytes, growths);
          collected := collected + bytes;
          size := size + |bytes|;
      }
    }
  }

  /** After `n` reads within the limits: the bytes collected, and how many empty chunks came last. */
  ghost predicate Reading(stream: nat -> Step, n: nat, maximumBytes: nat, collected: seq<Byte>, emptyChunks: nat) {
    && Accepted(stream, n, maximumBytes) && collected == Received(stream, n) && |collected| <= maximumBytes
    && emptyChunks == EmptyRun(stream, n) <= MAX_EMPTY_CHUNKS
    // Every run of empty chunks but the last one ends with a byte.
    && n <= |collected| * (MAX_EMPTY_CHUNKS + 1) + emptyChunks
  }

  lemma ReadingStarts(stream: nat -> Step, maximumBytes: nat)
    ensures Reading(stream, 0, maximumBytes, [], 0) && Min(INITIAL, maximumBytes) <= maximumBytes
    ensures Grown(Min(INITIAL, maximumBytes), 0, maximumBytes)
  {
    assert Pow2(0) == 1;
  }

  lemma ReadingEnds(stream: nat -> Step, n: nat, maximumBytes: nat, collected: seq<Byte>, emptyChunks: nat,
                    capacity: nat, growths: nat)
    requires Reading(stream, n, maximumBytes, collected, emptyChunks) && Grown(capacity, growths, maximumBytes)
    ensures Accepted(stream, n, maximumBytes) && collected == Received(stream, n)
    ensures forall k :: 0 <= k < n ==> WithinLimits(stream, k, maximumBytes)
    ensures n + 1 <= (maximumBytes + 1) * (MAX_EMPTY_CHUNKS + 1)
    ensures growths == 0 || INITIAL * Pow2(growths - 1) < maximumBytes
    ensures growths == 0 ==> capacity == if maximumBytes < 4096 then maximumBytes else 4096
  {
    hide Received, EmptyRun, Pow2;
  }

  lemma ReadingOn(stream: nat -> Step, n: nat, maximumBytes: nat, collected: seq<Byte>, emptyChunks: nat)
    requires Reading(stream, n, maximumBytes, collected, emptyChunks) && stream(n).Chunk?
    ensures var bytes := stream(n).bytes;
            var empty := if |bytes| == 0 then emptyChunks + 1 else 0;
            && |Received(stream, n + 1)| == |collected| + |bytes| && EmptyRun(stream, n + 1) == empty
            && (|bytes| <= maximumBytes - |collected| && empty <= MAX_EMPTY_CHUNKS ==>
                  Reading(stream, n + 1, maximumBytes, collected + bytes, empty))
  {
    ChunkRead(stream, n);
    hide Received, EmptyRun, Accepted;
    if |collected| + |stream(n).bytes| <= maximumBytes && EmptyRun(stream, n + 1) <= MAX_EMPTY_CHUNKS {
      ChunkAccepted(stream, n, maximumBytes);
    }
  }

  /** The buffer has doubled with each growth until it reached the maximum. */
  ghost predicate Grown(capacity: nat, growths: nat, maximumBytes: nat) {
    && capacity >= Min(maximumBytes, INITIAL * Pow2(growths))
    && (growths == 0 || INITIAL * Pow2(growths - 1) < maximumBytes)
    && (growths == 0 ==> capacity == Min(INITIAL, maximumBytes))
  }

  lemma ChunkRead(stream: nat -> Step, n: nat)
    requires stream(n).Chunk?
    ensures Received(stream, n + 1) == Received(stream, n) + stream(n).bytes
    ensures EmptyRun(stream, n + 1) == if stream(n).bytes == [] then EmptyRun(stream, n) + 1 else 0
  {
  }

  lemma ChunkAccepted(stream: nat -> Step, n: nat, maximumBytes: nat)
    requires Accepted(stream, n, maximumBytes) && stream(n).Chunk?
    requires |Received(stream, n + 1)| <= maximumBytes && EmptyRun(stream, n + 1) <= MAX_EMPTY_CHUNKS
    ensures Accepted(stream, n + 1, maximumBytes)
  {
  }

  /** Puts the bytes behind the first `size`, in a larger buffer if they do not fit. */
  method Store(body: array<Byte>, size: nat, bytes: seq<Byte>, maximumBytes: nat, growths: nat)
    returns (stored: array<Byte>, grown: nat)
    requires size <= body.Length <= maximumBytes && |bytes| <= maximumBytes - size
    requires Grown(body.Length, growths, maximumBytes)
    modifies body
    ensures stored == body || fresh(stored)
    ensures size + |bytes| <= stored.Length <= maximumBytes && Grown(stored.Length, grown, maximumBytes)
    ensures stored[..size + |bytes|] == old(body[..size]) + bytes
  {
    hide Min, Pow2, Grown;
    var needed := size + |bytes|;
    stored, grown := body, growths;
    if needed > body.Length {
      stored := Expand(body, size, needed, maximumBytes, growths);
      grown := growths + 1;
    }
    Append(stored, size, bytes);
  }

  /** A new buffer with the collected bytes: at least twice as large, unless that exceeds the maximum. */
  method Expand(body: array<Byte>, size: nat, needed: nat, maximumBytes: nat, ghost growths: nat)
    returns (expanded: array<Byte>)
    requires size <= body.Length < needed <= maximumBytes && Grown(body.Length, growths, maximumBytes)
    ensures fresh(expanded) && needed <= expanded.Length <= maximumBytes
    ensures expanded[..size] == body[..size]
    ensures Grown(expanded.Length, growths + 1, maximumBytes)
    ensures var wanted := if needed < body.Length * 2 then body.Length * 2 else needed;
            expanded.Length == if maximumBytes < wanted then maximumBytes else wanted
  {
    expanded := new Byte[Min(maximumBytes, Max(needed, body.Length * 2))](_ => 0);
    Append(expanded, 0, body[..size]);
  }

  /** `target.set(bytes, size)`. */
  method Append(target: array<Byte>, size: nat, bytes: seq<Byte>)
    requires size + |bytes| <= target.Length
    modifies target
    ensures target[..size + |bytes|] == old(target[..size]) + bytes
    ensures target[size + |bytes|..] == old(target[size + |bytes|..])
  {
    for i := 0 to |bytes|
      invariant target[..size + i] == old(target[..size]) + bytes[..i]
      invariant target[size + |bytes|..] == old(target[size + |bytes|..])
    {
      target[size + i] := bytes[i];
      assert target[..size + i + 1] == target[..size + i] + [bytes[i]];
    }
  }
}

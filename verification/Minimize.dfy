/** Shrinking an input while a predicate stays true of it. */
module Minimize {

  /** `best` is what is left of `data` at some of its positions, in order. */
  ghost predicate Picks<T>(data: seq<T>, positions: seq<nat>, best: seq<T>) {
    && |positions| == |best|
    && (forall i :: 0 <= i < |positions| ==> positions[i] < |data| && best[i] == data[positions[i]])
    && (forall i, j :: 0 <= i < j < |positions| ==> positions[i] < positions[j])
  }

  ghost predicate IsSubsequence<T>(best: seq<T>, data: seq<T>) {
    exists positions :: Picks(data, positions, best)
  }

  /** `s` without `chunk` elements from an offset on. */
  function Without<T>(s: seq<T>, offset: nat, chunk: nat): seq<T>
    requires offset <= |s|
  {
    s[..offset] + if offset + chunk <= |s| then s[offset + chunk..] else []
  }

  lemma WithoutPicks<T>(data: seq<T>, positions: seq<nat>, best: seq<T>, offset: nat, chunk: nat)
    requires Picks(data, positions, best) && offset <= |best|
    ensures Picks(data, Without(positions, offset, chunk), Without(best, offset, chunk))
  {
  }

  /** No single byte can be left out. */
  ghost predicate OneMinimal(s: seq<bv8>, holds: seq<bv8> -> bool) {
    forall i :: 0 <= i < |s| ==> !holds(Without(s, i, 1))
  }

  /** One sweep over the input, leaving out chunks of one size where the predicate stays true. */
  method Sweep(start: seq<bv8>, chunk: nat, holds: seq<bv8> -> bool, ghost data: seq<bv8>) returns (best: seq<bv8>)
    requires chunk >= 1 && IsSubsequence(start, data)
    ensures IsSubsequence(best, data) && |best| <= |start|
    ensures best == start || (|best| < |start| && holds(best))
    ensures chunk == 1 && best == start ==> OneMinimal(best, holds)
  {
    best := start;
    var offset := 0;
    while offset < |best|
      invariant IsSubsequence(best, data) && |best| <= |start|
      invariant best == start || (|best| < |start| && holds(best))
      invariant chunk == 1 && best == start ==>
        forall i :: 0 <= i < offset && i < |best| ==> !holds(Without(best, i, 1))
      decreases |best|, |best| - offset
    {
      var candidate := Without(best, offset, chunk);
      if candidate != best && holds(candidate) {
        ghost var positions :| Picks(data, positions, best);
        WithoutPicks(data, positions, best, offset, chunk);
        best := candidate;
      } else {
        offset := offset + chunk;
      }
    }
  }

  /** One round: sweeps with chunks of half the input, a quarter, and so on down to single bytes. */
  method Round(start: seq<bv8>, holds: seq<bv8> -> bool, ghost data: seq<bv8>) returns (best: seq<bv8>,
      progressed: bool)
    requires IsSubsequence(start, data)
    ensures IsSubsequence(best, data) && |best| <= |start|
    ensures progressed ==> |best| < |start| && holds(best)
    ensures !progressed ==> best == start && OneMinimal(best, holds)
  {
    best, progressed := start, false;
    var chunk: nat := if |best| / 2 > 1 then |best| / 2 else 1;
    while chunk >= 1
      invariant IsSubsequence(best, data) && |best| <= |start|
      invariant if progressed then |best| < |start| && holds(best) else best == start
      invariant chunk == 0 && !progressed ==> OneMinimal(best, holds)
      decreases chunk
    {
      var before := best;
      best := Sweep(best, chunk, holds, data);
      progressed := progressed || best != before;
      chunk := chunk / 2;
    }
  }

  /** The result is a subsequence of the input that satisfies the predicate if the input does. If a round went by
      without progress, rather than the rounds being used up, no single byte of it can be left out. */
  method Shrink(data: seq<bv8>, holds: seq<bv8> -> bool, maxRounds: nat) returns (best: seq<bv8>, settled: bool)
    ensures IsSubsequence(best, data)
    ensures best == data || (|best| < |data| && holds(best))
    ensures settled ==> OneMinimal(best, holds)
    ensures !settled ==> |best| + maxRounds <= |data|
  {
    best, settled := data, false;
    assert Picks(data, seq(|data|, i => i), data);
    var n := 0;
    while n < maxRounds
      invariant n <= maxRounds && IsSubsequence(best, data)
      invariant best == data || (|best| < |data| && holds(best))
      invariant |best| + n <= |data|
    {
      var progressed;
      best, progressed := Round(best, holds, data);
      if !progressed {
        settled := true;
        return;
      }
      n := n + 1;
    }
  }
}

/** `NewUlid` and `AddOne` of CSharp.Ulid/Ulid.cs: the generator state (the last
    timestamp and randomness handed out), the increment used within one
    millisecond, and the order of the identifiers it produces. */
module UlidGenerator {
  import opened Wrappers
  import opened Positional
  import opened UlidBinary
  import opened UlidText
  import opened UlidOrder

  const RANDOMNESS_LENGTH := 10

  /** Every byte is `byte.MaxValue`. */
  predicate AllMax(s: seq<byte>) {
    forall i :: 0 <= i < |s| ==> s[i] == 0xFF
  }

  function Zeros(n: nat): (r: seq<byte>)
    ensures |r| == n && forall i :: 0 <= i < n ==> r[i] == 0
  {
    seq(n, _ => 0)
  }

  /** What `AddOne` leaves in its array: the last byte below `byte.MaxValue` is
      incremented and every byte after it is set to zero; when there is none,
      every byte becomes zero. */
  function Increment(s: seq<byte>): (r: seq<byte>)
    ensures |r| == |s|
  {
    if |s| == 0 then []
    else if s[|s| - 1] < 0xFF then s[..|s| - 1] + [s[|s| - 1] + 1]
    else Increment(s[..|s| - 1]) + [0]
  }

  /** `AddOne(byte[] bytes)`: adds one to the big-endian number in `bytes`, from
      the last byte towards the first. */
  method AddOne(bytes: array<byte>)
    modifies bytes
    ensures bytes[..] == Increment(old(bytes[..]))
  {
    ghost var orig := bytes[..];
    var index := bytes.Length - 1;
    assert orig[..index + 1] == orig && bytes[index + 1..] == [];
    while index >= 0
      invariant -1 <= index < bytes.Length
      invariant bytes[..index + 1] == orig[..index + 1]
      invariant Increment(orig) == Increment(orig[..index + 1]) + bytes[index + 1..]
      decreases index
    {
      ghost var rest := bytes[index + 1..];
      IncrementLast(orig[..index + 1]);
      assert orig[..index + 1][..index] == orig[..index];
      if bytes[index] < 0xFF {
        bytes[index] := bytes[index] + 1;
        SplitAt(bytes[..], index);
        return;
      }
      bytes[index] := 0;
      SplitAt(bytes[..], index);
      index := index - 1;
    }
  }

  /** One step of the increment, from the last byte. */
  lemma IncrementLast(s: seq<byte>)
    requires |s| > 0
    ensures s[|s| - 1] < 0xFF ==> Increment(s) == s[..|s| - 1] + [s[|s| - 1] + 1]
    ensures s[|s| - 1] == 0xFF ==> Increment(s) == Increment(s[..|s| - 1]) + [0]
  {
  }

  lemma SplitAt(s: seq<byte>, i: int)
    requires 0 <= i < |s|
    ensures s == s[..i] + [s[i]] + s[i + 1..]
    ensures s[..i + 1] == s[..i] + [s[i]]
  {
  }

  /** The identifier `NewUlid` builds from a timestamp and ten randomness bytes:
      the one the public `Ulid(long, byte[])` constructor builds. */
  function Generated(timestamp: Long, randomness: seq<byte>): (u: Ulid)
    requires |randomness| == RANDOMNESS_LENGTH
    ensures FromTimestamp(timestamp, randomness) == Success(u)
    ensures TimeStamp(u) == timestamp & Low48
    ensures u[..6] == TimestampBytes(timestamp) && u[6..] == randomness
  {
    var u := TimestampBytes(timestamp) + randomness;
    assert FromTimestamp(timestamp, randomness).value == u;
    u
  }

  /** The randomness of the next identifier: within the same millisecond the
      last one plus one, modulo 2^80; fresh entropy otherwise. */
  function NextRandomness(lastTimeStamp: Long, lastRandomness: seq<byte>, timestamp: Long,
                          entropy: seq<byte>): (r: seq<byte>)
    requires |lastRandomness| == RANDOMNESS_LENGTH && |entropy| == RANDOMNESS_LENGTH
    ensures |r| == RANDOMNESS_LENGTH
    ensures timestamp == lastTimeStamp ==>
      Value(ByteValues(r), 256) == (Value(ByteValues(lastRandomness), 256) + 1) % Pow(256, RANDOMNESS_LENGTH)
    ensures timestamp != lastTimeStamp ==> r == entropy
  {
    IncrementValue(lastRandomness);
    if timestamp == lastTimeStamp then Increment(lastRandomness) else entropy
  }

  /** The static state of `Ulid` behind `NewUlid`: `LastUsedTimeStamp` and
      `LastUsedRandomness`. */
  class Generator {
    var lastUsedTimeStamp: Long
    var lastUsedRandomness: array<byte>

    predicate Valid()
      reads this
    {
      lastUsedRandomness.Length == RANDOMNESS_LENGTH
    }

    /** The static initializers: timestamp 0 and ten zero bytes. */
    constructor ()
      ensures Valid() && fresh(lastUsedRandomness)
      ensures lastUsedTimeStamp == 0 && lastUsedRandomness[..] == Zeros(RANDOMNESS_LENGTH)
    {
      lastUsedTimeStamp := 0;
      lastUsedRandomness := new byte[RANDOMNESS_LENGTH](_ => 0);
    }

    /** `NewUlid()`, given the clock reading `timestamp` and the bytes `entropy`
        the random number generator would produce. Within the millisecond of the
        last call the randomness is the last one plus one, otherwise it is the
        entropy and the timestamp is recorded; either way the randomness is
        recorded. */
    method NewUlid(timestamp: Long, entropy: seq<byte>) returns (u: Ulid)
      requires Valid() && |entropy| == RANDOMNESS_LENGTH
      modifies this, lastUsedRandomness
      ensures Valid() && lastUsedRandomness == old(lastUsedRandomness)
      ensures lastUsedTimeStamp == timestamp
      ensures lastUsedRandomness[..]
        == NextRandomness(old(lastUsedTimeStamp), old(lastUsedRandomness[..]), timestamp, entropy)
      ensures u == Generated(timestamp, lastUsedRandomness[..])
    {
      ghost var last := lastUsedRandomness[..];
      ghost var lastTimeStamp := lastUsedTimeStamp;
      var randomness := new byte[lastUsedRandomness.Length];
      if timestamp == lastUsedTimeStamp {
        forall i | 0 <= i < randomness.Length {
          randomness[i] := lastUsedRandomness[i];
        }
        assert randomness[..] == last;
        AddOne(randomness);
      } else {
        forall i | 0 <= i < randomness.Length {
          randomness[i] := entropy[i];
        }
        assert randomness[..] == entropy;
        lastUsedTimeStamp := timestamp;
      }
      assert randomness[..] == NextRandomness(lastTimeStamp, last, timestamp, entropy);
      forall i | 0 <= i < RANDOMNESS_LENGTH {
        lastUsedRandomness[i] := randomness[i];
      }
      assert lastUsedRandomness[..] == randomness[..];
      u := Generated(timestamp, randomness[..]);
    }
  }

  // ---- The increment as arithmetic ----

  lemma ValueSnocByte(p: seq<byte>, x: byte)
    ensures Value(ByteValues(p + [x]), 256) == Value(ByteValues(p), 256) * 256 + x as int
  {
    assert ByteValues(p + [x]) == ByteValues(p) + [x as int];
    ValueConcat(ByteValues(p), [x as int], 256);
  }

  /** Unless every byte is at its maximum, the increment adds one to the number. */
  lemma {:induction false} IncrementAddsOne(s: seq<byte>)
    requires !AllMax(s)
    ensures Value(ByteValues(Increment(s)), 256) == Value(ByteValues(s), 256) + 1
  {
    var n := |s|;
    var p, x := s[..n - 1], s[n - 1];
    assert s == p + [x];
    ValueSnocByte(p, x);
    if x < 0xFF {
      ValueSnocByte(p, x + 1);
    } else {
      var i :| 0 <= i < n && s[i] != 0xFF;
      assert p[i] != 0xFF;
      IncrementAddsOne(p);
      ValueSnocByte(Increment(p), 0);
    }
  }

  /** The increment changes only the last byte below the maximum and the bytes
      after it: the bytes before it are untouched, it goes up by one, and the
      bytes after it (all at the maximum) become zero. */
  lemma {:induction false} IncrementShape(s: seq<byte>, i: int)
    requires 0 <= i < |s| && s[i] < 0xFF && AllMax(s[i + 1..])
    ensures Increment(s) == s[..i] + [s[i] + 1] + Zeros(|s| - i - 1)
    decreases |s|
  {
    var n := |s|;
    if i < n - 1 {
      var p := s[..n - 1];
      assert s[n - 1] == s[i + 1..][n - 1 - (i + 1)];
      assert p[i + 1..] == s[i + 1..n - 1];
      assert p[..i] == s[..i] && p[i] == s[i];
      IncrementShape(p, i);
      assert Zeros(n - i - 2) + [0] == Zeros(n - i - 1);
    }
  }

  /** When every byte is at its maximum, the increment wraps to all zeros. */
  lemma {:induction false} IncrementWraps(s: seq<byte>)
    requires AllMax(s)
    ensures Increment(s) == Zeros(|s|)
  {
    if |s| > 0 {
      IncrementWraps(s[..|s| - 1]);
    }
  }

  lemma {:induction false} ValueOfAllMax(s: seq<byte>)
    requires AllMax(s)
    ensures Value(ByteValues(s), 256) == Pow(256, |s|) - 1
  {
    if |s| > 0 {
      var p := s[..|s| - 1];
      assert s == p + [s[|s| - 1]];
      ValueOfAllMax(p);
      ValueSnocByte(p, s[|s| - 1]);
    }
  }

  lemma {:induction false} ValueOfZeros(n: nat)
    ensures Value(ByteValues(Zeros(n)), 256) == 0
  {
    if n > 0 {
      assert Zeros(n) == Zeros(n - 1) + [0];
      ValueOfZeros(n - 1);
      ValueSnocByte(Zeros(n - 1), 0);
    }
  }

  /** `AddOne` is addition of one modulo 2^(8 * length): it wraps silently. */
  lemma IncrementValue(s: seq<byte>)
    ensures Value(ByteValues(Increment(s)), 256) == (Value(ByteValues(s), 256) + 1) % Pow(256, |s|)
  {
    var p := Pow(256, |s|);
    var v, w := Value(ByteValues(s), 256), Value(ByteValues(Increment(s)), 256);
    if AllMax(s) {
      IncrementWraps(s);
      ValueOfZeros(|s|);
      ValueOfAllMax(s);
      ModOfSum(v, 1, p, 0);
    } else {
      IncrementAddsOne(s);
      ValueBounds(ByteValues(Increment(s)), 256);
      ModOfSum(v, 1, p, v + 1);
    }
  }

  lemma ModOfSum(v: int, d: int, p: int, m: int)
    requires p > 0 && 0 <= m < p && (v + d == m || v + d == p + m)
    ensures (v + d) % p == m
  {
    if v + d == p + m {
      assert (p + m) / p == 1;
    }
  }

  // ---- The order of generated identifiers ----

  /** Within one millisecond the next identifier sorts after the last one, as
      long as the randomness does not overflow. */
  lemma SameMillisecondSortsLater(timestamp: Long, randomness: seq<byte>)
    requires |randomness| == RANDOMNESS_LENGTH && !AllMax(randomness)
    ensures CompareTo(Generated(timestamp, randomness), Generated(timestamp, Increment(randomness))) < 0
  {
    var next := Increment(randomness);
    var a, b := Generated(timestamp, randomness), Generated(timestamp, next);
    CompareToUnderOneTimeStamp(a, b);
    IncrementAddsOne(randomness);
    RandomnessOrder(randomness, next);
  }

  /** Randomness of one length compares as the numbers it spells. */
  lemma RandomnessOrder(r1: seq<byte>, r2: seq<byte>)
    requires |r1| == |r2|
    requires Value(ByteValues(r1), 256) < Value(ByteValues(r2), 256)
    ensures LexCompare(ByteValues(r1), ByteValues(r2)) < 0
  {
    LexCompareIsValueOrder(ByteValues(r1), ByteValues(r2), 256);
  }

  /** A later millisecond sorts later, whatever either randomness is. */
  lemma LaterMillisecondSortsLater(t1: Long, r1: seq<byte>, t2: Long, r2: seq<byte>)
    requires |r1| == RANDOMNESS_LENGTH && |r2| == RANDOMNESS_LENGTH
    requires (t1 & Low48) as int < (t2 & Low48) as int
    ensures CompareTo(Generated(t1, r1), Generated(t2, r2)) < 0
  {
    CompareToFollowsTimeStamp(Generated(t1, r1), Generated(t2, r2));
  }

  /** As written: when the last randomness is all `byte.MaxValue`, the next
      identifier in the same millisecond has zero randomness and sorts before
      the last one. */
  lemma OverflowSortsEarlier(timestamp: Long, randomness: seq<byte>)
    requires |randomness| == RANDOMNESS_LENGTH && AllMax(randomness)
    ensures Increment(randomness) == Zeros(RANDOMNESS_LENGTH)
    ensures CompareTo(Generated(timestamp, Increment(randomness)), Generated(timestamp, randomness)) < 0
  {
    var next := Increment(randomness);
    var a, b := Generated(timestamp, next), Generated(timestamp, randomness);
    IncrementWraps(randomness);
    CompareToUnderOneTimeStamp(a, b);
    ValueOfZeros(RANDOMNESS_LENGTH);
    ValueOfAllMax(randomness);
    assert Pow(256, 10) > 1;
    RandomnessOrder(next, randomness);
  }

  /** The state in which the next `NewUlid` call breaks the order: any millisecond
      whose last randomness is all `byte.MaxValue`. */
  lemma OverflowExample(g: seq<byte>)
    requires g == [0xFF, 0xFF, 0xFF, 0xFF, 0xFF, 0xFF, 0xFF, 0xFF, 0xFF, 0xFF]
    ensures NextRandomness(0, g, 0, Zeros(RANDOMNESS_LENGTH)) == Zeros(RANDOMNESS_LENGTH)
    ensures CompareTo(Generated(0, NextRandomness(0, g, 0, Zeros(RANDOMNESS_LENGTH))), Generated(0, g)) < 0
  {
    OverflowSortsEarlier(0, g);
  }

  // ---- Corrected generator: overflow is an error ----

  /** The randomness of the next identifier, or nothing when the increment
      within one millisecond would overflow. */
  function NextRandomnessChecked(lastTimeStamp: Long, lastRandomness: seq<byte>, timestamp: Long,
                                 entropy: seq<byte>): (r: Option<seq<byte>>)
    requires |lastRandomness| == RANDOMNESS_LENGTH && |entropy| == RANDOMNESS_LENGTH
    ensures r.None? <==> timestamp == lastTimeStamp && AllMax(lastRandomness)
    ensures r.Some? ==> r.value == NextRandomness(lastTimeStamp, lastRandomness, timestamp, entropy)
  {
    if timestamp == lastTimeStamp && AllMax(lastRandomness) then None
    else Some(NextRandomness(lastTimeStamp, lastRandomness, timestamp, entropy))
  }

  /** With the overflow check, and a clock that does not go back, every
      identifier sorts after the one before it. */
  lemma MonotonicStep(lastTimeStamp: Long, lastRandomness: seq<byte>, timestamp: Long, entropy: seq<byte>)
    requires |lastRandomness| == RANDOMNESS_LENGTH && |entropy| == RANDOMNESS_LENGTH
    requires timestamp == lastTimeStamp || (lastTimeStamp & Low48) as int < (timestamp & Low48) as int
    requires NextRandomnessChecked(lastTimeStamp, lastRandomness, timestamp, entropy).Some?
    ensures CompareTo(Generated(lastTimeStamp, lastRandomness),
                      Generated(timestamp, NextRandomnessChecked(lastTimeStamp, lastRandomness, timestamp, entropy).value)) < 0
  {
    if timestamp == lastTimeStamp {
      SameMillisecondSortsLater(timestamp, lastRandomness);
    } else {
      LaterMillisecondSortsLater(lastTimeStamp, lastRandomness, timestamp, entropy);
    }
  }

  /** `NewUlid` with the overflow check: on overflow nothing is returned and the
      state is unchanged. */
  method NewUlidMonotonic(g: Generator, timestamp: Long, entropy: seq<byte>) returns (r: Option<Ulid>)
    requires g.Valid() && |entropy| == RANDOMNESS_LENGTH
    modifies g, g.lastUsedRandomness
    ensures g.Valid() && g.lastUsedRandomness == old(g.lastUsedRandomness)
    ensures var next := NextRandomnessChecked(old(g.lastUsedTimeStamp), old(g.lastUsedRandomness[..]), timestamp, entropy);
      if next.None? then
        r.None? && g.lastUsedTimeStamp == old(g.lastUsedTimeStamp) && g.lastUsedRandomness[..] == old(g.lastUsedRandomness[..])
      else
        r == Some(Generated(timestamp, next.value)) && g.lastUsedTimeStamp == timestamp
        && g.lastUsedRandomness[..] == next.value
  {
    if timestamp == g.lastUsedTimeStamp && AllMax(g.lastUsedRandomness[..]) {
      return None;
    }
    var u := g.NewUlid(timestamp, entropy);
    return Some(u);
  }
}

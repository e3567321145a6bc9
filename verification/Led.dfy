/** The activity LED's sliding window of src/main.rs: ten buckets of 32-bit counter differences
    that add up to the frames of the last ten ticks. */
module Led {
  import opened Bytes

  const LED_BUCKETS: nat := 10

  /** `wrapping_sub` on `u32`. */
  function WrappingSub(a: nat, b: nat): nat
    requires a < U32 && b < U32
  {
    (a - b) % U32
  }

  /** The true number of frames counted by tick `t`; nothing before the first tick. */
  function Total(h: seq<nat>, t: int): nat
    requires t < |h|
  {
    if t < 0 then 0 else h[t]
  }

  /** The difference that tick `t` records. */
  function Delta(h: seq<nat>, t: nat): nat
    requires t < |h|
  {
    WrappingSub(Total(h, t) % U32, Total(h, t - 1) % U32)
  }

  predicate Growing(h: seq<nat>)
  {
    forall t :: 0 < t < |h| ==> h[t - 1] <= h[t]
  }

  /** The ring after the ticks with totals `h`. */
  function Ring(h: seq<nat>): (r: seq<nat>)
    ensures |r| == LED_BUCKETS
  {
    if h == [] then seq(LED_BUCKETS, _ => 0)
    else
      var n := |h| - 1;
      Ring(h[..n])[n % LED_BUCKETS := Delta(h, n)]
  }

  function SumOf(s: seq<nat>): nat
  {
    if s == [] then 0 else SumOf(s[..|s| - 1]) + s[|s| - 1]
  }

  /** The differences of ticks `from` to `to`. */
  function DeltaSum(h: seq<nat>, from: nat, to: nat): nat
    requires from <= to <= |h|
  {
    if from == to then 0 else DeltaSum(h, from, to - 1) + Delta(h, to - 1)
  }

  /** The first tick of the window that ends with the last tick. */
  function WindowStart(n: nat): nat { if n < LED_BUCKETS then 0 else n - LED_BUCKETS }

  lemma {:induction false} SumUpdate(s: seq<nat>, i: nat, v: nat)
    requires i < |s|
    ensures SumOf(s[i := v]) == SumOf(s) - s[i] + v
  {
    var n := |s| - 1;
    if i == n {
      assert s[i := v][..n] == s[..n];
    } else {
      SumUpdate(s[..n], i, v);
      assert s[i := v][..n] == s[..n][i := v];
    }
  }

  lemma {:induction false} SumOfZeros(n: nat)
    ensures SumOf(seq(n, _ => 0)) == 0
  {
    if n > 0 {
      SumOfZeros(n - 1);
      assert seq(n, _ => 0)[..n - 1] == seq(n - 1, _ => 0);
    }
  }

  /** Deltas and their sums only look at the past. */
  lemma {:induction false} PastDeltas(h: seq<nat>, n: nat, from: nat, to: nat)
    requires from <= to <= n <= |h|
    ensures DeltaSum(h[..n], from, to) == DeltaSum(h, from, to)
  {
    if from < to {
      PastDeltas(h, n, from, to - 1);
    }
  }

  lemma SameSlot(n: nat, t: nat)
    requires t < n < t + LED_BUCKETS
    ensures t % LED_BUCKETS != n % LED_BUCKETS
  {
    assert n == 10 * (n / 10) + n % 10 && t == 10 * (t / 10) + t % 10;
  }

  /** Each tick of the window sits in its slot; slots not yet used are zero. */
  lemma {:induction false} SlotHolds(h: seq<nat>, t: nat)
    requires WindowStart(|h|) <= t < |h|
    ensures Ring(h)[t % LED_BUCKETS] == Delta(h, t)
  {
    hide Delta;
    var n := |h| - 1;
    if t < n {
      SlotHolds(h[..n], t);
      SameSlot(n, t);
      PastDelta(h, n, t);
    }
  }

  lemma PastDelta(h: seq<nat>, n: nat, t: nat)
    requires t < n <= |h|
    ensures Delta(h[..n], t) == Delta(h, t)
  {
  }

  lemma {:induction false} SlotUnused(h: seq<nat>, j: nat)
    requires |h| <= j < LED_BUCKETS
    ensures Ring(h)[j] == 0
  {
    hide Delta;
    if h != [] {
      SlotUnused(h[..|h| - 1], j);
      assert (|h| - 1) % LED_BUCKETS == |h| - 1;
    }
  }

  /** The slot about to be overwritten holds the tick that leaves the window. */
  lemma SlotLeaving(h: seq<nat>)
    ensures Ring(h)[|h| % LED_BUCKETS] == if |h| < LED_BUCKETS then 0 else Delta(h, |h| - LED_BUCKETS)
  {
    hide Ring, Delta;
    if |h| < LED_BUCKETS {
      SlotUnused(h, |h|);
    } else {
      SlotHolds(h, |h| - LED_BUCKETS);
      assert (|h| - LED_BUCKETS) % LED_BUCKETS == |h| % LED_BUCKETS;
    }
  }

  lemma {:induction false} DropFirst(h: seq<nat>, from: nat, to: nat)
    requires from < to <= |h|
    ensures DeltaSum(h, from, to) == Delta(h, from) + DeltaSum(h, from + 1, to)
  {
    hide Delta;
    if from + 1 < to {
      DropFirst(h, from, to - 1);
    }
  }

  /** The ring adds up to the differences of the window's ticks. */
  lemma {:induction false} RingSum(h: seq<nat>)
    ensures SumOf(Ring(h)) == DeltaSum(h, WindowStart(|h|), |h|)
  {
    hide Delta, SumOf;
    if h == [] {
      SumOfZeros(LED_BUCKETS);
    } else {
      var n := |h| - 1;
      var past := h[..n];
      RingSum(past);
      SlotLeaving(past);
      SumUpdate(Ring(past), n % LED_BUCKETS, Delta(h, n));
      PastDeltas(h, n, WindowStart(n), n);
      if n >= LED_BUCKETS {
        PastDelta(h, n, n - LED_BUCKETS);
        DropFirst(h, n - LED_BUCKETS, n);
      }
    }
  }

  lemma {:induction false} Telescope(h: seq<nat>, from: nat, to: nat)
    requires from <= to <= |h| && Growing(h)
    ensures Total(h, from - 1) <= Total(h, to - 1)
    ensures (DeltaSum(h, from, to) - (Total(h, to - 1) - Total(h, from - 1))) % U32 == 0
    ensures Total(h, to - 1) - Total(h, from - 1) < U32 ==>
              DeltaSum(h, from, to) == Total(h, to - 1) - Total(h, from - 1)
  {
    if from < to {
      Telescope(h, from, to - 1);
      Wrapped(Total(h, to - 1), Total(h, to - 2));
      SumOfMultiples(DeltaSum(h, from, to - 1) - (Total(h, to - 2) - Total(h, from - 1)),
                     Delta(h, to - 1) - (Total(h, to - 1) - Total(h, to - 2)));
    }
  }

  lemma SumOfMultiples(a: int, b: int)
    requires a % U32 == 0 && b % U32 == 0
    ensures (a + b) % U32 == 0
  {
    assert a == U32 * (a / U32) && b == U32 * (b / U32);
    assert a + b == U32 * (a / U32 + b / U32);
  }

  /** A wrapped difference of wrapped counters is the true difference modulo 2^32. */
  lemma Wrapped(c: nat, d: nat)
    requires d <= c
    ensures (WrappingSub(c % U32, d % U32) - (c - d)) % U32 == 0
    ensures c - d < U32 ==> WrappingSub(c % U32, d % U32) == c - d
  {
    var w := WrappingSub(c % U32, d % U32);
    var x := c % U32 - d % U32;
    assert x == (c - d) - U32 * (c / U32 - d / U32);
    assert w == x - U32 * (x / U32);
    var k := -(c / U32 - d / U32) - x / U32;
    assert w - (c - d) == U32 * k;
  }

  /** The `u32` sum of the ring is the number of frames counted since ten ticks ago (or since
      the start), across counter wrap-around, exactly when that number is below 2^32. */
  lemma WindowExact(h: seq<nat>)
    requires h != [] && Growing(h)
    ensures var frames: int := h[|h| - 1] as int - (if |h| <= 10 then 0 else h[|h| - 11]);
            && frames >= 0
            && SumOf(Ring(h)) % U32 == frames % U32
            && (SumOf(Ring(h)) % U32 == frames <==> frames < U32)
            && (frames < U32 ==> SumOf(Ring(h)) == frames)
  {
    hide Ring, SumOf, DeltaSum;
    RingSum(h);
    Telescope(h, WindowStart(|h|), |h|);
    SameMod(SumOf(Ring(h)), Total(h, |h| - 1) - Total(h, WindowStart(|h|) - 1));
  }

  lemma SameMod(a: nat, b: nat)
    requires (a - b) % U32 == 0
    ensures a % U32 == b % U32
  {
    var k := (a - b) / U32;
    assert a - b == U32 * k;
    assert a == U32 * (k + b / U32) + b % U32;
  }

  /** The window of one counter, as the LED loop keeps it; `seen` is the history of totals. */
  class Window {
    const buckets: array<nat>
    var idx: nat
    var last: nat
    ghost var seen: seq<nat>

    ghost predicate Valid()
      reads this, buckets
    {
      && buckets.Length == LED_BUCKETS
      && Growing(seen)
      && idx == |seen| % LED_BUCKETS
      && last == Total(seen, |seen| - 1) % U32
      && buckets[..] == Ring(seen)
    }

    constructor ()
      ensures Valid() && seen == [] && fresh(buckets)
    {
      buckets := new nat[10](_ => 0);
      idx, last, seen := 0, 0, [];
      new;
      assert buckets[..] == seq(LED_BUCKETS, _ => 0);
    }

    /** One tick: `total` frames counted so far, of which the counter shows the low 32 bits.
        Returns the sum that drives the LED. */
    method Tick(ghost total: nat, counter: nat) returns (sum: nat)
      requires Valid() && counter == total % U32
      requires total >= Total(seen, |seen| - 1)
      modifies this, buckets
      ensures Valid() && seen == old(seen) + [total]
      ensures sum == SumOf(Ring(seen)) % U32
    {
      hide Ring, SumOf;
      ghost var h := seen + [total];
      RingSnoc(seen, total);
      NextSlot(|seen|);
      buckets[idx] := WrappingSub(counter, last);
      last := counter;
      seen := h;
      assert buckets[..] == old(buckets[..])[idx := Delta(h, |h| - 1)];
      sum := SumBuckets();
      idx := (idx + 1) % LED_BUCKETS;
    }

    /** `iter().sum()` on `u32`, wrapping. */
    method SumBuckets() returns (sum: nat)
      requires buckets.Length == LED_BUCKETS
      ensures sum == SumOf(buckets[..]) % U32
    {
      sum := 0;
      for i := 0 to buckets.Length
        invariant sum == SumOf(buckets[..i]) % U32
      {
        assert buckets[..i + 1][..i] == buckets[..i];
        AddMod(SumOf(buckets[..i]), buckets[i]);
        sum := (sum + buckets[i]) % U32;
      }
      assert buckets[..buckets.Length] == buckets[..];
    }
  }

  lemma AddMod(a: nat, b: nat)
    ensures (a % U32 + b) % U32 == (a + b) % U32
  {
    SameMod(a + b, a % U32 + b);
    assert (a + b) - (a % U32 + b) == U32 * (a / U32);
  }

  lemma NextSlot(n: nat)
    ensures (n + 1) % LED_BUCKETS == (n % LED_BUCKETS + 1) % LED_BUCKETS
  {
  }

  lemma RingSnoc(h: seq<nat>, total: nat)
    ensures Ring(h + [total]) == Ring(h)[|h| % LED_BUCKETS := Delta(h + [total], |h|)]
    ensures Delta(h + [total], |h|) == WrappingSub(total % U32, Total(h, |h| - 1) % U32)
  {
    assert (h + [total])[..|h|] == h;
  }
}

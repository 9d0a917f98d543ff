/** The 4096-byte dictionary as the tail of an unbounded history. */
module Ring {
  import opened Bytes
  import opened Lz

  /** What slot `k` must hold: the most recent byte whose index is congruent to `k`, or 0. */
  function Slot(h: seq<byte>, k: nat): byte
    requires k < RING
  {
    Lookback(h, (|h| - 1 - k) % RING + 1)
  }

  ghost predicate Mirrors(ring: seq<byte>, h: seq<byte>) {
    |ring| == RING && forall k :: 0 <= k < RING ==> ring[k] == Slot(h, k)
  }

  /** `Slot` picks the byte by congruence: the last index of `h` that falls on `k`, if there is one. */
  lemma SlotIsLastCongruent(h: seq<byte>, k: nat, i: nat)
    requires k < RING && i < |h| && i % RING == k
    requires forall j :: i < j < |h| ==> j % RING != k
    ensures Slot(h, k) == h[i]
  {
    var d := (|h| - 1 - k) % RING + 1;
    assert (|h| - d) % RING == k;
    assert |h| - d >= i;
  }

  /** The other half: a slot no index falls on still holds the initial 0. */
  lemma SlotNeverWritten(h: seq<byte>, k: nat)
    requires k < RING && forall j :: 0 <= j < |h| ==> j % RING != k
    ensures Slot(h, k) == 0
  {
    var d := (|h| - 1 - k) % RING + 1;
    assert (|h| - d) % RING == k;
  }

  /** Reading at distance `d` is reading the slot `d` places behind the write position. */
  lemma SlotAtDistance(h: seq<byte>, d: nat)
    requires 1 <= d < RING
    ensures Slot(h, (|h| - d) % RING) == Lookback(h, d)
  {
    assert (|h| - 1 - (|h| - d) % RING) % RING == d - 1;
  }

  lemma OneBefore(a: int)
    ensures a % RING != 0 ==> (a - 1) % RING == a % RING - 1
    ensures a % RING == 0 ==> (a - 1) % RING == RING - 1
  {
  }

  lemma SameResidue(n: nat, k: nat)
    requires k < RING
    ensures (n - k) % RING == 0 <==> k == n % RING
  {
    var q := n / RING;
    assert n - k == q * RING + (n % RING - k);
  }

  /** Appending a byte changes exactly the slot at the write position. */
  lemma SlotAfterPush(h: seq<byte>, b: byte, k: nat)
    requires k < RING
    ensures Slot(h + [b], k) == if k == |h| % RING then b else Slot(h, k)
  {
    OneBefore(|h| - k);
    SameResidue(|h|, k);
    var d := (|h| - 1 - k) % RING + 1;
    if k != |h| % RING {
      assert Lookback(h + [b], d + 1) == Lookback(h, d);
    }
  }

  lemma MirrorsAfterPush(ring: seq<byte>, h: seq<byte>, b: byte)
    requires Mirrors(ring, h)
    ensures Mirrors(ring[|h| % RING := b], h + [b])
  {
    forall k | 0 <= k < RING
      ensures ring[|h| % RING := b][k] == Slot(h + [b], k)
    {
      SlotAfterPush(h, b, k);
    }
  }

  /** The preload: a history no longer than the ring, followed by zeros. */
  lemma MirrorsInitially(pre: seq<byte>)
    requires |pre| <= RING
    ensures Mirrors(pre + Zeros(RING - |pre|), pre)
  {
    forall k | 0 <= k < RING
      ensures (pre + Zeros(RING - |pre|))[k] == Slot(pre, k)
    {
      if k < |pre| {
        assert (|pre| - 1 - k) % RING == |pre| - 1 - k;
      } else {
        assert (|pre| - 1 - k) % RING == |pre| - 1 - k + RING;
      }
    }
  }
}

/** The ring of time bins behind the noise recorder (rust/emane-core/src/noise_recorder.rs).

    A bin is an absolute time index; bin b lives in slot b % W of a wheel with W slots.
    The functions below describe the wheel as a value; class Wheel is the in-place buffer. */
module NoiseWheel {

  /** The slots of a wheel. */
  type Slots = s: seq<real> | |s| > 0 witness [0.0]

  /** The slot of a bin: the bin modulo the number of slots, reached by whole turns. */
  function Slot(bin: int, w: nat): (i: int)
    requires w > 0
    ensures 0 <= i < w
    decreases if bin < 0 then w - bin else bin
  {
    if bin < 0 then Slot(bin + w, w) else if bin < w then bin else Slot(bin - w, w)
  }

  /** Bin b lies in the slot of one of the n bins that start at bin lo. */
  predicate Hits(b: int, lo: int, n: int, w: nat)
    requires w > 0
  {
    Slot(b - lo, w) < n
  }

  function At(s: Slots, bin: int): real {
    s[Slot(bin, |s|)]
  }

  /** The slots of the n bins from lo on hold the value. */
  function Fill(s: Slots, lo: int, n: int, value: real): (r: Slots)
    ensures |r| == |s|
  {
    seq(|s|, i requires 0 <= i < |s| => if Hits(i, lo, n, |s|) then value else s[i])
  }

  /** The slots of the n bins from lo on hold the value in addition. */
  function Boost(s: Slots, lo: int, n: int, value: real): (r: Slots)
    ensures |r| == |s|
  {
    seq(|s|, i requires 0 <= i < |s| => if Hits(i, lo, n, |s|) then s[i] + value else s[i])
  }

  // ---------- slots ----------

  lemma SlotTurn(b: int, w: nat)
    requires w > 0
    ensures Slot(b + w, w) == Slot(b, w)
  {
  }

  /** A bin may be reduced to its slot before it is shifted. */
  lemma {:induction false} SlotShift(b: int, c: int, w: nat)
    requires w > 0
    ensures Slot(Slot(b, w) + c, w) == Slot(b + c, w)
    decreases if b < 0 then w - b else b
  {
    if b < 0 {
      SlotTurn(b + c, w);
      SlotShift(b + w, c, w);
    } else if b >= w {
      SlotTurn(b - w + c, w);
      SlotShift(b - w, c, w);
    }
  }

  /** A bin is a whole number of turns away from its slot. */
  lemma {:induction false} SlotRemainder(b: int, w: nat)
    requires w > 0 && b >= 0
    ensures Slot(b - Slot(b, w), w) == 0 && Slot(b, w) <= b && (b >= w ==> b - Slot(b, w) >= w)
  {
    if b >= w {
      SlotRemainder(b - w, w);
      SlotTurn(b - w - Slot(b - w, w), w);
    }
  }

  /** The slot is what the remainder operator computes. */
  lemma {:induction false} SlotIsMod(b: int, w: nat)
    requires w > 0 && b >= 0
    ensures Slot(b, w) == b % w
  {
    if b >= w {
      SlotIsMod(b - w, w);
      var q, r := (b - w) / w, (b - w) % w;
      assert b == (q + 1) * w + r;
      ModUnique(b, q + 1, r, w);
    } else {
      ModUnique(b, 0, b, w);
    }
  }

  lemma MulAtLeast(k: int, w: nat)
    requires k >= 1
    ensures k * w >= w
  {
  }

  lemma ModUnique(x: int, q: int, r: int, w: nat)
    requires w > 0 && x == q * w + r && 0 <= r < w
    ensures x % w == r
  {
    var q', r' := x / w, x % w;
    assert x == q' * w + r';
    assert (q' - q) * w == r - r';
    assert (q - q') * w == r' - r;
    if q' > q {
      MulAtLeast(q' - q, w);
    } else if q' < q {
      MulAtLeast(q - q', w);
    }
  }

  /** Bin b, at distance d = b - lo of less than two turns, is in the same slot as one of the
      n bins that start at lo. */
  predicate InTurn(d: int, n: int, w: int) {
    if d < 0 then d + w < n else if d < w then d < n else d - w < n
  }

  lemma HitsNear(b: int, lo: int, n: int, w: nat)
    requires w > 0 && lo - w <= b < lo + 2 * w
    ensures Hits(b, lo, n, w) == InTurn(b - lo, n, w)
  {
    var d := b - lo;
    if d < 0 {
      assert Slot(d + w, w) == d + w;
    } else if d >= w {
      assert Slot(d - w, w) == d - w;
    }
  }

  /** Reducing a bin, or the start of a run, to its slot does not change which slots are hit. */
  lemma HitsReduced(b: int, lo: int, n: int, w: nat)
    requires w > 0
    ensures Hits(Slot(b, w), lo, n, w) == Hits(b, lo, n, w)
  {
    SlotShift(b, -lo, w);
  }

  /** Bins a whole number of turns apart stay so when both are shifted. */
  lemma SlotAlias(x: int, b: int, c: int, w: nat)
    requires w > 0 && Slot(x - b, w) == 0
    ensures Slot(x - c, w) == Slot(b - c, w)
  {
    SlotShift(x - b, b - c, w);
    assert (x - b) + (b - c) == x - c && 0 + (b - c) == b - c;
  }

  /** What a written wheel holds at any bin, however far away. */
  lemma WriteAt(s: Slots, lo: int, n: int, value: real, b: int)
    ensures At(Fill(s, lo, n, value), b) == if Hits(b, lo, n, |s|) then value else At(s, b)
    ensures At(Boost(s, lo, n, value), b)
         == if Hits(b, lo, n, |s|) then At(s, b) + value else At(s, b)
  {
    HitsReduced(b, lo, n, |s|);
  }

  lemma FillAt(s: Slots, lo: int, n: int, value: real, b: int)
    requires lo - |s| <= b < lo + 2 * |s|
    ensures At(Fill(s, lo, n, value), b) == if InTurn(b - lo, n, |s|) then value else At(s, b)
  {
    WriteAt(s, lo, n, value, b);
    HitsNear(b, lo, n, |s|);
  }

  lemma BoostAt(s: Slots, lo: int, n: int, value: real, b: int)
    requires lo - |s| <= b < lo + 2 * |s|
    ensures At(Boost(s, lo, n, value), b)
         == if InTurn(b - lo, n, |s|) then At(s, b) + value else At(s, b)
  {
    WriteAt(s, lo, n, value, b);
    HitsNear(b, lo, n, |s|);
  }

  /** A run may be named by the slot of its first bin. */
  lemma FillReduced(s: Slots, lo: int, n: int, value: real)
    requires lo >= 0
    ensures Fill(s, Slot(lo, |s|), n, value) == Fill(s, lo, n, value)
    ensures Boost(s, Slot(lo, |s|), n, value) == Boost(s, lo, n, value)
  {
  }

  // ---------- the buffer ----------

  /** `Wheel` with one sub-band: a fixed number of slots updated in place. A call that the
      source answers with a panic is ruled out by `requires`. */
  class Wheel {
    const store: array<real>

    ghost predicate Valid()
    {
      store.Length > 0
    }

    constructor (slots: nat)
      requires slots > 0
      ensures Valid() && fresh(store) && store.Length == slots
      ensures forall i :: 0 <= i < slots ==> store[i] == 0.0
    {
      store := new real[slots](_ => 0.0);
    }

    method Add(begin: nat, slots: nat, value: real)
      requires Valid()
      requires slots <= store.Length && begin < store.Length
      modifies store
      ensures store[..] == Boost(old(store[..]), begin, slots, value)
    {
      if slots == 0 {
        return;
      }
      var total := store.Length;
      var remainder := 0;
      if begin + slots > total {
        remainder := (begin + slots) % total;
        ModUnique(begin + slots, 1, begin + slots - total, total);
      }
      var limit := begin + slots - remainder;
      var i := begin;
      while i < limit
        invariant begin <= i <= limit <= total
        invariant forall k :: 0 <= k < total ==>
          store[k] == if begin <= k < i then old(store[k]) + value else old(store[k])
      {
        store[i] := store[i] + value;
        i := i + 1;
      }
      i := 0;
      while i < remainder
        invariant 0 <= i <= remainder <= begin
        invariant forall k :: 0 <= k < total ==>
          store[k] == if begin <= k < limit || k < i then old(store[k]) + value else old(store[k])
      {
        store[i] := store[i] + value;
        i := i + 1;
      }
      forall k | 0 <= k < total
        ensures Hits(k, begin, slots, total) == (begin <= k < limit || k < remainder)
      {
        HitsNear(k, begin, slots, total);
      }
    }

    method Set(begin: nat, slots: nat, value: real)
      requires Valid()
      requires slots <= store.Length && begin < store.Length
      modifies store
      ensures store[..] == Fill(old(store[..]), begin, slots, value)
    {
      if slots == 0 {
        return;
      }
      var total := store.Length;
      var remainder := 0;
      if begin + slots > total {
        remainder := (begin + slots) % total;
        ModUnique(begin + slots, 1, begin + slots - total, total);
      }
      var limit := begin + slots - remainder;
      var i := begin;
      while i < limit
        invariant begin <= i <= limit <= total
        invariant forall k :: 0 <= k < total ==>
          store[k] == if begin <= k < i then value else old(store[k])
      {
        store[i] := value;
        i := i + 1;
      }
      i := 0;
      while i < remainder
        invariant 0 <= i <= remainder <= begin
        invariant forall k :: 0 <= k < total ==>
          store[k] == if begin <= k < limit || k < i then value else old(store[k])
      {
        store[i] := value;
        i := i + 1;
      }
      forall k | 0 <= k < total
        ensures Hits(k, begin, slots, total) == (begin <= k < limit || k < remainder)
      {
        HitsNear(k, begin, slots, total);
      }
    }

    /** The `slots` bins that end at slot `begin`, oldest first. */
    method Get(begin: nat, slots: nat) returns (values: seq<real>)
      requires Valid()
      requires 1 <= slots <= store.Length && begin < store.Length
      ensures |values| == slots
      ensures forall k :: 0 <= k < slots ==> values[k] == At(store[..], begin + 1 - slots + k)
    {
      var total := store.Length;
      if begin >= slots - 1 {
        values := store[begin + 1 - slots..begin + 1];
      } else {
        var remainder := slots - begin - 1;
        values := store[total - remainder..] + store[..begin + 1];
      }
      forall k | 0 <= k < slots
        ensures values[k] == At(store[..], begin + 1 - slots + k)
      {
        var b := begin + 1 - slots + k;
        assert Slot(b, total) == if b >= 0 then b else b + total;
      }
    }
  }
}

/** The spectrum monitor's memory of which recorders a transmission touches
    (rust/emane-core/src/spectrum_monitor.rs:186-207 and 468-523,
    rust/emane-core/src/spectral_mask.rs:22-59 and 284-290), for transmissions without a spectral
    mask. */
module OverlapCache {
  import opened Common

  type u64 = x: int | 0 <= x < 0x1_0000_0000_0000_0000

  const U64_MAX: int := 0xffff_ffff_ffff_ffff

  function Upper(frequency: u64, bandwidth: u64): u64 {
    if frequency as int + bandwidth / 2 > U64_MAX then U64_MAX else frequency as int + bandwidth / 2
  }

  function Lower(frequency: u64, bandwidth: u64): u64 {
    if frequency as int - bandwidth / 2 < 0 then 0 else frequency as int - bandwidth / 2
  }

  datatype Ratio = Ratio(ratio: real, lower: u64, upper: u64)

  /** A fraction of the second signal's bandwidth. */
  function Part(width: int, bandwidth: u64): real
    requires bandwidth > 0
  {
    width as real / bandwidth as real
  }

  /** `frequency_overlap_ratio`: how much of the second signal falls into the first band. */
  function FrequencyOverlapRatio(freq1: u64, bw1: u64, freq2: u64, bw2: u64): Ratio {
    if bw1 == 0 || bw2 == 0 then Ratio(0.0, 0, 0)
    else
      var upper1, lower1 := Upper(freq1, bw1), Lower(freq1, bw1);
      var upper2, lower2 := Upper(freq2, bw2), Lower(freq2, bw2);
      if lower2 < upper1 && upper2 > lower1 then
        if lower2 >= lower1 then
          if upper2 <= upper1 then Ratio(1.0, lower2, upper2)
          else Ratio(Part(upper1 as int - lower2 as int, bw2), lower2, upper1)
        else
          if upper2 <= upper1 then Ratio(Part(upper2 as int - lower1 as int, bw2), lower1, upper2)
          else Ratio(Part(upper1 as int - lower1 as int, bw2), lower1, upper1)
      else Ratio(0.0, 0, 0)
  }

  /** `get_spectral_overlap` for mask 0. */
  function SpectralOverlap(txFreq: u64, rxFreq: u64, rxBw: u64, txBw: u64): Option<Ratio> {
    var r := FrequencyOverlapRatio(rxFreq, rxBw, txFreq, txBw);
    if r.ratio > 0.0 then Some(r) else None
  }

  lemma PartBounds(width: int, bandwidth: u64)
    requires bandwidth > 0 && 0 <= width <= bandwidth
    ensures 0.0 <= Part(width, bandwidth) <= 1.0
    ensures Part(width, bandwidth) > 0.0 <==> width > 0
  {
    var x, y := width as real, bandwidth as real;
    QuotientBounds(x, y, x / y);
  }

  lemma QuotientBounds(x: real, y: real, q: real)
    requires 0.0 <= x <= y && y > 0.0 && q * y == x
    ensures 0.0 <= q <= 1.0 && (q > 0.0 <==> x > 0.0)
  {
    PositiveProduct(q - 1.0, y);
    PositiveProduct(0.0 - q, y);
  }

  lemma PositiveProduct(a: real, b: real)
    requires b > 0.0
    ensures a > 0.0 ==> a * b > 0.0
  {
  }

  /** The answer is the intersection of the two bands: there is one exactly when both have a bandwidth
      and they meet in more than a point, or the signal, however narrow, lies inside the band. */
  lemma OverlapIsIntersection(txFreq: u64, rxFreq: u64, rxBw: u64, txBw: u64)
    ensures var o := SpectralOverlap(txFreq, rxFreq, rxBw, txBw);
      var lower := if Lower(txFreq, txBw) < Lower(rxFreq, rxBw) then Lower(rxFreq, rxBw) else Lower(txFreq, txBw);
      var upper := if Upper(txFreq, txBw) < Upper(rxFreq, rxBw) then Upper(txFreq, txBw) else Upper(rxFreq, rxBw);
      && (o.Some? <==>
            && rxBw > 0 && txBw > 0
            && (lower < upper || Lower(rxFreq, rxBw) < Lower(txFreq, txBw) == Upper(txFreq, txBw) < Upper(rxFreq, rxBw)))
      && (o.Some? ==> o.value.lower == lower && o.value.upper == upper && 0.0 < o.value.ratio <= 1.0)
  {
    var lower1, upper1 := Lower(rxFreq, rxBw), Upper(rxFreq, rxBw);
    var lower2, upper2 := Lower(txFreq, txBw), Upper(txFreq, txBw);
    if rxBw > 0 && txBw > 0 && lower2 < upper1 && upper2 > lower1 && !(lower2 >= lower1 && upper2 <= upper1) {
      var lower := if lower2 < lower1 then lower1 else lower2;
      var upper := if upper2 < upper1 then upper2 else upper1;
      PartBounds(upper as int - lower as int, txBw);
    }
  }

  /** The edges of a band: half the bandwidth to either side, cut off at the ends of the range. */
  lemma BandEdges(frequency: u64, bandwidth: u64)
    ensures var low, high := frequency as int - bandwidth as int / 2, frequency as int + bandwidth as int / 2;
      && Lower(frequency, bandwidth) == (if low < 0 then 0 else low)
      && Upper(frequency, bandwidth) == (if high > U64_MAX then U64_MAX else high)
  {
  }

  predicate InsideBand(txFreq: u64, rxFreq: u64, rxBw: u64, txBw: u64) {
    Lower(rxFreq, rxBw) <= Lower(txFreq, txBw) && Upper(txFreq, txBw) <= Upper(rxFreq, rxBw)
  }

  lemma PartTimes(width: int, bandwidth: u64)
    requires bandwidth > 0
    ensures Part(width, bandwidth) * bandwidth as real == width as real
  {
  }

  /** The ratio is the part of the signal's bandwidth that lies in the band: all of it for a signal
      inside the band, and otherwise the width of the intersection. */
  lemma OverlapRatio(txFreq: u64, rxFreq: u64, rxBw: u64, txBw: u64)
    requires SpectralOverlap(txFreq, rxFreq, rxBw, txBw).Some?
    ensures txBw > 0
    ensures var o := SpectralOverlap(txFreq, rxFreq, rxBw, txBw).value;
      o.ratio == if InsideBand(txFreq, rxFreq, rxBw, txBw) then 1.0 else Part(o.upper as int - o.lower as int, txBw)
  {
  }

  // ---------- scanning ----------

  datatype Record = Record(frequency: u64, overlap: Ratio, start: u64, end: u64)

  /** A fresh scan of all recorder frequencies. */
  function Scan(recorders: seq<u64>, txFreq: u64, rxBw: u64, txBw: u64): seq<Record> {
    if recorders == [] then []
    else
      var n := |recorders| - 1;
      var o := SpectralOverlap(txFreq, recorders[n], rxBw, txBw);
      Scan(recorders[..n], txFreq, rxBw, txBw)
      + (if o.None? then [] else [Record(recorders[n], o.value, o.value.lower, o.value.upper)])
  }

  /** How many of the first n recorders the transmission touches. */
  function Touched(recorders: seq<u64>, n: nat, txFreq: u64, rxBw: u64, txBw: u64): nat
    requires n <= |recorders|
  {
    if n == 0 then 0
    else Touched(recorders, n - 1, txFreq, rxBw, txBw)
         + if SpectralOverlap(txFreq, recorders[n - 1], rxBw, txBw).Some? then 1 else 0
  }

  /** A scan holds one record for each recorder that is touched, in the order of the recorders, and
      nothing else. */
  lemma {:induction false} ScanExactly(recorders: seq<u64>, n: nat, i: nat, txFreq: u64, rxBw: u64, txBw: u64)
    requires i <= n <= |recorders|
    ensures var scan, k := Scan(recorders[..n], txFreq, rxBw, txBw), Touched(recorders, i, txFreq, rxBw, txBw);
      && |scan| == Touched(recorders, n, txFreq, rxBw, txBw) && k <= |scan|
      && (i < n ==>
            var o := SpectralOverlap(txFreq, recorders[i], rxBw, txBw);
            o.Some? ==> k < |scan| && scan[k] == Record(recorders[i], o.value, o.value.lower, o.value.upper))
  {
    if n > 0 {
      ScanExactly(recorders, n - 1, if i < n then i else n - 1, txFreq, rxBw, txBw);
      ScanStep(recorders, n - 1, txFreq, rxBw, txBw);
    }
  }

  lemma {:induction false} ScanStep(recorders: seq<u64>, n: nat, txFreq: u64, rxBw: u64, txBw: u64)
    requires n < |recorders|
    ensures var o, scan := SpectralOverlap(txFreq, recorders[n], rxBw, txBw), Scan(recorders[..n], txFreq, rxBw, txBw);
      Scan(recorders[..n + 1], txFreq, rxBw, txBw)
      == if o.None? then scan else scan + [Record(recorders[n], o.value, o.value.lower, o.value.upper)]
  {
    assert recorders[..n + 1][..n] == recorders[..n];
    assert Scan(recorders[..n], txFreq, rxBw, txBw) + [] == Scan(recorders[..n], txFreq, rxBw, txBw);
  }

  predicate Ascending(s: seq<u64>) {
    forall i, j :: 0 <= i < j < |s| ==> s[i] < s[j]
  }

  /** Insertion into the ordered map of recorders. */
  function Insert(s: seq<u64>, x: u64): seq<u64> {
    if s == [] then [x]
    else
      var n := |s| - 1;
      if s[n] < x then s + [x] else if s[n] == x then s else Insert(s[..n], x) + [s[n]]
  }

  lemma {:induction false} InsertAscending(s: seq<u64>, x: u64)
    requires Ascending(s)
    ensures Ascending(Insert(s, x)) && forall y :: y in Insert(s, x) <==> y in s || y == x
  {
    if s != [] {
      var n := |s| - 1;
      assert s == s[..n] + [s[n]];
      if s[n] > x {
        InsertAscending(s[..n], x);
        var r := Insert(s[..n], x);
        forall i | 0 <= i < |r|
          ensures r[i] < s[n]
        {
          assert r[i] in r;
        }
      }
    }
  }

  // ---------- the cache ----------

  /** For one transmitter bandwidth: records by frequency, and frequencies that some recorder does
      not overlap. */
  datatype Known = Known(records: map<u64, seq<Record>>, noOverlap: set<u64>)

  const NOTHING_KNOWN := Known(map[], {})

  class SpectrumMonitor {
    var cache: map<u64, Known>
    var recorders: seq<u64>
    var receiverBandwidth: u64

    /** Whatever the cache would answer is what a scan would find. */
    ghost predicate Valid()
      reads this
    {
      && Ascending(recorders)
      && forall bw, f :: bw in cache && Remembers(cache[bw], f) ==>
           Answer(cache[bw], f) == Scan(recorders, f, receiverBandwidth, bw)
    }

    constructor ()
      ensures Valid() && recorders == []
    {
      cache, recorders, receiverBandwidth := map[], [], 0;
    }

    /** `initialize`: the cache is forgotten and the recorders are those asked for. */
    method Initialize(foi: set<u64>, bandwidth: u64)
      modifies this
      ensures Valid() && receiverBandwidth == bandwidth && cache == map[bandwidth := NOTHING_KNOWN]
      ensures forall f :: f in recorders <==> f in foi
    {
      receiverBandwidth := bandwidth;
      cache := map[bandwidth := NOTHING_KNOWN];
      recorders := [];
      var left := foi;
      while left != {}
        invariant left <= foi && Ascending(recorders)
        invariant forall f :: f in recorders <==> f in foi - left
        invariant cache == map[bandwidth := NOTHING_KNOWN] && receiverBandwidth == bandwidth
        decreases left
      {
        var f :| f in left;
        InsertAscending(recorders, f);
        recorders := Insert(recorders, f);
        left := left - {f};
      }
    }

    /** The scan behind a cache miss, which also notes whether some recorder was not touched. */
    method ScanRecorders(shifted: u64, bandwidth: u64) returns (records: seq<Record>, foundNoOverlap: bool)
      ensures records == Scan(recorders, shifted, receiverBandwidth, bandwidth)
      ensures |records| <= |recorders| && foundNoOverlap == (|records| < |recorders|)
    {
      records, foundNoOverlap := [], false;
      for i := 0 to |recorders|
        invariant records == Scan(recorders[..i], shifted, receiverBandwidth, bandwidth)
        invariant |records| <= i && foundNoOverlap == (|records| < i)
      {
        assert recorders[..i + 1][..i] == recorders[..i];
        var o := SpectralOverlap(shifted, recorders[i], receiverBandwidth, bandwidth);
        if o.Some? {
          records := records + [Record(recorders[i], o.value, o.value.lower, o.value.upper)];
        } else {
          foundNoOverlap := true;
        }
      }
      assert recorders[..|recorders|] == recorders;
    }

    /** The records of one transmission, from the cache when it knows them: always those of a fresh
        scan. */
    method OverlapRecords(shifted: u64, bandwidth: u64) returns (records: seq<Record>)
      requires Valid()
      modifies this`cache
      ensures Valid() && records == Scan(recorders, shifted, receiverBandwidth, bandwidth)
      ensures recorders != [] ==> bandwidth in cache && Remembers(cache[bandwidth], shifted)
    {
      if bandwidth !in cache {
        cache := cache[bandwidth := NOTHING_KNOWN];
      }
      var known := cache[bandwidth];
      if shifted in known.records {
        return known.records[shifted];
      }
      if shifted in known.noOverlap {
        return [];
      }
      var foundNoOverlap;
      records, foundNoOverlap := ScanRecorders(shifted, bandwidth);
      forall f
        ensures Remembers(Learn(known, shifted, records, foundNoOverlap), f) ==>
          Answer(Learn(known, shifted, records, foundNoOverlap), f)
          == Scan(recorders, f, receiverBandwidth, bandwidth)
      {
        LearnAt(known, shifted, records, foundNoOverlap, f);
      }
      cache := cache[bandwidth := Learn(known, shifted, records, foundNoOverlap)];
    }
  }

  /** What a scan adds: the frequency, if some recorder was not touched, and the records, if any. */
  function Learn(known: Known, frequency: u64, records: seq<Record>, foundNoOverlap: bool): Known {
    var k := if foundNoOverlap then known.(noOverlap := known.noOverlap + {frequency}) else known;
    if records == [] then k else k.(records := k.records[frequency := records])
  }

  lemma LearnAt(known: Known, frequency: u64, records: seq<Record>, foundNoOverlap: bool, f: u64)
    requires !Remembers(known, frequency)
    ensures var k := Learn(known, frequency, records, foundNoOverlap);
      && (f != frequency ==> Remembers(k, f) == Remembers(known, f) && Answer(k, f) == Answer(known, f))
      && Answer(k, frequency) == records
      && (Remembers(k, frequency) <==> foundNoOverlap || records != [])
  {
  }

  predicate Remembers(known: Known, frequency: u64) {
    frequency in known.records || frequency in known.noOverlap
  }

  /** What the cache answers for a frequency it has an entry for: records first. */
  function Answer(known: Known, frequency: u64): seq<Record> {
    if frequency in known.records then known.records[frequency] else []
  }
}

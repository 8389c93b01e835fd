/** Antenna patterns: ranges of elevation and bearing stored as ordered maps from upper bounds
    (rust/emane-core/src/antenna.rs:63-209). */
module Antenna {
  import opened Common

  const I16_MIN := -0x8000

  // ---------- interval maps ----------

  datatype Cell<+V> = Cell(min: int, max: int, value: V) {
    predicate Contains(x: int) { min <= x <= max }
  }

  ghost predicate WellFormed<V>(cells: seq<Cell<V>>) {
    forall i :: 0 <= i < |cells| ==> cells[i].min <= cells[i].max
  }

  /** The ranges follow one another without overlap. */
  ghost predicate Ordered<V>(cells: seq<Cell<V>>) {
    && WellFormed(cells)
    && forall i, j :: 0 <= i < j < |cells| ==> cells[i].max < cells[j].min
  }

  /** No two ranges, in whatever order, share a point. */
  ghost predicate Separate<V>(cells: seq<Cell<V>>) {
    forall i, j :: 0 <= i < j < |cells| ==> cells[i].max < cells[j].min || cells[j].max < cells[i].min
  }

  /** One range enters the map under its upper bound, and closes the gap in front of it, unless
      another range ends there. */
  function Put<V>(m: map<int, V>, c: Cell<V>, missing: V): map<int, V> {
    (if c.min - 1 in m then m else m[c.min - 1 := missing])[c.max := c.value]
  }

  function PutAll<V>(m: map<int, V>, cells: seq<Cell<V>>, missing: V): map<int, V> {
    if cells == [] then m
    else Put(PutAll(m, cells[..|cells| - 1], missing), cells[|cells| - 1], missing)
  }

  function StepMap<V>(cells: seq<Cell<V>>, missing: V): map<int, V> {
    PutAll(map[], cells, missing)
  }

  lemma {:induction false} PutAllAppend<V>(m: map<int, V>, first: seq<Cell<V>>, second: seq<Cell<V>>, missing: V)
    ensures PutAll(m, first + second, missing) == PutAll(PutAll(m, first, missing), second, missing)
  {
    if second == [] {
      assert first + second == first;
    } else {
      var n := |second| - 1;
      assert (first + second)[..|first| + n] == first + second[..n];
      PutAllAppend(m, first, second[..n], missing);
    }
  }

  lemma {:induction false} LeastOf(s: set<int>) returns (k: int)
    requires exists x :: x in s
    ensures k in s && forall j :: j in s ==> k <= j
    decreases |s|
  {
    var x :| x in s;
    var rest := s - {x};
    k := x;
    if exists y :: y in rest {
      var least := LeastOf(rest);
      k := if least < x then least else x;
    }
    forall j | j in s
      ensures k <= j
    {
      assert j == x || j in rest;
    }
  }

  /** k is the least key that is not below x. */
  predicate IsCeiling<V>(m: map<int, V>, x: int, k: int) {
    k in m && x <= k && forall j :: j in m && x <= j ==> k <= j
  }

  lemma CeilingExists<V>(m: map<int, V>, x: int)
    requires exists k :: k in m && x <= k
    ensures exists k :: k in m && IsCeiling(m, x, k)
  {
    var above := set k | k in m.Keys && x <= k;
    var some :| some in m && x <= some;
    assert some in above;
    var least := LeastOf(above);
    forall j | j in m && x <= j
      ensures least <= j
    {
      assert j in above;
    }
    assert IsCeiling(m, x, least);
  }

  /** `range(x..).next()`: the value under the least key that is not below x. */
  function Lookup<V>(m: map<int, V>, x: int): Option<V> {
    if exists k :: k in m && x <= k then
      CeilingExists(m, x);
      var k :| k in m && IsCeiling(m, x, k);
      Some(m[k])
    else None
  }

  lemma LookupAt<V>(m: map<int, V>, x: int, k: int)
    requires IsCeiling(m, x, k)
    ensures Lookup(m, x) == Some(m[k])
  {
  }

  ghost predicate IsKey<V>(cells: seq<Cell<V>>, k: int) {
    exists i :: 0 <= i < |cells| && (k == cells[i].max || k == cells[i].min - 1)
  }

  lemma IsKeyAppend<V>(cells: seq<Cell<V>>, c: Cell<V>, k: int)
    ensures IsKey(cells + [c], k) <==> IsKey(cells, k) || k == c.max || k == c.min - 1
  {
    var all := cells + [c];
    if IsKey(cells, k) {
      var i :| 0 <= i < |cells| && (k == cells[i].max || k == cells[i].min - 1);
      assert all[i] == cells[i];
    }
    assert all[|cells|] == c;
  }

  /** The keys are the bounds of the ranges. */
  lemma {:induction false} StepMapKeys<V>(cells: seq<Cell<V>>, missing: V, k: int)
    ensures k in StepMap(cells, missing) <==> IsKey(cells, k)
  {
    if cells != [] {
      var n := |cells| - 1;
      StepMapKeys(cells[..n], missing, k);
      IsKeyAppend(cells[..n], cells[n], k);
      assert cells == cells[..n] + [cells[n]];
    }
  }

  /** An upper bound holds its range's value. */
  lemma {:induction false} StepMapAt<V>(cells: seq<Cell<V>>, missing: V, i: nat)
    requires WellFormed(cells) && Separate(cells) && i < |cells|
    ensures cells[i].max in StepMap(cells, missing) && StepMap(cells, missing)[cells[i].max] == cells[i].value
  {
    var n := |cells| - 1;
    if i < n {
      assert cells[..n][i] == cells[i];
      StepMapAt(cells[..n], missing, i);
    }
  }

  /** Any other key holds the value of the gap. */
  lemma {:induction false} StepMapGap<V>(cells: seq<Cell<V>>, missing: V, k: int)
    requires k in StepMap(cells, missing) && forall i :: 0 <= i < |cells| ==> k != cells[i].max
    ensures StepMap(cells, missing)[k] == missing
  {
    var n := |cells| - 1;
    if k in StepMap(cells[..n], missing) {
      StepMapGap(cells[..n], missing, k);
    }
  }

  /** Looking up a point finds the value of the range that holds it. */
  lemma LookupInside<V>(cells: seq<Cell<V>>, missing: V, x: int, i: nat)
    requires WellFormed(cells) && Separate(cells) && i < |cells| && cells[i].Contains(x)
    ensures Lookup(StepMap(cells, missing), x) == Some(cells[i].value)
  {
    var m := StepMap(cells, missing);
    StepMapAt(cells, missing, i);
    forall k | k in m && x <= k
      ensures cells[i].max <= k
    {
      StepMapKeys(cells, missing, k);
      var j :| 0 <= j < |cells| && (k == cells[j].max || k == cells[j].min - 1);
    }
    LookupAt(m, x, cells[i].max);
  }

  /** A point in no range finds the gap's value or nothing. */
  lemma LookupOutside<V>(cells: seq<Cell<V>>, missing: V, x: int)
    requires WellFormed(cells) && forall i :: 0 <= i < |cells| ==> !cells[i].Contains(x)
    ensures Lookup(StepMap(cells, missing), x).Some? ==> Lookup(StepMap(cells, missing), x).value == missing
  {
    var m := StepMap(cells, missing);
    if exists k :: k in m && x <= k {
      CeilingExists(m, x);
      var k :| k in m && IsCeiling(m, x, k);
      forall i | 0 <= i < |cells|
        ensures k != cells[i].max
      {
        assert IsKey(cells, cells[i].min - 1);
        StepMapKeys(cells, missing, cells[i].min - 1);
        assert !cells[i].Contains(x);
      }
      StepMapGap(cells, missing, k);
      LookupAt(m, x, k);
    }
  }

  // ---------- ranges that overlap ----------

  ghost predicate Held<V>(cells: seq<Cell<V>>, x: int) {
    exists i :: 0 <= i < |cells| && cells[i].Contains(x)
  }

  ghost predicate EndsBetween<V>(cells: seq<Cell<V>>, lo: int, hi: int) {
    exists k :: 0 <= k < |cells| && lo <= cells[k].max <= hi
  }

  /** A range begins behind x, and none ends between x and its beginning. */
  ghost predicate Hidden<V>(cells: seq<Cell<V>>, x: int) {
    exists i :: 0 <= i < |cells| && x < cells[i].min && !EndsBetween(cells, x, cells[i].min - 1)
  }

  /** Where a range begins inside another, some range ends right before it. */
  ghost predicate Closed<V>(cells: seq<Cell<V>>) {
    forall i, j :: 0 <= i < |cells| && 0 <= j < |cells| && cells[j].Contains(cells[i].min - 1) ==>
      EndsBetween(cells, cells[i].min - 1, cells[i].min - 1)
  }

  /** The point reads as the value of the i-th range, which holds it. */
  predicate ReadsAs<V(==)>(cells: seq<Cell<V>>, missing: V, x: int, i: nat) {
    i < |cells| && cells[i].Contains(x) && Lookup(StepMap(cells, missing), x) == Some(cells[i].value)
  }

  ghost predicate ReadsHolder<V>(cells: seq<Cell<V>>, missing: V, x: int) {
    exists i :: ReadsAs(cells, missing, x, i)
  }

  /** An upper bound holds the value of a range that ends there: the last one. */
  lemma {:induction false} StepMapEnd<V>(cells: seq<Cell<V>>, missing: V, k: int) returns (i: nat)
    requires WellFormed(cells) && EndsBetween(cells, k, k)
    ensures i < |cells| && cells[i].max == k
    ensures k in StepMap(cells, missing) && StepMap(cells, missing)[k] == cells[i].value
  {
    var n := |cells| - 1;
    i := n;
    if cells[n].max != k {
      var j :| 0 <= j < |cells| && k <= cells[j].max <= k;
      assert cells[..n][j] == cells[j];
      i := StepMapEnd(cells[..n], missing, k);
    }
  }

  /** A hidden point reads as the gap. */
  lemma HiddenReadsMissing<V>(cells: seq<Cell<V>>, missing: V, x: int)
    requires Hidden(cells, x)
    ensures Lookup(StepMap(cells, missing), x) == Some(missing)
  {
    var m := StepMap(cells, missing);
    var i :| 0 <= i < |cells| && x < cells[i].min && !EndsBetween(cells, x, cells[i].min - 1);
    StepMapKeys(cells, missing, cells[i].min - 1);
    CeilingExists(m, x);
    var k :| k in m && IsCeiling(m, x, k);
    StepMapGap(cells, missing, k);
    LookupAt(m, x, k);
  }

  /** A point that is held and not hidden reads as the value of a range that holds it. */
  lemma HeldReadsHolder<V>(cells: seq<Cell<V>>, missing: V, x: int) returns (p: nat)
    requires WellFormed(cells) && Held(cells, x) && !Hidden(cells, x)
    ensures ReadsAs(cells, missing, x, p)
  {
    var m := StepMap(cells, missing);
    var j :| 0 <= j < |cells| && cells[j].Contains(x);
    StepMapKeys(cells, missing, cells[j].max);
    CeilingExists(m, x);
    var k :| k in m && IsCeiling(m, x, k);
    CeilingIsEnd(cells, missing, x, k);
    p := StepMapEnd(cells, missing, k);
    StepMapKeys(cells, missing, cells[p].min - 1);
    LookupAt(m, x, k);
  }

  lemma CeilingIsEnd<V>(cells: seq<Cell<V>>, missing: V, x: int, k: int)
    requires IsCeiling(StepMap(cells, missing), x, k) && !Hidden(cells, x)
    ensures EndsBetween(cells, k, k)
  {
    StepMapKeys(cells, missing, k);
    var i :| 0 <= i < |cells| && (k == cells[i].max || k == cells[i].min - 1);
    if k == cells[i].min - 1 {
      assert EndsBetween(cells, x, cells[i].min - 1);
      var e :| 0 <= e < |cells| && x <= cells[e].max <= cells[i].min - 1;
      StepMapKeys(cells, missing, cells[e].max);
    }
  }

  /** The exact condition at a point: where no range has the value of the gap, a held point reads as
      the value of a range that holds it if and only if it is not hidden. */
  lemma PointReadsExactly<V>(cells: seq<Cell<V>>, missing: V, x: int)
    requires WellFormed(cells) && Held(cells, x) && forall i :: 0 <= i < |cells| ==> cells[i].value != missing
    ensures ReadsHolder(cells, missing, x) <==> !Hidden(cells, x)
  {
    if Hidden(cells, x) {
      HiddenReadsMissing(cells, missing, x);
    } else {
      var p := HeldReadsHolder(cells, missing, x);
    }
  }

  /** No held point is hidden exactly when the ranges are closed. */
  lemma ClosedExactly<V>(cells: seq<Cell<V>>)
    ensures Closed(cells) <==> forall x :: Held(cells, x) ==> !Hidden(cells, x)
  {
    if Closed(cells) {
      forall x | Held(cells, x)
        ensures !Hidden(cells, x)
      {
        ClosedHidesNothing(cells, x);
      }
    }
    if forall x :: Held(cells, x) ==> !Hidden(cells, x) {
      forall i, j | 0 <= i < |cells| && 0 <= j < |cells| && cells[j].Contains(cells[i].min - 1)
        ensures EndsBetween(cells, cells[i].min - 1, cells[i].min - 1)
      {
        assert Held(cells, cells[i].min - 1);
      }
    }
  }

  lemma ClosedHidesNothing<V>(cells: seq<Cell<V>>, x: int)
    requires Closed(cells) && Held(cells, x)
    ensures !Hidden(cells, x)
  {
    if Hidden(cells, x) {
      var j :| 0 <= j < |cells| && cells[j].Contains(x);
      var i :| 0 <= i < |cells| && x < cells[i].min && !EndsBetween(cells, x, cells[i].min - 1);
      assert cells[j].Contains(cells[i].min - 1);
    }
  }

  /** The exact condition for all points: every held point reads as the value of a range that holds
      it if and only if some range ends right before every range that begins inside another. */
  lemma AllReadExactly<V(!new)>(cells: seq<Cell<V>>, missing: V)
    requires WellFormed(cells) && forall i :: 0 <= i < |cells| ==> cells[i].value != missing
    ensures (forall x :: Held(cells, x) ==> ReadsHolder(cells, missing, x)) <==> Closed(cells)
  {
    ClosedExactly(cells);
    forall x | Held(cells, x)
      ensures ReadsHolder(cells, missing, x) <==> !Hidden(cells, x)
    {
      PointReadsExactly(cells, missing, x);
    }
  }

  // ---------- patterns ----------

  /** A bearing range with its gain entries; the last entry counts. */
  datatype Bearing = Bearing(min: int, max: int, gains: seq<real>)

  datatype Elevation = Elevation(min: int, max: int, bearings: seq<Bearing>)

  type BearingMap = map<int, real>
  type ElevationMap = map<int, Option<BearingMap>>

  datatype Pattern = Pattern(gains: ElevationMap, missing: real)

  function LastGain(b: Bearing): real
    requires b.gains != []
  {
    b.gains[|b.gains| - 1]
  }

  function GainCells(bearings: seq<Bearing>): seq<Cell<real>> {
    if bearings == [] then []
    else
      var b := bearings[|bearings| - 1];
      GainCells(bearings[..|bearings| - 1])
      + (if b.gains == [] then [] else [Cell(b.min, b.max, LastGain(b))])
  }

  function ElevationCell(e: Elevation, missing: real): Cell<Option<BearingMap>> {
    Cell(e.min, e.max, Some(StepMap(GainCells(e.bearings), missing)))
  }

  function ElevationCells(elevations: seq<Elevation>, missing: real): seq<Cell<Option<BearingMap>>> {
    seq(|elevations|, i requires 0 <= i < |elevations| => ElevationCell(elevations[i], missing))
  }

  /** A bearing list is accepted when every range is well formed and, once a range carries a gain,
      every later range lies behind the one before it. */
  predicate BearingsAccepted(bearings: seq<Bearing>) {
    forall i :: 0 <= i < |bearings| ==> BearingAccepted(bearings, i)
  }

  predicate BearingAccepted(bearings: seq<Bearing>, i: nat)
    requires i < |bearings|
  {
    && bearings[i].min <= bearings[i].max
    && (i > 0 && GainCells(bearings[..i]) != [] ==> bearings[i - 1].max < bearings[i].min)
    && (bearings[i].gains != [] ==> I16_MIN < bearings[i].min)
  }

  /** Increasing ranges: each well formed, above the least 16-bit number, and behind the one before. */
  predicate IncreasingBearings(bearings: seq<Bearing>) {
    && (forall i :: 0 <= i < |bearings| ==> -32768 < bearings[i].min <= bearings[i].max)
    && forall i :: 0 < i < |bearings| ==> bearings[i - 1].max < bearings[i].min
  }

  /** Every list of increasing ranges is accepted, adjacent ones too. */
  lemma IncreasingBearingsAccepted(bearings: seq<Bearing>)
    requires IncreasingBearings(bearings)
    ensures BearingsAccepted(bearings)
  {
  }

  /** A list of bearings is accepted if and only if no bearing is malformed, carries a gain at the
      least 16-bit number, or begins before the previous one ends after some bearing carried a gain. */
  lemma BearingsAcceptedExactly(bearings: seq<Bearing>)
    ensures BearingsAccepted(bearings) <==> forall i :: 0 <= i < |bearings| ==> !Faulty(bearings, i)
  {
    forall i | 0 <= i < |bearings|
      ensures BearingAccepted(bearings, i) <==> !Faulty(bearings, i)
    {
      if GainCells(bearings[..i]) != [] {
        var j := GainCellBack(bearings[..i], 0);
        assert bearings[j].gains != [];
      } else {
        forall j | 0 <= j < i
          ensures bearings[j].gains == []
        {
          if bearings[j].gains != [] {
            var k := GainCellFrom(bearings[..i], j);
          }
        }
      }
    }
  }

  ghost predicate Faulty(bearings: seq<Bearing>, i: nat)
    requires i < |bearings|
  {
    || bearings[i].max < bearings[i].min
    || (bearings[i].gains != [] && bearings[i].min <= -32768)
    || (i > 0 && bearings[i].min <= bearings[i - 1].max && exists j :: 0 <= j < i && bearings[j].gains != [])
  }

  predicate ElevationAccepted(elevations: seq<Elevation>, i: nat)
    requires i < |elevations|
  {
    && elevations[i].min <= elevations[i].max
    && (i > 0 ==> elevations[i - 1].max < elevations[i].min)
    && BearingsAccepted(elevations[i].bearings)
    && I16_MIN < elevations[i].min
  }

  predicate SectionAccepted(elevations: seq<Elevation>) {
    forall i :: 0 <= i < |elevations| ==> ElevationAccepted(elevations, i)
  }

  /** The ranges of all sections, one section after another. */
  function All(sections: seq<seq<Elevation>>): seq<Elevation> {
    if sections == [] then [] else All(sections[..|sections| - 1]) + sections[|sections| - 1]
  }

  /** The order is checked within each section only. */
  predicate Accepted(sections: seq<seq<Elevation>>) {
    All(sections) != [] && forall s :: 0 <= s < |sections| ==> SectionAccepted(sections[s])
  }

  /** Every set of sections of increasing rows, not all empty, is accepted. */
  lemma IncreasingSectionsAccepted(sections: seq<seq<Elevation>>)
    requires All(sections) != []
    requires forall s :: 0 <= s < |sections| ==> IncreasingRows(sections[s])
    ensures Accepted(sections)
  {
    forall s | 0 <= s < |sections|
      ensures SectionAccepted(sections[s])
    {
      forall i | 0 <= i < |sections[s]|
        ensures ElevationAccepted(sections[s], i)
      {
        IncreasingBearingsAccepted(sections[s][i].bearings);
      }
    }
  }

  predicate IncreasingRows(rows: seq<Elevation>) {
    && (forall i :: 0 <= i < |rows| ==> -32768 < rows[i].min <= rows[i].max && IncreasingBearings(rows[i].bearings))
    && forall i :: 0 < i < |rows| ==> rows[i - 1].max < rows[i].min
  }

  // ---------- building ----------

  /** The gain entries of one bearing range; each replaces the one before. */
  method PutGains(m: BearingMap, b: Bearing, missing: real) returns (r: Result<BearingMap>)
    ensures r == if b.gains == [] then Ok(m)
                 else if b.min <= I16_MIN then Err
                 else Ok(Put(m, Cell(b.min, b.max, LastGain(b)), missing))
  {
    var filled := m;
    for g := 0 to |b.gains|
      invariant g > 0 ==> I16_MIN < b.min
      invariant filled == if g == 0 then m else Put(m, Cell(b.min, b.max, b.gains[g - 1]), missing)
    {
      if b.min <= I16_MIN {
        return Err;
      }
      if b.min - 1 !in filled {
        filled := filled[b.min - 1 := missing];
      }
      filled := filled[b.max := b.gains[g]];
    }
    return Ok(filled);
  }

  lemma BearingAppends(bearings: seq<Bearing>, i: nat, missing: real)
    requires i < |bearings|
    ensures var b := bearings[i];
      var m, m' := StepMap(GainCells(bearings[..i]), missing), StepMap(GainCells(bearings[..i + 1]), missing);
      && m' == (if b.gains == [] then m else Put(m, Cell(b.min, b.max, LastGain(b)), missing))
      && (b.gains == [] ==> GainCells(bearings[..i + 1]) == GainCells(bearings[..i]))
      && (b.gains != [] ==> GainCells(bearings[..i + 1]) != [] && b.max in m')
  {
    var b := bearings[i];
    var cells := GainCells(bearings[..i]);
    assert bearings[..i + 1][..i] == bearings[..i];
    if b.gains == [] {
      assert cells + [] == cells;
    } else {
      assert (cells + [Cell(b.min, b.max, LastGain(b))])[..|cells|] == cells;
    }
  }

  /** The bearing ranges of one elevation. */
  method BuildBearings(bearings: seq<Bearing>, missing: real) returns (r: Result<BearingMap>)
    ensures r == if BearingsAccepted(bearings) then Ok(StepMap(GainCells(bearings), missing)) else Err
  {
    var m: BearingMap := map[];
    var rangeMax, first := 0, true;
    for i := 0 to |bearings|
      invariant first == (i == 0) && (i > 0 ==> rangeMax == bearings[i - 1].max)
      invariant forall k :: 0 <= k < i ==> BearingAccepted(bearings, k)
      invariant m == StepMap(GainCells(bearings[..i]), missing)
      invariant m == map[] <==> GainCells(bearings[..i]) == []
    {
      var b := bearings[i];
      if b.min > b.max {
        assert !BearingAccepted(bearings, i);
        return Err;
      }
      if !first && rangeMax >= b.min && m != map[] {
        assert !BearingAccepted(bearings, i);
        return Err;
      }
      rangeMax, first := b.max, false;
      var filled := PutGains(m, b, missing);
      if filled.Err? {
        assert !BearingAccepted(bearings, i);
        return Err;
      }
      m := filled.value;
      BearingAppends(bearings, i, missing);
    }
    assert bearings[..|bearings|] == bearings;
    return Ok(m);
  }

  lemma ElevationAppends(m: ElevationMap, elevations: seq<Elevation>, i: nat, missing: real)
    requires i < |elevations|
    ensures PutAll(m, ElevationCells(elevations[..i + 1], missing), None)
         == Put(PutAll(m, ElevationCells(elevations[..i], missing), None), ElevationCell(elevations[i], missing), None)
  {
    var cells := ElevationCells(elevations[..i], missing);
    var cell := ElevationCell(elevations[i], missing);
    assert ElevationCells(elevations[..i + 1], missing) == cells + [cell];
    assert (cells + [cell])[..|cells|] == cells;
  }

  lemma ElevationCellsAppend(first: seq<Elevation>, second: seq<Elevation>, missing: real)
    ensures ElevationCells(first + second, missing) == ElevationCells(first, missing) + ElevationCells(second, missing)
  {
  }

  /** The pattern that these ranges build. */
  function Built(elevations: seq<Elevation>, missing: real): Pattern {
    Pattern(StepMap(ElevationCells(elevations, missing), None), missing)
  }

  /** One elevation range enters the map, unless it does not lie behind the one before it. */
  method PutElevation(m: ElevationMap, first: bool, rangeMax: int, e: Elevation, missing: real)
    returns (r: Result<ElevationMap>)
    ensures r.Ok? <==>
      && e.min <= e.max && (first || m == map[] || rangeMax < e.min)
      && BearingsAccepted(e.bearings) && I16_MIN < e.min
    ensures r.Ok? ==> r.value == Put(m, ElevationCell(e, missing), None) && r.value != map[]
  {
    if e.min > e.max || (!first && rangeMax >= e.min && m != map[]) {
      return Err;
    }
    var bearings := BuildBearings(e.bearings, missing);
    if bearings.Err? || e.min <= I16_MIN {
      return Err;
    }
    var filled := m;
    if e.min - 1 !in filled {
      filled := filled[e.min - 1 := None];
    }
    filled := filled[e.max := Some(bearings.value)];
    assert e.max in filled;
    return Ok(filled);
  }

  /** The ranges of one section enter the map, in increasing order. */
  method BuildSection(m: ElevationMap, elevations: seq<Elevation>, missing: real) returns (r: Result<ElevationMap>)
    ensures r.Ok? <==> SectionAccepted(elevations)
    ensures r.Ok? ==> r.value == PutAll(m, ElevationCells(elevations, missing), None)
  {
    var filled := m;
    var rangeMax, first := 0, true;
    assert ElevationCells(elevations[..0], missing) == [];
    for i := 0 to |elevations|
      invariant first == (i == 0) && (i > 0 ==> rangeMax == elevations[i - 1].max && filled != map[])
      invariant forall k :: 0 <= k < i ==> ElevationAccepted(elevations, k)
      invariant filled == PutAll(m, ElevationCells(elevations[..i], missing), None)
    {
      var e := elevations[i];
      var next := PutElevation(filled, first, rangeMax, e, missing);
      assert next.Ok? <==> ElevationAccepted(elevations, i);
      if next.Err? {
        return Err;
      }
      rangeMax, first := e.max, false;
      filled := next.value;
      ElevationAppends(m, elevations, i, missing);
    }
    assert elevations[..|elevations|] == elevations;
    return Ok(filled);
  }

  lemma SectionAppends(sections: seq<seq<Elevation>>, i: nat, missing: real)
    requires i < |sections|
    ensures var m := StepMap(ElevationCells(All(sections[..i]), missing), None);
      StepMap(ElevationCells(All(sections[..i + 1]), missing), None)
      == PutAll(m, ElevationCells(sections[i], missing), None)
  {
    assert sections[..i + 1][..i] == sections[..i];
    ElevationCellsAppend(All(sections[..i]), sections[i], missing);
    PutAllAppend(map[], ElevationCells(All(sections[..i]), missing), ElevationCells(sections[i], missing), None);
  }

  lemma NothingBuilt(elevations: seq<Elevation>, missing: real)
    ensures StepMap(ElevationCells(elevations, missing), None) == map[] <==> elevations == []
  {
    if elevations != [] {
      var cells := ElevationCells(elevations, missing);
      assert cells[|cells| - 1].max in StepMap(cells, None);
    }
  }

  lemma {:induction false} NoSections(sections: seq<seq<Elevation>>)
    ensures (forall s :: 0 <= s < |sections| ==> sections[s] == []) ==> All(sections) == []
  {
    if sections != [] {
      NoSections(sections[..|sections| - 1]);
    }
  }

  /** `AntennaPattern::new` on the parsed ranges of all sections with the wanted name. */
  method Build(sections: seq<seq<Elevation>>, missing: real) returns (r: Result<Pattern>)
    ensures r == if Accepted(sections) then Ok(Built(All(sections), missing)) else Err
    ensures (forall s :: 0 <= s < |sections| ==> sections[s] == []) ==> r.Err?
  {
    var m: ElevationMap := map[];
    for i := 0 to |sections|
      invariant forall s :: 0 <= s < i ==> SectionAccepted(sections[s])
      invariant m == StepMap(ElevationCells(All(sections[..i]), missing), None)
    {
      var filled := BuildSection(m, sections[i], missing);
      if filled.Err? {
        return Err;
      }
      m := filled.value;
      SectionAppends(sections, i, missing);
    }
    assert sections[..|sections|] == sections;
    NothingBuilt(All(sections), missing);
    NoSections(sections);
    if m == map[] {
      return Err;
    }
    return Ok(Pattern(m, missing));
  }

  // ---------- reading ----------

  /** `get_gain`. */
  function GetGain(p: Pattern, bearing: int, elevation: int): real {
    var b := if bearing == 360 then 0 else bearing;
    var row := Lookup(p.gains, elevation);
    if row.Some? && row.value.Some? then
      var gain := Lookup(row.value.value, b);
      if gain.Some? then gain.value else p.missing
    else p.missing
  }

  /** The point lies in the j-th bearing range of the i-th elevation range, which carries a gain. */
  predicate Holds(elevations: seq<Elevation>, i: nat, j: nat, bearing: int, elevation: int) {
    && i < |elevations| && j < |elevations[i].bearings|
    && elevations[i].min <= elevation <= elevations[i].max
    && elevations[i].bearings[j].min <= bearing <= elevations[i].bearings[j].max
    && elevations[i].bearings[j].gains != []
  }

  ghost predicate HeldNowhere(elevations: seq<Elevation>, bearing: int, elevation: int) {
    forall i, j :: !Holds(elevations, i, j, bearing, elevation)
  }

  lemma {:induction false} GainCellsOrdered(bearings: seq<Bearing>)
    requires BearingsAccepted(bearings)
    ensures Ordered(GainCells(bearings))
    ensures GainCells(bearings) != [] ==> forall c :: c in GainCells(bearings) ==> c.max <= bearings[|bearings| - 1].max
  {
    if bearings != [] {
      var n := |bearings| - 1;
      var front := bearings[..n];
      forall k | 0 <= k < n
        ensures BearingAccepted(front, k)
      {
        assert BearingAccepted(bearings, k) && front[..k] == bearings[..k];
      }
      GainCellsOrdered(front);
      assert BearingAccepted(bearings, n);
      var cells := GainCells(front);
      forall i | 0 <= i < |cells|
        ensures cells[i].max < bearings[n].min
      {
        assert cells[i] in cells;
      }
    }
  }

  lemma {:induction false} GainCellFrom(bearings: seq<Bearing>, j: nat) returns (k: nat)
    requires j < |bearings| && bearings[j].gains != []
    ensures k < |GainCells(bearings)|
    ensures GainCells(bearings)[k] == Cell(bearings[j].min, bearings[j].max, LastGain(bearings[j]))
  {
    var n := |bearings| - 1;
    if j == n {
      k := |GainCells(bearings)| - 1;
    } else {
      k := GainCellFrom(bearings[..n], j);
    }
  }

  lemma {:induction false} GainCellBack(bearings: seq<Bearing>, k: nat) returns (j: nat)
    requires k < |GainCells(bearings)|
    ensures j < |bearings| && bearings[j].gains != []
    ensures GainCells(bearings)[k] == Cell(bearings[j].min, bearings[j].max, LastGain(bearings[j]))
  {
    var n := |bearings| - 1;
    if k < |GainCells(bearings[..n])| {
      j := GainCellBack(bearings[..n], k);
    } else {
      j := n;
    }
  }

  /** Every row is a range, with a list of bearings in order. */
  ghost predicate RowsAccepted(elevations: seq<Elevation>) {
    forall i :: 0 <= i < |elevations| ==>
      -32768 < elevations[i].min <= elevations[i].max && BearingsAccepted(elevations[i].bearings)
  }

  /** Besides, no two elevation ranges share a point. */
  ghost predicate Apart(elevations: seq<Elevation>) {
    && RowsAccepted(elevations)
    && forall i, j :: 0 <= i < j < |elevations| ==>
         elevations[i].max < elevations[j].min || elevations[j].max < elevations[i].min
  }

  lemma {:induction false} ElevationsIncrease(elevations: seq<Elevation>, i: nat, j: nat)
    requires SectionAccepted(elevations) && i < j < |elevations|
    ensures elevations[i].max < elevations[j].min
    decreases j
  {
    assert ElevationAccepted(elevations, j) && ElevationAccepted(elevations, j - 1);
    if i < j - 1 {
      ElevationsIncrease(elevations, i, j - 1);
    }
  }

  /** The order check of a section keeps its ranges apart. */
  lemma OneSectionApart(section: seq<Elevation>)
    requires SectionAccepted(section)
    ensures Apart(section)
  {
    forall i | 0 <= i < |section|
      ensures -32768 < section[i].min <= section[i].max && BearingsAccepted(section[i].bearings)
    {
      assert ElevationAccepted(section, i);
    }
    forall i, j | 0 <= i < j < |section|
      ensures section[i].max < section[j].min
    {
      ElevationsIncrease(section, i, j);
    }
  }

  lemma ElevationCellsSeparate(elevations: seq<Elevation>, missing: real)
    requires Apart(elevations)
    ensures var cells := ElevationCells(elevations, missing);
      |cells| == |elevations| && WellFormed(cells) && Separate(cells)
  {
  }

  /** What one row alone gives for a bearing, with 360 degrees read as 0. */
  function RowGain(e: Elevation, missing: real, bearing: int): real {
    var gain := Lookup(StepMap(GainCells(e.bearings), missing), if bearing == 360 then 0 else bearing);
    if gain.Some? then gain.value else missing
  }

  /** A row gives the gain of the bearing range that holds the bearing. */
  lemma RowGainInCell(e: Elevation, missing: real, bearing: int, j: nat)
    requires BearingsAccepted(e.bearings) && j < |e.bearings| && e.bearings[j].gains != []
    requires e.bearings[j].min <= (if bearing == 360 then 0 else bearing) <= e.bearings[j].max
    ensures RowGain(e, missing, bearing) == e.bearings[j].gains[|e.bearings[j].gains| - 1]
  {
    GainCellsOrdered(e.bearings);
    var k := GainCellFrom(e.bearings, j);
    LookupInside(GainCells(e.bearings), missing, if bearing == 360 then 0 else bearing, k);
  }

  /** The gain read at a point is that of the cell that holds it, with 360 degrees read as 0. */
  lemma GainInCell(elevations: seq<Elevation>, missing: real, bearing: int, elevation: int, i: nat, j: nat)
    requires Apart(elevations)
    requires Holds(elevations, i, j, if bearing == 360 then 0 else bearing, elevation)
    ensures var gains := elevations[i].bearings[j].gains;
      GetGain(Built(elevations, missing), bearing, elevation) == gains[|gains| - 1]
  {
    ElevationCellsSeparate(elevations, missing);
    LookupInside(ElevationCells(elevations, missing), None, elevation, i);
    RowGainInCell(elevations[i], missing, bearing, j);
  }

  // ---------- sections that overlap ----------

  lemma {:induction false} AcceptedRows(sections: seq<seq<Elevation>>)
    requires forall s :: 0 <= s < |sections| ==> SectionAccepted(sections[s])
    ensures RowsAccepted(All(sections))
  {
    if sections != [] {
      var n := |sections| - 1;
      AcceptedRows(sections[..n]);
      forall i | 0 <= i < |sections[n]|
        ensures -32768 < sections[n][i].min <= sections[n][i].max && BearingsAccepted(sections[n][i].bearings)
      {
        assert ElevationAccepted(sections[n], i);
      }
    }
  }

  /** The pattern reads at this elevation as the p-th row alone, which holds it. */
  ghost predicate ReadsRow(elevations: seq<Elevation>, missing: real, elevation: int, p: nat) {
    && p < |elevations| && elevations[p].min <= elevation <= elevations[p].max
    && forall bearing :: GetGain(Built(elevations, missing), bearing, elevation) == RowGain(elevations[p], missing, bearing)
  }

  /** A row without any gain but the missing value. */
  ghost predicate Silent(e: Elevation, missing: real) {
    forall bearing :: RowGain(e, missing, bearing) == missing
  }

  lemma HiddenGain(elevations: seq<Elevation>, missing: real, bearing: int, elevation: int)
    requires Hidden(ElevationCells(elevations, missing), elevation)
    ensures GetGain(Built(elevations, missing), bearing, elevation) == missing
  {
    HiddenReadsMissing(ElevationCells(elevations, missing), None, elevation);
  }

  lemma HolderGain(elevations: seq<Elevation>, missing: real, elevation: int) returns (p: nat)
    requires RowsAccepted(elevations)
    requires var cells := ElevationCells(elevations, missing); Held(cells, elevation) && !Hidden(cells, elevation)
    ensures ReadsRow(elevations, missing, elevation, p)
  {
    p := HeldReadsHolder(ElevationCells(elevations, missing), None, elevation);
  }

  /** For every accepted list of sections, however they overlap, and every elevation held by a row:
      the pattern reads as a row that holds it if and only if the elevation is not hidden, or such a
      row has nothing to read; a hidden elevation reads as missing. */
  lemma SectionsReadExactly(sections: seq<seq<Elevation>>, missing: real, elevation: int)
    requires Accepted(sections) && Held(ElevationCells(All(sections), missing), elevation)
    ensures var rows := All(sections);
      var hidden := Hidden(ElevationCells(rows, missing), elevation);
      && (hidden ==> forall bearing :: GetGain(Built(rows, missing), bearing, elevation) == missing)
      && ((exists p :: ReadsRow(rows, missing, elevation, p)) <==>
            !hidden || exists p :: 0 <= p < |rows| && rows[p].min <= elevation <= rows[p].max && Silent(rows[p], missing))
  {
    var rows := All(sections);
    AcceptedRows(sections);
    if Hidden(ElevationCells(rows, missing), elevation) {
      forall bearing
        ensures GetGain(Built(rows, missing), bearing, elevation) == missing
      {
        HiddenGain(rows, missing, bearing, elevation);
      }
      if p :| 0 <= p < |rows| && rows[p].min <= elevation <= rows[p].max && Silent(rows[p], missing) {
        assert ReadsRow(rows, missing, elevation, p);
      }
    } else {
      var p := HolderGain(rows, missing, elevation);
    }
  }

  /** So, where every row has something to read, every held elevation reads as a row that holds it if
      and only if some row ends right before every row that begins inside another. */
  lemma SectionsReadAllExactly(sections: seq<seq<Elevation>>, missing: real)
    requires Accepted(sections) && forall e :: e in All(sections) ==> !Silent(e, missing)
    ensures var rows := All(sections);
      var cells := ElevationCells(rows, missing);
      (forall x :: Held(cells, x) ==> exists p :: ReadsRow(rows, missing, x, p)) <==> Closed(cells)
  {
    var rows := All(sections);
    var cells := ElevationCells(rows, missing);
    ClosedExactly(cells);
    forall x | Held(cells, x)
      ensures (exists p :: ReadsRow(rows, missing, x, p)) <==> !Hidden(cells, x)
    {
      SectionsReadExactly(sections, missing, x);
    }
  }

  /** A point that no cell of any section holds reads as the missing value. */
  lemma GainOutside(elevations: seq<Elevation>, missing: real, bearing: int, elevation: int)
    requires RowsAccepted(elevations)
    requires HeldNowhere(elevations, if bearing == 360 then 0 else bearing, elevation)
    ensures GetGain(Built(elevations, missing), bearing, elevation) == missing
  {
    var cells := ElevationCells(elevations, missing);
    if Hidden(cells, elevation) {
      HiddenGain(elevations, missing, bearing, elevation);
    } else if Held(cells, elevation) {
      var p := HolderGain(elevations, missing, elevation);
      RowGainOutside(elevations, missing, bearing, elevation, p);
    } else {
      LookupOutside(cells, None, elevation);
    }
  }

  lemma RowGainOutside(elevations: seq<Elevation>, missing: real, bearing: int, elevation: int, p: nat)
    requires RowsAccepted(elevations) && p < |elevations| && elevations[p].min <= elevation <= elevations[p].max
    requires HeldNowhere(elevations, if bearing == 360 then 0 else bearing, elevation)
    ensures RowGain(elevations[p], missing, bearing) == missing
  {
    var b := if bearing == 360 then 0 else bearing;
    var bearings := elevations[p].bearings;
    GainCellsOrdered(bearings);
    forall k | 0 <= k < |GainCells(bearings)|
      ensures !GainCells(bearings)[k].Contains(b)
    {
      var j := GainCellBack(bearings, k);
      assert !Holds(elevations, p, j, b, elevation);
    }
    LookupOutside(GainCells(bearings), missing, b);
  }

  /** Two sections that overlap are both accepted, and then points can be lost: in front of a range
      nested in an earlier one, the earlier one's gains read as missing. */
  lemma NestedSectionHides(a: Elevation, b: Elevation, missing: real, bearing: int, elevation: int)
    requires SectionAccepted([a]) && SectionAccepted([b])
    requires a.min <= elevation < b.min && b.max < a.max
    ensures Accepted([[a], [b]])
    ensures GetGain(Built(All([[a], [b]]), missing), bearing, elevation) == missing
  {
    var sections := [[a], [b]];
    assert sections[..1] == [[a]] && [[a]][..0] == [] && All([]) == [];
    assert All([[a]]) == [] + [a];
    assert All(sections) == [a, b];
    assert ElevationAccepted([b], 0);
    var cells := ElevationCells([a, b], missing);
    assert cells[1].min == b.min && !EndsBetween(cells, elevation, cells[1].min - 1);
    HiddenGain([a, b], missing, bearing, elevation);
  }
}

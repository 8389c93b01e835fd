/** What a run of the noise recorder records, said of the arrivals alone: of their times, their
    transmitters and whether more of the transmission follows
    (rust/emane-core/src/noise_recorder.rs:286-375 and 563-571). */
module NoiseArrivals {
  import opened Common
  import opened NoiseSpan
  import opened NoiseRecorder

  // ---------- specification ----------

  function EndTime(a: Arrival): int { a.txTime + a.offset + a.propagation + a.duration }

  /** Bin b is the time from b * binSize up to, not including, (b + 1) * binSize. */
  predicate Touches(binSize: int, a: Arrival, b: int) {
    a.txTime + a.offset + a.propagation < (b + 1) * binSize && b * binSize < EndTime(a)
  }

  /** The arrival ends a transmission of the pair. */
  predicate Ends(a: Arrival, transmitter: nat, antenna: nat) {
    !a.more && transmitter in a.transmitters && a.antenna == antenna
  }

  /** The j-th arrival is the last of the first n that ended a transmission of the pair. */
  ghost predicate LastEnd(arrivals: seq<Arrival>, n: nat, transmitter: nat, antenna: nat, j: nat)
    requires n <= |arrivals|
  {
    && j < n && Ends(arrivals[j], transmitter, antenna)
    && forall i :: j < i < n ==> !Ends(arrivals[i], transmitter, antenna)
  }

  /** Bin b lies behind the last ended transmission of the pair, if there is one. */
  ghost predicate Behind(binSize: int, arrivals: seq<Arrival>, n: nat, transmitter: nat, antenna: nat, b: int)
    requires n <= |arrivals|
  {
    forall j: nat :: j < n && LastEnd(arrivals, n, transmitter, antenna, j) ==> EndTime(arrivals[j]) <= b * binSize
  }

  /** The n-th arrival fills bin b: it touches it, and none of its transmitters filled it before. */
  ghost predicate Fills(binSize: int, arrivals: seq<Arrival>, n: nat, b: int)
    requires n < |arrivals|
  {
    && b >= 1 && Touches(binSize, arrivals[n], b)
    && forall t :: t in arrivals[n].transmitters ==> Behind(binSize, arrivals, n, t, arrivals[n].antenna, b)
  }

  /** The summed power of bin b after the first n arrivals. */
  ghost function Received(binSize: int, arrivals: seq<Arrival>, n: nat, b: int): real
    requires n <= |arrivals|
  {
    if n == 0 then 0.0
    else Received(binSize, arrivals, n - 1, b) + if Fills(binSize, arrivals, n - 1, b) then arrivals[n - 1].power else 0.0
  }

  // ---------- the stored end bins ----------

  /** The stored end bins say of every pair which bins lie behind its last ended transmission. */
  ghost predicate EorExact(binSize: int, eor: Eor, arrivals: seq<Arrival>, n: nat)
    requires n <= |arrivals|
  {
    forall t, antenna, b :: b >= 1 ==> PairExact(binSize, eor, arrivals, n, t, antenna, b)
  }

  ghost predicate PairExact(binSize: int, eor: Eor, arrivals: seq<Arrival>, n: nat, t: nat, antenna: nat, b: int)
    requires n <= |arrivals|
  {
    EorOf(eor, t, antenna) < b <==> Behind(binSize, arrivals, n, t, antenna, b)
  }

  lemma LastEndStep(arrivals: seq<Arrival>, n: nat, m: nat, t: nat, antenna: nat)
    requires n < m == n + 1 <= |arrivals|
    ensures Ends(arrivals[n], t, antenna) ==>
      LastEnd(arrivals, m, t, antenna, n) && forall j: nat :: LastEnd(arrivals, m, t, antenna, j) ==> j == n
    ensures !Ends(arrivals[n], t, antenna) ==>
      forall j: nat :: LastEnd(arrivals, m, t, antenna, j) <==> LastEnd(arrivals, n, t, antenna, j)
  {
  }

  lemma PairStep(binSize: int, eor: Eor, arrivals: seq<Arrival>, n: nat, t: nat, antenna: nat, b: int)
    requires binSize > 0 && n < |arrivals| && b >= 1 && PairExact(binSize, eor, arrivals, n, t, antenna, b)
    ensures var a := arrivals[n];
      var eor' := if a.more then eor else RecordEor(eor, a.transmitters, a.antenna, EndBin(binSize, a));
      PairExact(binSize, eor', arrivals, n + 1, t, antenna, b)
  {
    var a := arrivals[n];
    LastEndStep(arrivals, n, n + 1, t, antenna);
    RecordEorAt(eor, a.transmitters, a.antenna, EndBin(binSize, a), t, antenna);
    EndBinExact(EndTime(a), binSize, b);
  }

  lemma NothingEnded(binSize: int, arrivals: seq<Arrival>)
    ensures EorExact(binSize, map[], arrivals, 0)
  {
    forall t, antenna, b | b >= 1
      ensures PairExact(binSize, map[], arrivals, 0, t, antenna, b)
    {
    }
  }

  lemma EorStep(binSize: int, eor: Eor, arrivals: seq<Arrival>, n: nat)
    requires binSize > 0 && n < |arrivals| && EorExact(binSize, eor, arrivals, n)
    ensures var a := arrivals[n];
      var eor' := if a.more then eor else RecordEor(eor, a.transmitters, a.antenna, EndBin(binSize, a));
      EorExact(binSize, eor', arrivals, n + 1)
  {
    var a, m := arrivals[n], n + 1;
    var eor' := if a.more then eor else RecordEor(eor, a.transmitters, a.antenna, EndBin(binSize, a));
    forall t, antenna, b | b >= 1
      ensures PairExact(binSize, eor', arrivals, m, t, antenna, b)
    {
      PairStep(binSize, eor, arrivals, n, t, antenna, b);
    }
  }

  // ---------- what one arrival applies ----------

  lemma AppliedExactly(st: State, arrivals: seq<Arrival>, n: nat, b: int)
    requires st.binSize > 0 && n < |arrivals| && EorExact(st.binSize, st.eor, arrivals, n)
    ensures var applied := AppliedBy(st, arrivals[n]);
      Fills(st.binSize, arrivals, n, b) <==> applied != [] && Covers(applied[0], b)
  {
    var a := arrivals[n];
    if b >= 1 {
      StartBinExact(Sor(a), st.binSize, b);
      EndBinExact(EndTime(a), st.binSize, b);
      forall t | t in a.transmitters
        ensures EorOf(st.eor, t, a.antenna) < b <==> Behind(st.binSize, arrivals, n, t, a.antenna, b)
      {
        assert PairExact(st.binSize, st.eor, arrivals, n, t, a.antenna, b);
      }
    }
  }

  /** Over every run from a new recorder, for every bin: the log holds, bin by bin, the power of
      exactly the arrivals that touch the bin behind the last ended transmission of each of their
      transmitters on that antenna. */
  lemma {:induction false} RunReceives(st: State, arrivals: seq<Arrival>, n: nat)
    requires st.binSize > 0 && st.eor == map[] && n <= |arrivals|
    ensures var r := Run(st, arrivals[..n]);
      r.Some? ==> Receives(r.value, arrivals, n)
  {
    if n == 0 {
      assert arrivals[..0] == [];
      NothingEnded(st.binSize, arrivals);
    } else if Run(st, arrivals[..n]).Some? {
      assert arrivals[..n][..n - 1] == arrivals[..n - 1];
      RunReceives(st, arrivals, n - 1);
      StepReceives(Run(st, arrivals[..n - 1]).value, arrivals, n - 1);
    }
  }

  /** What the outcome of a run has to do with its first n arrivals. */
  ghost predicate Receives(o: Outcome, arrivals: seq<Arrival>, n: nat)
    requires n <= |arrivals|
  {
    && EorExact(o.st.binSize, o.st.eor, arrivals, n)
    && forall b :: Power(o.log, b) == Received(o.st.binSize, arrivals, n, b)
  }

  lemma StepReceives(o: Outcome, arrivals: seq<Arrival>, n: nat)
    requires o.st.binSize > 0 && n < |arrivals| && Receives(o, arrivals, n) && Step(o.st, arrivals[n]).Some?
    ensures Receives(Outcome(Step(o.st, arrivals[n]).value, o.log + AppliedBy(o.st, arrivals[n])), arrivals, n + 1)
  {
    EorStep(o.st.binSize, o.st.eor, arrivals, n);
    forall b
      ensures Power(o.log + AppliedBy(o.st, arrivals[n]), b) == Received(o.st.binSize, arrivals, n + 1, b)
    {
      AppliedShare(o.st, o.log, arrivals, n, b);
    }
  }

  lemma AppliedShare(st: State, log: seq<Reception>, arrivals: seq<Arrival>, n: nat, b: int)
    requires st.binSize > 0 && n < |arrivals| && EorExact(st.binSize, st.eor, arrivals, n)
    ensures Power(log + AppliedBy(st, arrivals[n]), b)
         == Power(log, b) + if Fills(st.binSize, arrivals, n, b) then arrivals[n].power else 0.0
  {
    var applied := AppliedBy(st, arrivals[n]);
    AppliedExactly(st, arrivals, n, b);
    if applied == [] {
      assert log + applied == log;
    } else {
      PowerAppend(log, applied[0], b);
    }
  }
}

/** The record kept for a neighbor (rust/emane-core/src/neighbor_metric_manager.rs:48-96 and
    334-423). */
module NeighborRecord {
  import opened NeighborMetrics

  // ---------- data rates of one direction ----------

  datatype Rates = Rates(frames: nat, avg: int, min: nat, max: nat) {
    /** One more frame: `update_running_average` and `update_min_max`. */
    function Add(v: nat): Rates {
      Rates(frames + 1, RunningAverage(avg, frames + 1, v),
            if min > v || min == 0 then v else min,
            if max < v || max == 0 then v else max)
    }
  }

  const NO_RATES := Rates(0, 0, 0, 0)

  /** The frame count, running average and bounds of these samples. */
  function RatesOf(samples: seq<nat>): Rates {
    Rates(|samples|, Stored(samples), StoredMin(samples), StoredMax(samples))
  }

  lemma RatesAppend(samples: seq<nat>, v: nat)
    ensures RatesOf(samples + [v]) == RatesOf(samples).Add(v)
  {
    assert (samples + [v])[..|samples|] == samples;
  }

  // ---------- sums of one channel quantity ----------

  datatype Moments = Moments(sum: real, sum2: real) {
    function Add(x: real): Moments { Moments(sum + x, sum2 + Product(x, x)) }
  }

  const NO_MOMENTS := Moments(0.0, 0.0)

  function MomentsOf(samples: seq<real>): Moments {
    Moments(RealSum(samples), SquareSum(samples))
  }

  lemma MomentsAppend(samples: seq<real>, x: real)
    ensures MomentsOf(samples + [x]) == MomentsOf(samples).Add(x)
  {
    assert (samples + [x])[..|samples|] == samples;
  }

  lemma SumOneMore(samples: seq<nat>, v: nat)
    ensures Sum(samples + [v]) == Sum(samples) + v
  {
    assert (samples + [v])[..|samples|] == samples;
  }

  // ---------- the record ----------

  /** What a received frame reports about the channel. */
  datatype Channel = Channel(sinr: real, noiseFloor: real, duration: nat, dataRate: nat)

  /** The samples since the record was last cleared. */
  datatype Samples = Samples(
    sinr: seq<real>, noiseFloor: seq<real>, durations: seq<nat>, rxRates: seq<nat>, txRates: seq<nat>)
  {
    function Received(c: Channel): Samples {
      this.(sinr := sinr + [c.sinr], noiseFloor := noiseFloor + [c.noiseFloor],
            durations := durations + [c.duration], rxRates := rxRates + [c.dataRate])
    }

    function Sent(dataRate: nat): Samples { this.(txRates := txRates + [dataRate]) }
  }

  const NO_SAMPLES := Samples([], [], [], [], [])

  lemma SampleAppends(s: Samples, c: Channel)
    ensures var t := s.Received(c);
      && RatesOf(t.rxRates) == RatesOf(s.rxRates).Add(c.dataRate)
      && MomentsOf(t.sinr) == MomentsOf(s.sinr).Add(c.sinr)
      && MomentsOf(t.noiseFloor) == MomentsOf(s.noiseFloor).Add(c.noiseFloor)
      && Sum(t.durations) == Sum(s.durations) + c.duration
  {
    RatesAppend(s.rxRates, c.dataRate);
    MomentsAppend(s.sinr, c.sinr);
    MomentsAppend(s.noiseFloor, c.noiseFloor);
    SumOneMore(s.durations, c.duration);
  }

  datatype Times = Times(lastRx: nat, lastTx: nat, everReceived: bool)

  /** `NeighborData`; the ghost field collects what its sums, averages and bounds are about. */
  class NeighborData {
    var uuid: seq<int>
    var lastRxSeqNum: nat
    var numRxMissedFrames: nat
    var times: Times
    var rx: Rates
    var tx: Rates
    var rxUtilization: nat
    var sinr: Moments
    var noiseFloor: Moments
    ghost var samples: Samples

    ghost predicate Valid()
      reads this
    {
      && rx == RatesOf(samples.rxRates) && tx == RatesOf(samples.txRates)
      && sinr == MomentsOf(samples.sinr) && noiseFloor == MomentsOf(samples.noiseFloor)
      && rxUtilization == Sum(samples.durations)
      && |samples.sinr| == |samples.noiseFloor| == |samples.durations| == |samples.rxRates|
    }

    ghost function Reception(): Rx
      reads this
    {
      Rx(uuid, lastRxSeqNum, numRxMissedFrames, rx.frames)
    }

    constructor ()
      ensures Valid() && samples == NO_SAMPLES && Reception() == NEW_RX && times == Times(0, 0, false)
    {
      uuid, lastRxSeqNum, numRxMissedFrames, times := NO_UUID, 0, 0, Times(0, 0, false);
      rx, tx, rxUtilization, sinr, noiseFloor := NO_RATES, NO_RATES, 0, NO_MOMENTS, NO_MOMENTS;
      samples := NO_SAMPLES;
    }

    method ClearData()
      modifies this
      ensures Valid() && samples == NO_SAMPLES && times == old(times)
      ensures Reception() == old(Reception()).(missed := 0, frames := 0)
    {
      numRxMissedFrames := 0;
      rx, tx, rxUtilization, sinr, noiseFloor := NO_RATES, NO_RATES, 0, NO_MOMENTS, NO_MOMENTS;
      samples := NO_SAMPLES;
    }

    method UpdateTxActivity(dataRate: nat, now: nat)
      requires Valid()
      modifies this
      ensures Valid() && samples == old(samples).Sent(dataRate)
      ensures Reception() == old(Reception()) && times == old(times).(lastTx := now)
    {
      RatesAppend(samples.txRates, dataRate);
      tx := tx.Add(dataRate);
      times := times.(lastTx := now);
      samples := samples.Sent(dataRate);
    }

    /** `update_rx_activity_data`. The frame count itself is part of the data rates. */
    method CountFrame(f: Frame, now: nat)
      modifies this`uuid, this`lastRxSeqNum, this`numRxMissedFrames, this`times
      ensures Reception().(frames := rx.frames + 1) == Receive(old(Reception()), f)
      ensures times == old(times).(lastRx := now, everReceived := true)
    {
      if f.uuid == uuid {
        if f.sequence > lastRxSeqNum {
          numRxMissedFrames := numRxMissedFrames + (f.sequence - lastRxSeqNum - 1);
          lastRxSeqNum := f.sequence;
        } else if numRxMissedFrames > 0 {
          numRxMissedFrames := numRxMissedFrames - 1;
        }
      } else {
        uuid := f.uuid;
        lastRxSeqNum := f.sequence;
      }
      times := times.(lastRx := now, everReceived := true);
    }

    /** `update_rx_activity_channel_data`. */
    method SampleChannel(c: Channel)
      requires Valid()
      modifies this`rx, this`rxUtilization, this`sinr, this`noiseFloor, this`samples
      ensures Valid() && samples == old(samples).Received(c) && rx == old(rx).Add(c.dataRate)
    {
      SampleAppends(samples, c);
      rxUtilization := rxUtilization + c.duration;
      sinr := sinr.Add(c.sinr);
      noiseFloor := noiseFloor.Add(c.noiseFloor);
      rx := rx.Add(c.dataRate);
      samples := samples.Received(c);
    }

    /** The two reception updates that always follow one another. */
    method UpdateRxActivity(f: Frame, c: Channel, now: nat)
      requires Valid()
      modifies this
      ensures Valid() && samples == old(samples).Received(c)
      ensures Reception() == Receive(old(Reception()), f)
      ensures times == old(times).(lastRx := now, everReceived := true)
    {
      CountFrame(f, now);
      SampleChannel(c);
    }
  }
}

/** Link quality arithmetic (lib/mesh/link_metric.cpp), over the reals. */
module LinkMetric {

  const Q_MIN: real := 0.02
  const Q_MAX: real := 1.0
  const SNR_FLOOR_DB: real := -17.0
  const SNR_GOOD_DB: real := 8.0
  const RSSI_FLOOR_DBM: real := -130.0
  const ALPHA: real := 0.3

  predicate Usable(q: real) { Q_MIN <= q <= Q_MAX }

  function Clamp(v: real, lo: real, hi: real): real
  {
    if v < lo then lo else if v > hi then hi else v
  }

  /** Instantaneous quality of one received frame. */
  function QualityFromRf(snrDb: real, rssiDbm: real): (q: real)
    ensures Usable(q)
  {
    var q := Clamp((snrDb - SNR_FLOOR_DB) / (SNR_GOOD_DB - SNR_FLOOR_DB), 0.0, 1.0);
    var q' := if rssiDbm < RSSI_FLOOR_DBM then q * 0.5 else q;
    Clamp(q', Q_MIN, Q_MAX)
  }

  /** A better signal never lowers the quality, and a weak RSSI never raises it. */
  lemma QualityMonotone(snr1: real, rssi1: real, snr2: real, rssi2: real)
    requires snr1 <= snr2 && rssi1 <= rssi2
    ensures QualityFromRf(snr1, rssi1) <= QualityFromRf(snr2, rssi2)
  {
  }

  /** Linear in the SNR from nothing at -17 dB to 1 at +8 dB, halved below -130 dBm, and
      never under 0.02. */
  lemma QualityExact(snrDb: real, rssiDbm: real)
    ensures rssiDbm >= -130.0 && -16.5 <= snrDb <= 8.0 ==> 25.0 * QualityFromRf(snrDb, rssiDbm) == snrDb + 17.0
    ensures rssiDbm < -130.0 && -16.0 <= snrDb <= 8.0 ==> 50.0 * QualityFromRf(snrDb, rssiDbm) == snrDb + 17.0
    ensures snrDb >= 8.0 ==> QualityFromRf(snrDb, rssiDbm) == if rssiDbm < -130.0 then 0.5 else 1.0
    ensures snrDb <= -16.5 || (rssiDbm < -130.0 && snrDb <= -16.0) ==> QualityFromRf(snrDb, rssiDbm) == 0.02
  {
  }

  /** Running estimate; a negative previous value means there is none yet. */
  function EwmaQuality(prev: real, sample: real): (q: real)
    ensures Usable(q)
    ensures prev < 0.0 && Usable(sample) ==> q == sample
    ensures Usable(prev) && Usable(sample) ==> (prev <= q <= sample || sample <= q <= prev)
  {
    if prev < 0.0 then Clamp(sample, Q_MIN, Q_MAX)
    else Clamp(ALPHA * sample + (1.0 - ALPHA) * prev, Q_MIN, Q_MAX)
  }

  /** Each sample takes three tenths off the distance to it; outside the usable range the
      estimate stops at its end. */
  lemma EwmaExact(prev: real, sample: real)
    ensures Usable(prev) && Usable(sample) ==> EwmaQuality(prev, sample) - sample == 0.7 * (prev - sample)
    ensures prev < 0.0 && sample <= 0.02 ==> EwmaQuality(prev, sample) == 0.02
    ensures prev < 0.0 && sample >= 1.0 ==> EwmaQuality(prev, sample) == 1.0
    ensures prev >= 0.0 && 0.3 * sample + 0.7 * prev <= 0.02 ==> EwmaQuality(prev, sample) == 0.02
    ensures prev >= 0.0 && 0.3 * sample + 0.7 * prev >= 1.0 ==> EwmaQuality(prev, sample) == 1.0
    ensures prev >= 0.0 && 0.02 <= 0.3 * sample + 0.7 * prev <= 1.0 ==>
              10.0 * EwmaQuality(prev, sample) == 3.0 * sample + 7.0 * prev
  {
  }
}

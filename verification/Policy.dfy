/** The per-node power decision (controller/internal/policy/policy.go) and the closed
    loop it forms with a link whose margin follows the power. */
module Policy {
  import opened Basics

  type i8 = x: int | -128 <= x < 128

  /** Conversion to and arithmetic in int8: keep the low eight bits. */
  function Wrap8(x: int): i8
  {
    (x + 128) % 256 - 128
  }

  /** Round to nearest, halves away from zero. */
  function Round(x: real): int
  {
    if x >= 0.0 then (x + 0.5).Floor else -(-x + 0.5).Floor
  }

  function ClampI8(v: i8, lo: i8, hi: i8): i8
  {
    if v < lo then lo else if v > hi then hi else v
  }

  datatype Config = Config(
    marginLow: real, marginHigh: real, maxStep: i8, powerMin: i8, powerMax: i8,
    mobileReserve: real, mobileUpStep: i8, mobileLowerStep: i8, criticality: bool, reserveDb: real)

  datatype Reading = Reading(hasObs: bool, margin: real, soft: bool, mobile: bool, load: real)

  datatype Action = Hold | Lower | Raise | Skip

  datatype Decision = Decision(action: Action, delta: i8, newTarget: i8, margin: real)

  function Shift(cfg: Config, r: Reading): real
  {
    (if cfg.criticality && r.load > 0.0 then cfg.reserveDb * r.load else 0.0)
    + if r.mobile then cfg.mobileReserve else 0.0
  }

  function Low(cfg: Config, r: Reading): real { cfg.marginLow + Shift(cfg, r) }
  function High(cfg: Config, r: Reading): real { cfg.marginHigh + Shift(cfg, r) }
  function Mid(cfg: Config, r: Reading): real { (Low(cfg, r) + High(cfg, r)) / 2.0 }

  function UpStep(cfg: Config, r: Reading): i8
  {
    if r.mobile && cfg.mobileUpStep > 0 then cfg.mobileUpStep else cfg.maxStep
  }

  function DownStep(cfg: Config, r: Reading): i8
  {
    if r.mobile then cfg.mobileLowerStep else cfg.maxStep
  }

  /** The change asked for: up to the step limit, towards the middle of the band. */
  function Delta(cfg: Config, r: Reading): int
  {
    if r.margin < Low(cfg, r) then ClampI8(Wrap8(Round(Mid(cfg, r) - r.margin)), 0, UpStep(cfg, r))
    else if r.margin > High(cfg, r) && !r.soft then
      -(ClampI8(Wrap8(Round(r.margin - Mid(cfg, r))), 0, DownStep(cfg, r)) as int)
    else 0
  }

  function Decide(cfg: Config, r: Reading, cur: i8): Decision
  {
    if !r.hasObs then Decision(Skip, 0, cur, 0.0)
    else if Low(cfg, r) <= r.margin && (r.margin <= High(cfg, r) || r.soft) then Decision(Hold, 0, cur, r.margin)
    else
      var delta := Wrap8(Delta(cfg, r));
      var target := ClampI8(Wrap8(cur + delta), cfg.powerMin, cfg.powerMax);
      if target == cur then Decision(Hold, 0, cur, r.margin)
      else Decision(if target < cur then Lower else Raise, delta, target, r.margin)
  }

  // ------------------------------------------------- the decision written out

  /** The integer nearest to x, halves away from zero. */
  ghost predicate Nearest(n: int, x: real)
  {
    if x >= 0.0 then n as real - 0.5 <= x < n as real + 0.5 else n as real - 0.5 < x <= n as real + 0.5
  }

  /** What int8 keeps of x. */
  ghost predicate Kept8(k: int, x: int)
  {
    -128 <= k < 128 && (x - k) % 256 == 0
  }

  /** d moves the target from cur by `delta`, cut to int8 and then to the limits. */
  ghost predicate Moves(cfg: Config, r: Reading, cur: i8, delta: i8, sum: i8, d: Decision)
  {
    var target := if sum < cfg.powerMin then cfg.powerMin else if sum > cfg.powerMax then cfg.powerMax else sum;
    && Kept8(sum, cur + delta)
    && d == (if target == cur then Decision(Hold, 0, cur, r.margin)
             else if target < cur then Decision(Lower, delta, target, r.margin)
             else Decision(Raise, delta, target, r.margin))
  }

  /** How far both edges of the band lie above the configured ones: the reserve in
      proportion to the routed load, and that of a mobile node. */
  ghost predicate Lifted(cfg: Config, r: Reading, lift: real)
  {
    lift == (if cfg.criticality && r.load > 0.0 then cfg.reserveDb * r.load else 0.0)
            + (if r.mobile then cfg.mobileReserve else 0.0)
  }

  /** Below the band a node is raised by the nearest whole distance to its middle as int8
      keeps it, at least nothing and at most the step, which may be a faster one for a
      mobile node. */
  lemma RaiseExact(cfg: Config, r: Reading, cur: i8, lift: real, want: int, kept: i8, delta: i8, sum: i8)
    requires r.hasObs && Lifted(cfg, r, lift) && r.margin < cfg.marginLow + lift
    requires Nearest(want, (cfg.marginLow + cfg.marginHigh) / 2.0 + lift - r.margin) && Kept8(kept, want)
    requires var step := if r.mobile && cfg.mobileUpStep > 0 then cfg.mobileUpStep else cfg.maxStep;
             delta == if kept < 0 then 0 else if kept > step then step else kept
    requires Kept8(sum, cur + delta)
    ensures Moves(cfg, r, cur, delta, sum, Decide(cfg, r, cur))
  {
    NearestRound((cfg.marginLow + cfg.marginHigh) / 2.0 + lift - r.margin, want);
    OneKept(want, kept);
    UpDelta(cfg, r, lift);
    WrapFits(delta);
    Moved(cfg, r, cur, delta, delta, sum);
  }

  lemma UpDelta(cfg: Config, r: Reading, lift: real)
    requires Lifted(cfg, r, lift) && r.margin < cfg.marginLow + lift
    ensures r.margin < Low(cfg, r)
    ensures var kept := Wrap8(Round((cfg.marginLow + cfg.marginHigh) / 2.0 + lift - r.margin));
            var step := if r.mobile && cfg.mobileUpStep > 0 then cfg.mobileUpStep else cfg.maxStep;
            Delta(cfg, r) == if kept < 0 then 0 else if kept > step then step else kept
  {
    assert Mid(cfg, r) == (cfg.marginLow + cfg.marginHigh) / 2.0 + lift;
  }

  lemma DownDelta(cfg: Config, r: Reading, lift: real)
    requires Lifted(cfg, r, lift) && !r.soft
    requires r.margin >= cfg.marginLow + lift && r.margin > cfg.marginHigh + lift
    ensures r.margin >= Low(cfg, r) && r.margin > High(cfg, r)
    ensures var kept := Wrap8(Round(r.margin - (cfg.marginLow + cfg.marginHigh) / 2.0 - lift));
            var step := if r.mobile then cfg.mobileLowerStep else cfg.maxStep;
            Delta(cfg, r) == -(if kept < 0 then 0 else if kept > step then step else kept)
  {
    assert Mid(cfg, r) == (cfg.marginLow + cfg.marginHigh) / 2.0 + lift;
    assert r.margin - Mid(cfg, r) == r.margin - (cfg.marginLow + cfg.marginHigh) / 2.0 - lift;
  }

  /** Outside the band, the change asked for moves the target. */
  lemma Moved(cfg: Config, r: Reading, cur: i8, asked: int, delta: i8, sum: i8)
    requires r.hasObs && Delta(cfg, r) == asked && delta == Wrap8(asked) && Kept8(sum, cur + delta)
    requires r.margin < Low(cfg, r) || (r.margin > High(cfg, r) && !r.soft)
    ensures Moves(cfg, r, cur, delta, sum, Decide(cfg, r, cur))
  {
    OneKept(cur + delta, sum);
    MovedTo(cfg, r, cur, delta, sum);
  }

  lemma MovedTo(cfg: Config, r: Reading, cur: i8, delta: i8, sum: i8)
    requires r.hasObs && delta == Wrap8(Delta(cfg, r)) && sum == Wrap8(cur + delta)
    requires r.margin < Low(cfg, r) || (r.margin > High(cfg, r) && !r.soft)
    ensures var target := ClampI8(sum, cfg.powerMin, cfg.powerMax);
            Decide(cfg, r, cur) == if target == cur then Decision(Hold, 0, cur, r.margin)
                                   else Decision(if target < cur then Lower else Raise, delta, target, r.margin)
  {
  }

  /** Above the band a measured node is lowered likewise, a mobile one by its own step. */
  lemma TrimExact(cfg: Config, r: Reading, cur: i8, lift: real, want: int, kept: i8, cut: i8, delta: i8, sum: i8)
    requires r.hasObs && Lifted(cfg, r, lift) && !r.soft
    requires r.margin >= cfg.marginLow + lift && r.margin > cfg.marginHigh + lift
    requires Nearest(want, r.margin - (cfg.marginLow + cfg.marginHigh) / 2.0 - lift) && Kept8(kept, want)
    requires var step := if r.mobile then cfg.mobileLowerStep else cfg.maxStep;
             cut == if kept < 0 then 0 else if kept > step then step else kept
    requires delta == (if cut == -128 then -128 else -(cut as int)) && Kept8(sum, cur + delta)
    ensures Moves(cfg, r, cur, delta, sum, Decide(cfg, r, cur))
  {
    NearestRound(r.margin - (cfg.marginLow + cfg.marginHigh) / 2.0 - lift, want);
    OneKept(want, kept);
    TrimBy(cfg, r, cur, lift, cut, delta, sum);
  }

  lemma TrimBy(cfg: Config, r: Reading, cur: i8, lift: real, cut: i8, delta: i8, sum: i8)
    requires r.hasObs && Lifted(cfg, r, lift) && !r.soft
    requires r.margin >= cfg.marginLow + lift && r.margin > cfg.marginHigh + lift
    requires var kept := Wrap8(Round(r.margin - (cfg.marginLow + cfg.marginHigh) / 2.0 - lift));
             var step := if r.mobile then cfg.mobileLowerStep else cfg.maxStep;
             cut == if kept < 0 then 0 else if kept > step then step else kept
    requires delta == (if cut == -128 then -128 else -(cut as int)) && Kept8(sum, cur + delta)
    ensures Moves(cfg, r, cur, delta, sum, Decide(cfg, r, cur))
  {
    DownDelta(cfg, r, lift);
    Moved(cfg, r, cur, -(cut as int), delta, sum);
  }

  /** A node nobody hears is skipped, one in the band held, and so is one whose margin is
      only estimated above it. */
  lemma HoldInBand(cfg: Config, r: Reading, cur: i8, lift: real)
    requires Lifted(cfg, r, lift)
    ensures !r.hasObs ==> Decide(cfg, r, cur) == Decision(Skip, 0, cur, 0.0)
    ensures r.hasObs && r.margin >= cfg.marginLow + lift && (r.soft || r.margin <= cfg.marginHigh + lift) ==>
              Decide(cfg, r, cur) == Decision(Hold, 0, cur, r.margin)
  {
  }

  lemma NearestRound(x: real, n: int)
    ensures Nearest(n, x) <==> n == Round(x)
  {
  }

  lemma OneKept(x: int, k: int)
    ensures Kept8(k, x) <==> k == Wrap8(x)
  {
  }

  /** A loaded or mobile link is treated as a plain one whose band lies higher by the
      reserve for its load and for its mobility. */
  lemma HardenedBand(cfg: Config, r: Reading, cur: i8, lift: real)
    requires Lifted(cfg, r, lift)
    ensures Decide(cfg, r, cur) ==
            Decide(cfg.(marginLow := cfg.marginLow + lift, marginHigh := cfg.marginHigh + lift, criticality := false,
                        mobileReserve := 0.0), r, cur)
  {
    var plain := cfg.(marginLow := cfg.marginLow + lift, marginHigh := cfg.marginHigh + lift, criticality := false,
                      mobileReserve := 0.0);
    assert Mid(plain, r) == Mid(cfg, r);
  }

  // ------------------------------------------------------------ one decision

  /** Steps of at least 1 dB, and ordered limits. */
  ghost predicate SaneSteps(cfg: Config, r: Reading)
  {
    1 <= UpStep(cfg, r) && 1 <= DownStep(cfg, r) && cfg.powerMin <= cfg.powerMax
  }

  ghost predicate InClamp(cfg: Config, cur: i8)
  {
    cfg.powerMin <= cur <= cfg.powerMax
  }

  /** A change always lands inside the power limits. */
  lemma ChangeWithinLimits(cfg: Config, r: Reading, cur: i8)
    requires cfg.powerMin <= cfg.powerMax
    ensures var d := Decide(cfg, r, cur);
            d.action.Lower? || d.action.Raise? ==> InClamp(cfg, d.newTarget) && d.newTarget != cur
    ensures Decide(cfg, r, cur).action.Hold? || Decide(cfg, r, cur).action.Skip? ==>
              Decide(cfg, r, cur).newTarget == cur
  {
  }

  /** Applying a change lowers the power exactly when the target stands above the limits,
      or can still fall and the int8 sum lands below it: by a negative change, or by a
      positive one that wraps. */
  predicate Falls(cfg: Config, cur: i8, delta: int)
  {
    cur > cfg.powerMax || (cur > cfg.powerMin && (cur + delta > 127 || (delta < 0 && cur + delta >= -128)))
  }

  predicate Rises(cfg: Config, cur: i8, delta: int)
  {
    cur < cfg.powerMin || (cur < cfg.powerMax && (cur + delta < -128 || (delta > 0 && cur + delta <= 127)))
  }

  lemma MoveExact(cfg: Config, cur: i8, delta: int)
    requires cfg.powerMin <= cfg.powerMax && -128 <= delta <= 128
    ensures var target := ClampI8(Wrap8(cur + Wrap8(delta)), cfg.powerMin, cfg.powerMax);
            (target < cur <==> Falls(cfg, cur, delta)) && (target > cur <==> Rises(cfg, cur, delta))
  {
    var sum := Wrap8(cur + Wrap8(delta));
    assert sum == Wrap8(cur + delta);
    assert sum == (if cur + delta > 127 then cur + delta - 256
                   else if cur + delta < -128 then cur + delta + 256 else cur + delta);
  }

  /** A link below the band is turned down exactly in the cases of `Falls`, and up exactly
      in those of `Rises`, for every target and step whatever. */
  lemma RaiseDirection(cfg: Config, r: Reading, cur: i8)
    requires r.hasObs && r.margin < Low(cfg, r) && cfg.powerMin <= cfg.powerMax
    ensures Decide(cfg, r, cur).action.Lower? <==> Falls(cfg, cur, Delta(cfg, r))
    ensures Decide(cfg, r, cur).action.Raise? <==> Rises(cfg, cur, Delta(cfg, r))
    ensures UpStep(cfg, r) >= 0 ==>
              (Decide(cfg, r, cur).action.Lower? <==>
                 cur > cfg.powerMax || (cur + Delta(cfg, r) > 127 && cur > cfg.powerMin))
  {
    MoveExact(cfg, cur, Delta(cfg, r));
  }

  /** A measured link above the band is turned up exactly in the cases of `Rises`, and
      down exactly in those of `Falls`. */
  lemma LowerDirection(cfg: Config, r: Reading, cur: i8)
    requires r.hasObs && r.margin >= Low(cfg, r) && r.margin > High(cfg, r) && !r.soft && cfg.powerMin <= cfg.powerMax
    ensures Decide(cfg, r, cur).action.Raise? <==> Rises(cfg, cur, Delta(cfg, r))
    ensures Decide(cfg, r, cur).action.Lower? <==> Falls(cfg, cur, Delta(cfg, r))
    ensures DownStep(cfg, r) >= 0 ==>
              (Decide(cfg, r, cur).action.Raise? <==>
                 cur < cfg.powerMin || (cur + Delta(cfg, r) < -128 && cur < cfg.powerMax))
  {
    MoveExact(cfg, cur, Delta(cfg, r));
  }

  /** An estimated margin lowers the power exactly when it is below the band and the
      raise turns down; for a target up to the maximum that takes a wrap or a negative step. */
  lemma SoftNeverTrims(cfg: Config, r: Reading, cur: i8)
    requires r.soft && cfg.powerMin <= cfg.powerMax
    ensures Decide(cfg, r, cur).action.Lower? <==> r.hasObs && r.margin < Low(cfg, r) && Falls(cfg, cur, Delta(cfg, r))
    ensures cur <= cfg.powerMax && 0 <= UpStep(cfg, r) <= 127 - cur ==> !Decide(cfg, r, cur).action.Lower?
  {
    if r.hasObs && r.margin < Low(cfg, r) { RaiseDirection(cfg, r, cur); }
  }

  /** The settings the controller starts from. */
  const DEFAULT: Config := Config(6.0, 12.0, 3, -9, 22, 6.0, 5, 1, false, 8.0)

  /** With the default steps and limits, a target inside the limits never moves the
      wrong way, wherever the band lies. */
  lemma DefaultDirections(cfg: Config, r: Reading, cur: i8)
    requires cfg == DEFAULT.(marginLow := cfg.marginLow, marginHigh := cfg.marginHigh,
                             criticality := cfg.criticality, reserveDb := cfg.reserveDb)
    requires r.hasObs && InClamp(cfg, cur)
    ensures r.margin < Low(cfg, r) ==> !Decide(cfg, r, cur).action.Lower?
    ensures r.margin >= Low(cfg, r) && r.margin > High(cfg, r) ==> !Decide(cfg, r, cur).action.Raise?
  {
    if r.margin < Low(cfg, r) {
      RaiseDirection(cfg, r, cur);
    } else if r.margin > High(cfg, r) && !r.soft {
      LowerDirection(cfg, r, cur);
    }
  }

  /** A target seeded outside the limits moves the wrong way under the default settings:
      a weak link at 30 dBm, measured or estimated, is turned down, and a loud one at
      -20 dBm is turned up. */
  lemma SeedOutsideLimits(soft: bool, load: real)
    ensures var d := Decide(DEFAULT, Reading(true, 0.0, soft, false, load), 30);
            d.action.Lower? && d.newTarget == 22
    ensures var d := Decide(DEFAULT, Reading(true, 40.0, false, false, load), -20);
            d.action.Raise? && d.newTarget == -9
  {
  }

  /** A step of 120 on the command line: a weak link at full power is turned down to the
      minimum by the wrap. */
  lemma WrapTurnsDown(load: real)
    ensures var cfg, r := DEFAULT.(maxStep := 120), Reading(true, -100.0, false, false, load);
            && InClamp(cfg, 22) && r.margin < Low(cfg, r)
            && Decide(cfg, r, 22).action.Lower? && Decide(cfg, r, 22).newTarget == -9
  {
    var cfg, r := DEFAULT.(maxStep := 120), Reading(true, -100.0, false, false, load);
    assert Round(Mid(cfg, r) - r.margin) == 109 && Delta(cfg, r) == 109;
  }

  /** A step of 200 is cut to -56 by the conversion to int8, and turns a weak link down. */
  lemma NegativeStepTurnsDown(load: real)
    ensures var cfg, r := DEFAULT.(maxStep := Wrap8(200)), Reading(true, 0.0, false, false, load);
            Decide(cfg, r, 22).action.Lower? && Decide(cfg, r, 22).newTarget == -9
  {
    var cfg, r := DEFAULT.(maxStep := Wrap8(200)), Reading(true, 0.0, false, false, load);
    assert Round(Mid(cfg, r) - r.margin) == 9 && Delta(cfg, r) == -56;
  }

  /** Ill-placed bands are within reach of the command line, and a link may be weaker than
      any band: the wanted 209 or 155 dB is negative in int8, and nothing is done. */
  lemma WrapStalls(load: real)
    ensures var cfg, r := DEFAULT, Reading(true, -200.0, false, false, load);
            r.margin < Low(cfg, r) && Decide(cfg, r, 0).action.Hold?
    ensures var cfg, r := DEFAULT.(marginLow := 150.0, marginHigh := 160.0), Reading(true, 0.0, false, false, load);
            r.margin < Low(cfg, r) && Decide(cfg, r, 0).action.Hold?
  {
  }

  /** A managed node is held exactly when it is in the band, an estimated margin above it
      included, or the change neither falls nor rises. */
  lemma HoldExact(cfg: Config, r: Reading, cur: i8)
    requires r.hasObs && cfg.powerMin <= cfg.powerMax
    ensures Decide(cfg, r, cur).action.Hold? <==>
              || (Low(cfg, r) <= r.margin && (r.margin <= High(cfg, r) || r.soft))
              || (!Falls(cfg, cur, Delta(cfg, r)) && !Rises(cfg, cur, Delta(cfg, r)))
  {
    MoveExact(cfg, cur, Delta(cfg, r));
  }

  // ---------------------------------------------------------- the closed loop

  /** Margin and power of a link that gains 1 dB of margin per dBm. */
  datatype Loop = Loop(margin: real, power: i8)

  /** Reading the loop presents to the policy: measured, everything else fixed. */
  function At(r: Reading, s: Loop): Reading
  {
    r.(hasObs := true, soft := false, margin := s.margin)
  }

  function Next(cfg: Config, r: Reading, s: Loop): Loop
  {
    var d := Decide(cfg, At(r, s), s.power);
    Loop(s.margin + (d.newTarget - s.power) as real, d.newTarget)
  }

  function Iterate(cfg: Config, r: Reading, s: Loop, n: nat): Loop
    decreases n
  {
    if n == 0 then s else Iterate(cfg, r, Next(cfg, r, s), n - 1)
  }

  function Abs(x: real): real { if x < 0.0 then -x else x }

  function Distance(cfg: Config, r: Reading, s: Loop): real
  {
    Abs(s.margin - Mid(cfg, r))
  }

  ghost predicate Settled(cfg: Config, r: Reading, s: Loop)
  {
    Decide(cfg, At(r, s), s.power).action.Hold?
  }

  predicate InBand(cfg: Config, r: Reading, s: Loop)
  {
    Low(cfg, r) <= s.margin <= High(cfg, r)
  }

  /** The change that would bring the margin to the middle of the band, to the nearest dB. */
  function Want(cfg: Config, r: Reading, s: Loop): int
  {
    Round(Distance(cfg, r, s))
  }

  /** How far the power can still move towards the band. */
  function Room(cfg: Config, r: Reading, s: Loop): int
  {
    if s.margin < Low(cfg, r) then cfg.powerMax - s.power else s.power - cfg.powerMin
  }

  /** No change on the way to the band leaves int8: the step does not even from the limit,
      or the wanted change does not. */
  ghost predicate Fits(cfg: Config, r: Reading, s: Loop)
  {
    && (s.margin < Low(cfg, r) ==> cfg.powerMax + UpStep(cfg, r) <= 127 || s.power + Wrap8(Want(cfg, r, s)) <= 127)
    && (s.margin > High(cfg, r) ==> cfg.powerMin - DownStep(cfg, r) >= -128 || s.power - Wrap8(Want(cfg, r, s)) >= -128)
  }

  ghost predicate LoopOk(cfg: Config, r: Reading, s: Loop)
  {
    SaneSteps(cfg, r) && InClamp(cfg, s.power) && Low(cfg, r) <= High(cfg, r) && Fits(cfg, r, s)
  }

  function StepTo(cfg: Config, r: Reading, s: Loop): int
  {
    if s.margin < Low(cfg, r) then UpStep(cfg, r) else DownStep(cfg, r)
  }

  /** The size of the next change: the wanted one in int8, the step or the room left,
      whichever is least. */
  function Move(cfg: Config, r: Reading, s: Loop): int
  {
    if InBand(cfg, r, s) then 0
    else Min(Min(Max(Wrap8(Want(cfg, r, s)), 0), StepTo(cfg, r, s)), Room(cfg, r, s))
  }

  lemma ShiftFixed(cfg: Config, r: Reading, s: Loop)
    ensures Low(cfg, At(r, s)) == Low(cfg, r) && High(cfg, At(r, s)) == High(cfg, r)
    ensures Mid(cfg, At(r, s)) == Mid(cfg, r)
    ensures UpStep(cfg, At(r, s)) == UpStep(cfg, r) && DownStep(cfg, At(r, s)) == DownStep(cfg, r)
  {
  }

  lemma WrapFits(x: int)
    requires -128 <= x < 128
    ensures Wrap8(x) == x
  {
  }

  /** Below the band the power rises by exactly that much, at any distance. */
  lemma UpMove(cfg: Config, r: Reading, s: Loop)
    requires LoopOk(cfg, r, s) && s.margin < Low(cfg, r)
    ensures var k := Move(cfg, r, s);
            k >= 0 && Next(cfg, r, s) == Loop(s.margin + k as real, s.power + k) && (Settled(cfg, r, s) <==> k == 0)
  {
    ShiftFixed(cfg, r, s);
    var delta := Min(Max(Wrap8(Want(cfg, r, s)), 0), UpStep(cfg, r));
    assert Distance(cfg, r, s) == Mid(cfg, r) - s.margin;
    assert Delta(cfg, At(r, s)) == delta;
    WrapFits(delta);
    WrapFits(s.power + delta);
  }

  lemma DownMove(cfg: Config, r: Reading, s: Loop)
    requires LoopOk(cfg, r, s) && s.margin > High(cfg, r)
    ensures var k := Move(cfg, r, s);
            k >= 0 && Next(cfg, r, s) == Loop(s.margin - k as real, s.power - k) && (Settled(cfg, r, s) <==> k == 0)
  {
    ShiftFixed(cfg, r, s);
    var delta := -Min(Max(Wrap8(Want(cfg, r, s)), 0), DownStep(cfg, r));
    assert Distance(cfg, r, s) == s.margin - Mid(cfg, r);
    assert Delta(cfg, At(r, s)) == delta;
    WrapFits(delta);
    WrapFits(s.power + delta);
  }

  /** In the band, or stopped by a power limit. */
  ghost predicate AtRest(cfg: Config, r: Reading, s: Loop)
  {
    InBand(cfg, r, s) || Room(cfg, r, s) == 0
  }

  /** The wanted change is lost: it rounds to nothing, or int8 makes nothing of it. */
  ghost predicate Stalled(cfg: Config, r: Reading, s: Loop)
  {
    !InBand(cfg, r, s) && Wrap8(Want(cfg, r, s)) <= 0
  }

  /** One cycle holds exactly at rest or stalled.  Otherwise the power moves by at least
      1 dB and at most the step towards the band, and the margin with it, never more than
      half a dB past the middle. */
  lemma OneCycle(cfg: Config, r: Reading, s: Loop)
    requires LoopOk(cfg, r, s)
    ensures Settled(cfg, r, s) <==> AtRest(cfg, r, s) || Stalled(cfg, r, s)
    ensures Settled(cfg, r, s) ==> Next(cfg, r, s) == s
    ensures !Settled(cfg, r, s) ==>
              var k := Move(cfg, r, s);
              && 1 <= k <= StepTo(cfg, r, s) && k <= Want(cfg, r, s) && k <= Room(cfg, r, s)
              && Next(cfg, r, s) == if s.margin < Low(cfg, r) then Loop(s.margin + k as real, s.power + k)
                                    else Loop(s.margin - k as real, s.power - k)
    ensures !Settled(cfg, r, s) && s.margin < Low(cfg, r) ==>
              s.margin + 1.0 <= Next(cfg, r, s).margin <= Mid(cfg, r) + 0.5
    ensures !Settled(cfg, r, s) && s.margin > High(cfg, r) ==>
              Mid(cfg, r) - 0.5 <= Next(cfg, r, s).margin <= s.margin - 1.0
  {
    ShiftFixed(cfg, r, s);
    WantBounds(Distance(cfg, r, s));
    if s.margin < Low(cfg, r) {
      UpMove(cfg, r, s);
    } else if s.margin > High(cfg, r) {
      DownMove(cfg, r, s);
    }
    WrapBelow(Want(cfg, r, s));
  }

  lemma WantBounds(x: real)
    requires x >= 0.0
    ensures Round(x) >= 0 && x - 0.5 < Round(x) as real <= x + 0.5
  {
  }

  lemma WrapBelow(x: int)
    requires x >= 0
    ensures Wrap8(x) <= x
    ensures x < 128 ==> Wrap8(x) == x
  {
  }

  // ---------------------------------------------------------- where it ends

  function HalfBand(cfg: Config, r: Reading): real { (High(cfg, r) - Low(cfg, r)) / 2.0 }

  /** Known beforehand: the wanted change fits int8, or what is left of it there uses up
      the room or still brings the margin into the band. */
  ghost predicate Reaches(cfg: Config, r: Reading, s: Loop)
  {
    || InBand(cfg, r, s) || Want(cfg, r, s) < 128
    || Wrap8(Want(cfg, r, s)) >= Room(cfg, r, s) || Room(cfg, r, s) == 0
    || Distance(cfg, r, s) - Wrap8(Want(cfg, r, s)) as real <= HalfBand(cfg, r)
  }

  ghost predicate HalfInteger(x: real)
  {
    (x + 0.5).Floor as real == x + 0.5
  }

  /** A band narrower than 1 dB that whole steps miss by half a dB on either side. */
  ghost predicate Straddles(cfg: Config, r: Reading, s: Loop)
  {
    && High(cfg, r) - Low(cfg, r) < 1.0 && !InBand(cfg, r, s) && HalfInteger(Distance(cfg, r, s))
    && Want(cfg, r, s) < 128 && Want(cfg, r, s) <= Room(cfg, r, s)
  }

  /** As near as whole steps get: at rest, or less than half a dB from the middle of the
      band. */
  ghost predicate Arrived(cfg: Config, r: Reading, s: Loop)
  {
    AtRest(cfg, r, s) || Distance(cfg, r, s) < 0.5
  }

  lemma BandDistance(cfg: Config, r: Reading, s: Loop)
    requires Low(cfg, r) <= High(cfg, r)
    ensures InBand(cfg, r, s) <==> Distance(cfg, r, s) <= HalfBand(cfg, r)
    ensures s.margin < Low(cfg, r) ==> Distance(cfg, r, s) == Mid(cfg, r) - s.margin
    ensures s.margin > High(cfg, r) ==> Distance(cfg, r, s) == s.margin - Mid(cfg, r)
  {
  }

  /** Whole steps that stop short of the middle take as much off the wanted change. */
  lemma WantLess(x: real, k: int)
    requires 0 <= k < Round(x) && x >= 0.0
    ensures x - k as real >= 0.5 && Round(x - k as real) == Round(x) - k
    ensures HalfInteger(x - k as real) <==> HalfInteger(x)
  {
    var y := x + 0.5;
    assert (y - k as real).Floor == y.Floor - k;
  }

  /** The last step leaves at most half a dB, and exactly half only from a half. */
  lemma WantAll(x: real, k: int)
    requires k == Round(x) && x >= 0.0
    ensures Abs(x - k as real) <= 0.5 && Round(Abs(x - k as real)) <= 1
    ensures HalfInteger(Abs(x - k as real)) ==> HalfInteger(x) && Abs(x - k as real) == 0.5
    ensures HalfInteger(x) ==> Abs(x - k as real) == 0.5 && HalfInteger(0.5) && Round(0.5) == 1
  {
  }

  lemma WrapLess(want: int, k: int)
    requires 0 <= k <= Wrap8(want) && 0 <= want
    ensures Wrap8(want - k) == Wrap8(want) - k && (want - k < 128 <==> want < 128)
  {
  }

  /** A move short of the middle stays on its side of the band and takes as much off
      distance, wanted change and room. */
  lemma ShortMove(cfg: Config, r: Reading, s: Loop)
    requires LoopOk(cfg, r, s) && !Settled(cfg, r, s) && Move(cfg, r, s) < Want(cfg, r, s)
    ensures var t, k := Next(cfg, r, s), Move(cfg, r, s);
            && Distance(cfg, r, t) == Distance(cfg, r, s) - k as real && Want(cfg, r, t) == Want(cfg, r, s) - k
            && Wrap8(Want(cfg, r, t)) == Wrap8(Want(cfg, r, s)) - k
            && (Want(cfg, r, t) < 128 <==> Want(cfg, r, s) < 128)
            && (HalfInteger(Distance(cfg, r, t)) <==> HalfInteger(Distance(cfg, r, s)))
            && (!InBand(cfg, r, t) ==>
                Room(cfg, r, t) == Room(cfg, r, s) - k && (t.margin < Low(cfg, r) <==> s.margin < Low(cfg, r)))
  {
    OneCycle(cfg, r, s);
    BandDistance(cfg, r, s);
    WantLess(Distance(cfg, r, s), Move(cfg, r, s));
    WrapLess(Want(cfg, r, s), Move(cfg, r, s));
  }

  /** The last move ends within half a dB of the middle, with room to go back. */
  lemma FullMove(cfg: Config, r: Reading, s: Loop)
    requires LoopOk(cfg, r, s) && !Settled(cfg, r, s) && Move(cfg, r, s) == Want(cfg, r, s)
    ensures var t, k := Next(cfg, r, s), Move(cfg, r, s);
            && Distance(cfg, r, t) == Abs(Distance(cfg, r, s) - k as real) <= 0.5 && Want(cfg, r, t) <= 1
            && Want(cfg, r, s) < 128 && Want(cfg, r, s) <= Room(cfg, r, s)
            && (HalfInteger(Distance(cfg, r, t)) <==> HalfInteger(Distance(cfg, r, s)))
            && (HalfInteger(Distance(cfg, r, t)) ==> Distance(cfg, r, t) == 0.5 && Want(cfg, r, t) == 1)
            && (HalfInteger(Distance(cfg, r, t)) && !InBand(cfg, r, t) ==> Room(cfg, r, t) >= 1)
  {
    OneCycle(cfg, r, s);
    BandDistance(cfg, r, s);
    BandDistance(cfg, r, Next(cfg, r, s));
    WantAll(Distance(cfg, r, s), Move(cfg, r, s));
    WrapBelow(Want(cfg, r, s));
  }

  /** One cycle of a loop that moves decides nothing about where it ends. */
  lemma EndKept(cfg: Config, r: Reading, s: Loop)
    requires LoopOk(cfg, r, s) && !Settled(cfg, r, s)
    ensures Reaches(cfg, r, Next(cfg, r, s)) <==> Reaches(cfg, r, s)
    ensures Straddles(cfg, r, Next(cfg, r, s)) <==> Straddles(cfg, r, s)
    ensures LoopOk(cfg, r, Next(cfg, r, s))
  {
    OneCycle(cfg, r, s);
    BandDistance(cfg, r, s);
    BandDistance(cfg, r, Next(cfg, r, s));
    if Move(cfg, r, s) < Want(cfg, r, s) {
      ShortMove(cfg, r, s);
    } else {
      FullMove(cfg, r, s);
    }
  }

  /** A loop that holds has arrived, or is stalled far off. */
  lemma EndNow(cfg: Config, r: Reading, s: Loop)
    requires LoopOk(cfg, r, s)
    ensures Settled(cfg, r, s) ==> (Arrived(cfg, r, s) <==> Reaches(cfg, r, s))
    ensures High(cfg, r) - Low(cfg, r) >= 1.0 ==> (Arrived(cfg, r, s) <==> AtRest(cfg, r, s))
    ensures Straddles(cfg, r, s) ==> !Settled(cfg, r, s)
  {
    OneCycle(cfg, r, s);
    BandDistance(cfg, r, s);
    WantBounds(Distance(cfg, r, s));
    WrapBelow(Want(cfg, r, s));
  }

  /** Every move brings the loop at least 1 dB nearer until it is within 1.5 dB, and from
      there one more settles it. */
  lemma Nearer(cfg: Config, r: Reading, s: Loop)
    requires LoopOk(cfg, r, s) && !Settled(cfg, r, s)
    ensures 0.5 <= Distance(cfg, r, s)
    ensures Distance(cfg, r, s) >= 1.5 ==> Distance(cfg, r, Next(cfg, r, s)) <= Distance(cfg, r, s) - 1.0
    ensures Distance(cfg, r, s) < 1.5 && !Straddles(cfg, r, s) ==> Settled(cfg, r, Next(cfg, r, s))
  {
    OneCycle(cfg, r, s);
    WantBounds(Distance(cfg, r, s));
    if Move(cfg, r, s) < Want(cfg, r, s) {
      ShortMove(cfg, r, s);
    } else {
      FullMove(cfg, r, s);
      if Distance(cfg, r, s) < 1.5 { SettlesNext(cfg, r, s); }
    }
  }

  lemma SettlesNext(cfg: Config, r: Reading, s: Loop)
    requires LoopOk(cfg, r, s) && !Settled(cfg, r, s) && Move(cfg, r, s) == Want(cfg, r, s) && Distance(cfg, r, s) < 1.5
    ensures !Straddles(cfg, r, s) ==> Settled(cfg, r, Next(cfg, r, s))
  {
    var t := Next(cfg, r, s);
    EndKept(cfg, r, s);
    FullMove(cfg, r, s);
    OneCycle(cfg, r, t);
    BandDistance(cfg, r, t);
  }

  /** e is where the loop from s stays: arrived exactly when s says so, in the band
      or at a limit if the band is at least 1 dB wide. */
  ghost predicate EndsAt(cfg: Config, r: Reading, s: Loop, e: Loop)
  {
    && Settled(cfg, r, e) && Next(cfg, r, e) == e && (Arrived(cfg, r, e) <==> Reaches(cfg, r, s))
    && (High(cfg, r) - Low(cfg, r) >= 1.0 ==> (AtRest(cfg, r, e) <==> Reaches(cfg, r, s)))
  }

  lemma EndsHere(cfg: Config, r: Reading, s: Loop)
    requires LoopOk(cfg, r, s) && Settled(cfg, r, s)
    ensures EndsAt(cfg, r, s, s)
  {
    OneCycle(cfg, r, s);
    EndNow(cfg, r, s);
  }

  lemma EndsLater(cfg: Config, r: Reading, s: Loop, e: Loop)
    requires LoopOk(cfg, r, s) && !Settled(cfg, r, s) && EndsAt(cfg, r, Next(cfg, r, s), e)
    ensures EndsAt(cfg, r, s, e)
  {
    EndKept(cfg, r, s);
  }

  /** The loop reaches Hold after at most |margin - mid| + 1/2 changes and stays there,
      unless it straddles a band too narrow for it.  It then has arrived, in the band, at
      a power limit or within half a dB, exactly when the start says so. */
  lemma {:induction false} Converges(cfg: Config, r: Reading, s: Loop) returns (n: nat)
    requires LoopOk(cfg, r, s) && !Straddles(cfg, r, s)
    ensures n as real <= Distance(cfg, r, s) + 0.5
    ensures EndsAt(cfg, r, s, Iterate(cfg, r, s, n))
    decreases Distance(cfg, r, s).Floor
  {
    if Settled(cfg, r, s) {
      n := 0;
      EndsHere(cfg, r, s);
    } else {
      var t := Next(cfg, r, s);
      EndKept(cfg, r, s);
      Nearer(cfg, r, s);
      if Distance(cfg, r, s) < 1.5 {
        n := 1;
        EndsHere(cfg, r, t);
        assert Iterate(cfg, r, s, 1) == Iterate(cfg, r, t, 0);
      } else {
        var k := Converges(cfg, r, t);
        n := k + 1;
      }
      EndsLater(cfg, r, s, Iterate(cfg, r, s, n));
    }
  }

  /** And a loop that straddles its band never holds. */
  lemma {:induction false} NeverSettles(cfg: Config, r: Reading, s: Loop, n: nat)
    requires LoopOk(cfg, r, s) && Straddles(cfg, r, s)
    ensures !Settled(cfg, r, Iterate(cfg, r, s, n))
    decreases n
  {
    EndNow(cfg, r, s);
    if n > 0 {
      EndKept(cfg, r, s);
      NeverSettles(cfg, r, Next(cfg, r, s), n - 1);
    }
  }

  /** A band of no width on a half decibel is such a band. */
  lemma NarrowBandOscillates(r: Reading, n: nat)
    requires !r.mobile
    ensures !Settled(DEFAULT.(marginLow := 9.0, marginHigh := 9.0), r,
                     Iterate(DEFAULT.(marginLow := 9.0, marginHigh := 9.0), r, Loop(8.5, 0), n))
  {
    NeverSettles(DEFAULT.(marginLow := 9.0, marginHigh := 9.0), r, Loop(8.5, 0), n);
  }
}

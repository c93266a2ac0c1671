/** The plugin's settings, normalised once at start-up from the values read
    out of its configuration file. Reading the file and parsing the numbers
    happen before these functions; they receive the numbers. Float
    arithmetic is modelled over the reals. */
module Config {
  import SkillGate
  import opened RecordStream

  datatype Settings = Settings(
    enableSleepTimeRequirement: bool,
    percentExpRequiresSleep: real,
    minDaysSleepNeeded: real,
    interuptedPenaltyPercent: real)

  function Abs(x: real): (a: real)
    ensures 0.0 <= a && (a == x || a == -x)
  {
    if x < 0.0 then -x else x
  }

  /** `fminf(1, fabsf(x))`: a fraction setting, sign dropped, capped at one. */
  function ClampFraction(x: real): (r: real)
    ensures 0.0 <= r <= 1.0
    ensures r == 1.0 <==> (x <= -1.0 || 1.0 <= x)
    ensures -1.0 <= x <= 1.0 ==> r == Abs(x)
  {
    if Abs(x) < 1.0 then Abs(x) else 1.0
  }

  /** `fabsf((float)hours) / 24`: the sleep requirement in days. The hours
      arrive as the unsigned integer GetPrivateProfileIntA returns, so the
      absolute value never changes them. */
  function HoursToDays(hours: u32): (days: real)
    ensures 0.0 <= days
    ensures days * 24.0 == hours as real
  {
    Abs(hours as real) / 24.0
  }

  /** Storing the unsigned integer read into the one-bit field
      `enableSleepTimeRequirement` keeps its lowest bit. */
  function LowBit(raw: u32): (b: bool)
    ensures b <==> (raw as bv32) & 1 == 1
  {
    OddHasLowBitSet(raw);
    raw % 2 == 1
  }

  /** An unsigned 32-bit value is odd exactly when its lowest bit is set. */
  lemma OddHasLowBitSet(raw: u32)
    ensures raw % 2 == 1 <==> (raw as bv32) & 1 == 1
  {
  }

  /** The settings as SKSEPluginLoad leaves them, from the integers and
      numbers read for the four keys. */
  function Normalise(enableRaw: u32, minHoursRaw: u32, percentRaw: real, penaltyRaw: real): (s: Settings)
    ensures 0.0 <= s.percentExpRequiresSleep <= 1.0
    ensures 0.0 <= s.interuptedPenaltyPercent <= 1.0
    ensures s.minDaysSleepNeeded * 24.0 == minHoursRaw as real
    ensures s.enableSleepTimeRequirement <==> (enableRaw as bv32) & 1 == 1
  {
    Settings(LowBit(enableRaw), ClampFraction(percentRaw), HoursToDays(minHoursRaw), ClampFraction(penaltyRaw))
  }

  /** With the normalised fraction, a gated call never forwards a negative
      amount nor more than it was given, and the withheld share is what the
      forwarded share leaves of the points. */
  lemma GateWithNormalisedSettings(enableRaw: u32, minHoursRaw: u32, percentRaw: real, penaltyRaw: real,
                                   first: SkillGate.SkillId, last: SkillGate.SkillId, skill: SkillGate.SkillId,
                                   actor: SkillGate.ActorHandle, player: SkillGate.ActorHandle, points: real)
    requires 0.0 <= points
    ensures var s := Normalise(enableRaw, minHoursRaw, percentRaw, penaltyRaw);
      var r := SkillGate.ForwardedPoints(first, last, skill, actor, player, s.percentExpRequiresSleep, points);
      0.0 <= r <= points &&
      points - r == SkillGate.Withheld(first, last, skill, actor, player, s.percentExpRequiresSleep, points)
  {
  }

  /** The clamp ignores the sign: 1.5 and -2.0 both load as 1, -0.25 as 0.25. */
  lemma ClampIgnoresSign(x: real)
    ensures ClampFraction(-x) == ClampFraction(x)
    ensures ClampFraction(1.5) == ClampFraction(-2.0) == 1.0 && ClampFraction(-0.25) == 0.25
  {
  }

  /** A fraction configured as 0.4 leaves 6 of 10 points on a gated call. */
  lemma ForwardedWithFourTenths(first: SkillGate.SkillId, last: SkillGate.SkillId, skill: SkillGate.SkillId,
                                player: SkillGate.ActorHandle)
    requires first <= skill <= last
    ensures SkillGate.ForwardedPoints(first, last, skill, player, player, ClampFraction(0.4), 10.0) == 6.0
  {
  }
}

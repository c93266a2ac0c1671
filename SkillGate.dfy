/** The decision made by the hooked PlayerCharacter::AdvanceSkill: how many
    skill points are forwarded to the game's own AdvanceSkill. Float
    arithmetic is modelled over the reals. */
module SkillGate {

  /** An actor value id (RE::ActorValue); skills occupy a contiguous range. */
  type SkillId = int

  /** The identity of an actor object (the `this` pointer of the call). */
  type ActorHandle = nat

  /** The call is gated: a skill id in [first, last] advanced on the player. */
  predicate Gated(first: SkillId, last: SkillId, skill: SkillId, actor: ActorHandle, player: ActorHandle)
  {
    first <= skill <= last && actor == player
  }

  /** The share withheld from a gated call, `percent * points`; nothing is
      withheld from any other call. */
  function Withheld(first: SkillId, last: SkillId, skill: SkillId, actor: ActorHandle, player: ActorHandle,
                    percent: real, points: real): (w: real)
    ensures !Gated(first, last, skill, actor, player) ==> w == 0.0
    ensures 0.0 <= percent <= 1.0 && 0.0 <= points ==> 0.0 <= w <= points
  {
    if Gated(first, last, skill, actor, player) then percent * points else 0.0
  }

  /** The points handed to the original AdvanceSkill. */
  function ForwardedPoints(first: SkillId, last: SkillId, skill: SkillId, actor: ActorHandle, player: ActorHandle,
                           percent: real, points: real): (r: real)
    ensures r + Withheld(first, last, skill, actor, player, percent, points) == points
    ensures 0.0 <= percent <= 1.0 && 0.0 <= points ==> 0.0 <= r <= points
    ensures points == 0.0 ==> r == 0.0
  {
    if Gated(first, last, skill, actor, player) then (1.0 - percent) * points else points
  }

  /** Outside the skill range, or on an actor other than the player, the
      call passes through whatever the configured fraction. */
  lemma PassThrough(first: SkillId, last: SkillId, skill: SkillId, actor: ActorHandle, player: ActorHandle,
                    percent: real, points: real)
    requires !(first <= skill <= last) || actor != player
    ensures ForwardedPoints(first, last, skill, actor, player, percent, points) == points
  {
  }

  /** A gated call forwards the complement of the fraction. */
  lemma GatedScales(first: SkillId, last: SkillId, skill: SkillId, actor: ActorHandle, player: ActorHandle,
                    percent: real, points: real)
    requires first <= skill <= last && actor == player
    ensures ForwardedPoints(first, last, skill, actor, player, percent, points) == points * (1.0 - percent)
  {
  }

  /** With the fraction in [0, 1], a larger fraction never forwards more. */
  lemma {:induction false} ForwardedAntitoneInPercent(first: SkillId, last: SkillId, skill: SkillId,
                                                      actor: ActorHandle, player: ActorHandle,
                                                      p: real, q: real, points: real)
    requires 0.0 <= p <= q <= 1.0 && 0.0 <= points
    ensures ForwardedPoints(first, last, skill, actor, player, q, points) <=
            ForwardedPoints(first, last, skill, actor, player, p, points)
  {
    if Gated(first, last, skill, actor, player) {
      assert (1.0 - p) * points - (1.0 - q) * points == (q - p) * points;
      assert 0.0 <= (q - p) * points;
    }
  }
}

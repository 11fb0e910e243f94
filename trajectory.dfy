/** The milestone dates an infection derives from its trajectory
    (Infection::determine_transition_dates), stated as functions.

    A trajectory is a sequence of points at day offsets 0, 1, 2, ... from
    exposure. The threshold comparisons of the program
    (infectivity > infectivity threshold, symptomaticity > symptomaticity
    threshold) are already applied: each point just says whether that day
    is infective and whether it is symptomatic. */
module Trajectories {
  import opened Wrappers

  datatype Point = Point(infective: bool, symptomatic: bool)

  datatype Trajectory = Trajectory(points: seq<Point>, duration: int)

  /** recovery_date of an infection without a trajectory is exposure_date plus this. */
  const NoTrajectoryHorizon: int := 366000

  /** The three per-point tests the scan uses. */
  datatype Flag = Infective | Symptomatic | AsymptomaticInfective

  predicate Holds(p: Point, f: Flag) {
    match f
    case Infective => p.infective
    case Symptomatic => p.symptomatic
    case AsymptomaticInfective => p.infective && !p.symptomatic
  }

  /** The first offset whose point satisfies f, if any. */
  function FirstWhere(ps: seq<Point>, f: Flag): (r: Option<nat>)
    ensures r.Some? ==> r.value < |ps| && Holds(ps[r.value], f)
    ensures r.Some? ==> forall j :: 0 <= j < r.value ==> !Holds(ps[j], f)
    ensures r.None? ==> forall j :: 0 <= j < |ps| ==> !Holds(ps[j], f)
  {
    if ps == [] then None
    else
      var front := FirstWhere(ps[..|ps| - 1], f);
      if front.Some? then front
      else if Holds(ps[|ps| - 1], f) then Some(|ps| - 1)
      else None
  }

  /** The number of offsets whose point satisfies f. */
  function CountWhere(ps: seq<Point>, f: Flag): (r: nat)
    ensures r <= |ps|
  {
    if ps == [] then 0
    else CountWhere(ps[..|ps| - 1], f) + (if Holds(ps[|ps| - 1], f) then 1 else 0)
  }

  /** The fields determine_transition_dates writes. */
  datatype Milestones = Milestones(
    latentPeriod: int,
    incubationPeriod: int,
    asymptomaticPeriod: int,
    symptomaticPeriod: int,
    infectiousDate: int,
    symptomaticDate: int,
    asymptomaticDate: int,
    recoveryDate: int)

  /** The milestones of an infection exposed on day `exposure`. Dates that
      never happen are -1 and their periods 0. */
  function Derive(traj: Option<Trajectory>, exposure: int): Milestones {
    match traj
    case None =>
      Milestones(0, 0, 0, 0, -1, -1, -1, exposure + NoTrajectoryHorizon)
    case Some(t) =>
      var ps := t.points;
      var inf := FirstWhere(ps, Infective);
      var sym := FirstWhere(ps, Symptomatic);
      var latent := if inf.Some? then inf.value else 0;
      var incubation := if sym.Some? then sym.value else 0;
      var infectiousDate := if inf.Some? then exposure + latent else -1;
      Milestones(
        latent,
        incubation,
        CountWhere(ps, AsymptomaticInfective),
        CountWhere(ps, Symptomatic),
        infectiousDate,
        if sym.Some? then exposure + incubation else -1,
        if inf.Some? && !ps[latent].symptomatic then infectiousDate else -1,
        exposure + t.duration)
  }

  // ---------------------------------------------------------------------
  // Facts the scan relies on: extending the scanned prefix by one point.

  lemma FirstWhereExtend(ps: seq<Point>, k: nat, f: Flag)
    requires k < |ps|
    ensures FirstWhere(ps[..k + 1], f) ==
      if FirstWhere(ps[..k], f).Some? then FirstWhere(ps[..k], f)
      else if Holds(ps[k], f) then Some(k) else None
  {
    assert ps[..k + 1][..k] == ps[..k];
  }

  lemma CountWhereExtend(ps: seq<Point>, k: nat, f: Flag)
    requires k < |ps|
    ensures CountWhere(ps[..k + 1], f) == CountWhere(ps[..k], f) + (if Holds(ps[k], f) then 1 else 0)
  {
    assert ps[..k + 1][..k] == ps[..k];
  }

  // ---------------------------------------------------------------------
  // Properties of the derived milestones.

  /** Without a trajectory only recovery_date is set, to an effectively
      infinite horizon after exposure. */
  lemma NoTrajectoryMilestones(exposure: int)
    ensures var m := Derive(None, exposure);
      m.infectiousDate == -1 && m.symptomaticDate == -1 && m.asymptomaticDate == -1
      && m.latentPeriod == 0 && m.incubationPeriod == 0
      && m.asymptomaticPeriod == 0 && m.symptomaticPeriod == 0
      && m.recoveryDate == exposure + 366000
  {
  }

  /** The offset FirstWhere finds is the unique first one. */
  lemma FirstWhereIs(ps: seq<Point>, f: Flag, k: nat)
    requires k < |ps| && Holds(ps[k], f)
    requires forall j :: 0 <= j < k ==> !Holds(ps[j], f)
    ensures FirstWhere(ps, f) == Some(k)
  {
  }

  /** Without any infective offset, infectious_date and asymptomatic_date stay -1. */
  lemma NeverInfective(t: Trajectory, exposure: int)
    requires forall k :: 0 <= k < |t.points| ==> !t.points[k].infective
    ensures var m := Derive(Some(t), exposure);
      m.infectiousDate == -1 && m.asymptomaticDate == -1 && m.latentPeriod == 0
      && m.recoveryDate == exposure + t.duration
  {
    assert FirstWhere(t.points, Infective).None?;
  }

  /** infectious_date is exposure_date plus the first infective offset k;
      asymptomatic_date equals it exactly when the point at k is not
      symptomatic, and is -1 otherwise (the two cannot be confused once
      exposure_date is a simulation day, i.e. not negative). */
  lemma InfectiousDateIsFirstInfectiveOffset(t: Trajectory, exposure: int, k: nat)
    requires k < |t.points| && t.points[k].infective
    requires forall j :: 0 <= j < k ==> !t.points[j].infective
    ensures var m := Derive(Some(t), exposure);
      m.latentPeriod == k && m.infectiousDate == exposure + k
      && m.asymptomaticDate == (if t.points[k].symptomatic then -1 else m.infectiousDate)
      && (exposure >= 0 ==> (m.asymptomaticDate == m.infectiousDate <==> !t.points[k].symptomatic))
      && m.recoveryDate == exposure + t.duration
  {
    FirstWhereIs(t.points, Infective, k);
  }

  /** Without any symptomatic offset, symptomatic_date stays -1. */
  lemma NeverSymptomatic(t: Trajectory, exposure: int)
    requires forall k :: 0 <= k < |t.points| ==> !t.points[k].symptomatic
    ensures var m := Derive(Some(t), exposure);
      m.symptomaticDate == -1 && m.incubationPeriod == 0
  {
    assert FirstWhere(t.points, Symptomatic).None?;
  }

  /** symptomatic_date is exposure_date plus the first symptomatic offset k. */
  lemma SymptomaticDateIsFirstSymptomaticOffset(t: Trajectory, exposure: int, k: nat)
    requires k < |t.points| && t.points[k].symptomatic
    requires forall j :: 0 <= j < k ==> !t.points[j].symptomatic
    ensures var m := Derive(Some(t), exposure);
      m.incubationPeriod == k && m.symptomaticDate == exposure + k
  {
    FirstWhereIs(t.points, Symptomatic, k);
  }

  /** Every point adds to at most one of the two period counters. */
  lemma {:induction false} PeriodCountsDisjoint(ps: seq<Point>)
    ensures CountWhere(ps, Symptomatic) + CountWhere(ps, AsymptomaticInfective) <= |ps|
  {
    if ps != [] {
      PeriodCountsDisjoint(ps[..|ps| - 1]);
    }
  }

  /** symptomatic_period + asymptomatic_period never exceeds the number of points. */
  lemma PeriodsFitTrajectory(t: Trajectory, exposure: int)
    ensures var m := Derive(Some(t), exposure);
      0 <= m.symptomaticPeriod && 0 <= m.asymptomaticPeriod
      && m.symptomaticPeriod + m.asymptomaticPeriod <= |t.points|
  {
    PeriodCountsDisjoint(t.points);
  }

  /** A date that is set lies on or after exposure, and on or before
      recovery when the duration covers every point. */
  lemma DatesWithinInfection(t: Trajectory, exposure: int)
    ensures var m := Derive(Some(t), exposure);
      (FirstWhere(t.points, Infective).Some? ==>
         exposure <= m.infectiousDate
         && (|t.points| <= t.duration ==> m.infectiousDate < m.recoveryDate))
      && (FirstWhere(t.points, Symptomatic).Some? ==>
         exposure <= m.symptomaticDate
         && (|t.points| <= t.duration ==> m.symptomaticDate < m.recoveryDate))
  {
  }

  /** Infectiousness need not start before symptoms: a trajectory whose first
      symptomatic day precedes its first infective day derives
      symptomatic_date < infectious_date. */
  lemma SymptomsMayPrecedeInfectiousness()
    ensures var m := Derive(Some(Trajectory([Point(false, true), Point(true, true)], 2)), 0);
      m.symptomaticDate == 0 && m.infectiousDate == 1
  {
  }
}

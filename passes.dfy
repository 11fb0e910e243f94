/** The order of the passes of the population's daily update
    (Population::update, Population.cc): which passes run on a given day,
    and in which order. */
module Passes {

  /** Which deaths a removal pass frees: those the demographic pass queued,
      or those the health pass queued. */
  datatype DeathKind = Natural | Disease

  /** The passes the daily update makes over the population. */
  datatype Pass =
    | BirthdayPass              // birthday() for the people in today's buckets
    | BirthPass                 // Demographics::update_births, then give_birth
    | NaturalDeathPass          // Demographics::update_deaths
    | RemoveDeadPass(kind: DeathKind)  // remove_dead_from_population
    | InterventionPass          // health intervention status
    | HealthPass                // Health::update, which queues disease deaths
    | PrepareActivitiesPass
    | ActivityProfilePass
    | TravelPass
    | BehaviorPass
    | VaccinePass
    | AntiviralPass

  /** A pass's place in the fixed schedule of the update. */
  function Rank(p: Pass): nat {
    match p
    case BirthdayPass => 0
    case BirthPass => 1
    case NaturalDeathPass => 2
    case RemoveDeadPass(kind) => if kind == Natural then 3 else 6
    case InterventionPass => 4
    case HealthPass => 5
    case PrepareActivitiesPass => 7
    case ActivityProfilePass => 8
    case TravelPass => 9
    case BehaviorPass => 10
    case VaccinePass => 11
    case AntiviralPass => 12
  }

  /** Whether a pass runs on a day: the demographic passes with population
      dynamics, interventions when vaccination or antivirals are enabled,
      activities on day 0, activity profiles on 1 July with population
      dynamics, every other pass every day. */
  predicate Runs(p: Pass, day: int, dynamics: bool, interventions: bool, julyFirst: bool) {
    match p
    case BirthdayPass => dynamics
    case BirthPass => dynamics
    case NaturalDeathPass => dynamics
    case RemoveDeadPass(kind) => kind == Disease || dynamics
    case InterventionPass => interventions
    case PrepareActivitiesPass => day == 0
    case ActivityProfilePass => dynamics && julyFirst
    case _ => true
  }

  /** The passes of one day in the order the update makes them. */
  function DailyPasses(day: int, dynamics: bool, interventions: bool, julyFirst: bool): seq<Pass> {
    DemographicPasses(dynamics) + (HealthPasses(interventions) + ClosingPasses(day, dynamics && julyFirst))
  }

  /** Birthdays, births, natural deaths and their removal, with population
      dynamics only. */
  function DemographicPasses(dynamics: bool): seq<Pass> {
    if dynamics then [BirthdayPass, BirthPass, NaturalDeathPass, RemoveDeadPass(Natural)] else []
  }

  /** Interventions when vaccination or antivirals are enabled, then health
      and the removal of disease deaths. */
  function HealthPasses(interventions: bool): seq<Pass> {
    (if interventions then [InterventionPass] else []) + [HealthPass, RemoveDeadPass(Disease)]
  }

  /** Activities on day 0, activity profiles on 1 July, then travel,
      behaviour, vaccines and antivirals. */
  function ClosingPasses(day: int, profiles: bool): seq<Pass> {
    (if day == 0 then [PrepareActivitiesPass] else [])
    + (if profiles then [ActivityProfilePass] else [])
    + [TravelPass, BehaviorPass, VaccinePass, AntiviralPass]
  }

  lemma JoinAssociates(x: seq<Pass>, y: seq<Pass>, z: seq<Pass>)
    ensures (x + y) + z == x + (y + z)
  {
  }

  /** Passes in strictly increasing schedule order: so none twice. */
  predicate InScheduleOrder(log: seq<Pass>) {
    forall i, j :: 0 <= i < j < |log| ==> Rank(log[i]) < Rank(log[j])
  }

  /** Every pass of the log has a rank in [lo, hi). */
  predicate RanksWithin(log: seq<Pass>, lo: nat, hi: nat) {
    forall i :: 0 <= i < |log| ==> lo <= Rank(log[i]) < hi
  }

  lemma {:induction false} OrderAcrossJoin(x: seq<Pass>, y: seq<Pass>, k: nat)
    requires InScheduleOrder(x) && InScheduleOrder(y)
    requires RanksWithin(x, 0, k) && forall i :: 0 <= i < |y| ==> k <= Rank(y[i])
    ensures InScheduleOrder(x + y)
  {
    var log := x + y;
    forall i, j | 0 <= i < j < |log|
      ensures Rank(log[i]) < Rank(log[j])
    {
      if j < |x| {
        assert log[i] == x[i] && log[j] == x[j];
      } else if i >= |x| {
        assert log[i] == y[i - |x|] && log[j] == y[j - |x|];
      } else {
        assert log[i] == x[i] && log[j] == y[j - |x|];
      }
    }
  }

  lemma DemographicInOrder(dynamics: bool)
    ensures var d := DemographicPasses(dynamics); InScheduleOrder(d) && RanksWithin(d, 0, 4)
  {
  }

  lemma HealthInOrder(interventions: bool)
    ensures var h := HealthPasses(interventions); InScheduleOrder(h) && RanksWithin(h, 4, 7)
  {
  }

  lemma ClosingInOrder(day: int, profiles: bool)
    ensures var c := ClosingPasses(day, profiles); InScheduleOrder(c) && RanksWithin(c, 7, 13)
  {
  }

  lemma DemographicRuns(dynamics: bool, p: Pass)
    ensures p in DemographicPasses(dynamics) <==> dynamics && Rank(p) < 4
  {
  }

  lemma HealthRuns(interventions: bool, p: Pass)
    ensures p in HealthPasses(interventions) <==> 4 <= Rank(p) < 7 && (p == InterventionPass ==> interventions)
  {
  }

  lemma ClosingRuns(day: int, profiles: bool, p: Pass)
    ensures p in ClosingPasses(day, profiles) <==>
      7 <= Rank(p) && (p == PrepareActivitiesPass ==> day == 0) && (p == ActivityProfilePass ==> profiles)
  {
  }

  /** The day's passes come in schedule order, each at most once. */
  lemma DailyPassesInOrder(day: int, dynamics: bool, interventions: bool, julyFirst: bool)
    ensures InScheduleOrder(DailyPasses(day, dynamics, interventions, julyFirst))
  {
    var d, h, c := DemographicPasses(dynamics), HealthPasses(interventions), ClosingPasses(day, dynamics && julyFirst);
    DemographicInOrder(dynamics);
    HealthInOrder(interventions);
    ClosingInOrder(day, dynamics && julyFirst);
    OrderAcrossJoin(h, c, 7);
    OrderAcrossJoin(d, h + c, 4);
  }

  /** A pass is made on a day exactly when it runs on that day. */
  lemma DailyPassesRun(day: int, dynamics: bool, interventions: bool, julyFirst: bool, p: Pass)
    ensures p in DailyPasses(day, dynamics, interventions, julyFirst) <==> Runs(p, day, dynamics, interventions, julyFirst)
  {
    DemographicRuns(dynamics, p);
    HealthRuns(interventions, p);
    ClosingRuns(day, dynamics && julyFirst, p);
  }

  /** In a log in schedule order, a pass whose rank is one more than that
      of entry i is entry i + 1. */
  lemma {:induction false} NextInSchedule(log: seq<Pass>, i: nat, b: Pass)
    requires InScheduleOrder(log) && i < |log| && b in log && Rank(b) == Rank(log[i]) + 1
    ensures i + 1 < |log| && log[i + 1] == b
  {
    var j :| 0 <= j < |log| && log[j] == b;
    assert i < j;
  }

  /** The pass whose deaths a removal frees. */
  function Queuer(kind: DeathKind): Pass {
    if kind == Natural then NaturalDeathPass else HealthPass
  }

  /** Each removal of the dead comes directly after the pass that queued
      its deaths, and each pass that queues deaths is directly followed by
      its removal. */
  lemma DailyRemovalsFollowDeaths(day: int, dynamics: bool, interventions: bool, julyFirst: bool)
    ensures var log := DailyPasses(day, dynamics, interventions, julyFirst);
      forall i, kind :: 0 <= i < |log| && log[i] == Queuer(kind) ==> i + 1 < |log| && log[i + 1] == RemoveDeadPass(kind)
    ensures var log := DailyPasses(day, dynamics, interventions, julyFirst);
      forall i, kind :: 0 <= i < |log| && log[i] == RemoveDeadPass(kind) ==> 0 < i && log[i - 1] == Queuer(kind)
  {
    var log := DailyPasses(day, dynamics, interventions, julyFirst);
    DailyPassesInOrder(day, dynamics, interventions, julyFirst);
    forall i, kind | 0 <= i < |log| && log[i] == Queuer(kind)
      ensures i + 1 < |log| && log[i + 1] == RemoveDeadPass(kind)
    {
      assert log[i] in log;
      DailyPassesRun(day, dynamics, interventions, julyFirst, Queuer(kind));
      DailyPassesRun(day, dynamics, interventions, julyFirst, RemoveDeadPass(kind));
      NextInSchedule(log, i, RemoveDeadPass(kind));
    }
    forall i, kind | 0 <= i < |log| && log[i] == RemoveDeadPass(kind)
      ensures 0 < i && log[i - 1] == Queuer(kind)
    {
      assert log[i] in log;
      DailyPassesRun(day, dynamics, interventions, julyFirst, Queuer(kind));
      DailyPassesRun(day, dynamics, interventions, julyFirst, RemoveDeadPass(kind));
      var j :| 0 <= j < |log| && log[j] == Queuer(kind);
      NextInSchedule(log, j, RemoveDeadPass(kind));
      assert log[j + 1] == log[i];
    }
  }
}

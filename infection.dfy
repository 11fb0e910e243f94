/** One infection of one host with one condition (Infection.cc): the
    milestone dates derived from the trajectory, the daily update that
    fires the host's callbacks, and the trajectory modifications. */
module Infections {
  import opened Wrappers
  import opened Conditions
  import opened Trajectories

  /** The host callbacks an infection fires (Health's become_infectious,
      become_symptomatic, recover and become_unsusceptible). */
  datatype Event = BecomeInfectious | BecomeSymptomatic | Recover | BecomeUnsusceptible

  /** What a trajectory-modification request comes to: done, rejected with
      the program's out_of_range message, or a call through the null
      trajectory pointer (which crashes the program). */
  datatype ModifyOutcome = Modified | OutOfRange(msg: string) | NullTrajectory

  /** The trajectory point for a day offset; outside the points the
      trajectory holds, neither infective nor symptomatic. */
  function PointAt(t: Trajectory, k: int): (p: Point)
    ensures 0 <= k < |t.points| ==> p == t.points[k]
    ensures !(0 <= k < |t.points|) ==> !p.infective && !p.symptomatic
  {
    if 0 <= k < |t.points| then t.points[k] else Point(false, false)
  }

  function FireIf(c: bool, e: Event): seq<Event> {
    if c then [e] else []
  }

  /** The callbacks one daily update fires, in order. The chronic rule makes
      the host infectious once more than 3 days have passed since exposure
      and it is not infectious yet. Otherwise each milestone fires on
      exactly its own day; on the recovery day the update ends with the
      recover callback (the infection is deleted by it). */
  function UpdateEvents(chronic: bool, hasTrajectory: bool, m: Milestones, exposure: int,
                        unsusceptibleDate: int, today: int, hostInfectious: bool): seq<Event>
  {
    if chronic then FireIf(today - exposure > 3 && !hostInfectious, BecomeInfectious)
    else if !hasTrajectory then []
    else
      FireIf(today == m.infectiousDate, BecomeInfectious)
      + FireIf(today == m.symptomaticDate, BecomeSymptomatic)
      + (if today == m.recoveryDate then [Recover]
         else FireIf(today == unsusceptibleDate, BecomeUnsusceptible))
  }

  /** Each callback fires exactly on its own day (equality, never a range). */
  lemma UpdateFiresOnExactDays(m: Milestones, exposure: int, unsusceptibleDate: int, today: int, hostInfectious: bool)
    ensures var es := UpdateEvents(false, true, m, exposure, unsusceptibleDate, today, hostInfectious);
      (BecomeInfectious in es <==> today == m.infectiousDate)
      && (BecomeSymptomatic in es <==> today == m.symptomaticDate)
      && (Recover in es <==> today == m.recoveryDate)
      && (BecomeUnsusceptible in es <==> today == unsusceptibleDate && today != m.recoveryDate)
      && (Recover in es ==> es[|es| - 1] == Recover)
  {
  }

  /** Without a trajectory the update fires nothing; under the chronic rule
      it fires at most become_infectious. */
  lemma UpdateWithoutTrajectoryOrChronic(m: Milestones, exposure: int, unsusceptibleDate: int, today: int, hostInfectious: bool)
    ensures UpdateEvents(false, false, m, exposure, unsusceptibleDate, today, hostInfectious) == []
    ensures UpdateEvents(true, false, m, exposure, unsusceptibleDate, today, hostInfectious)
            == UpdateEvents(true, true, m, exposure, unsusceptibleDate, today, hostInfectious)
            == (if today - exposure > 3 && !hostInfectious then [BecomeInfectious] else [])
  {
  }

  /** The callbacks advance_seed_infection fires (corrected): a date fires
      when it is set (not the -1 sentinel) and lies on or before the epidemic
      offset; nothing follows recover. */
  function SeedEvents(m: Milestones, unsusceptibleDate: int, offset: int): seq<Event> {
    FireIf(m.infectiousDate != -1 && m.infectiousDate <= offset, BecomeInfectious)
    + FireIf(m.symptomaticDate != -1 && m.symptomaticDate <= offset, BecomeSymptomatic)
    + (if m.recoveryDate != -1 && m.recoveryDate <= offset then [Recover]
       else FireIf(unsusceptibleDate <= offset, BecomeUnsusceptible))
  }

  /** The callbacks advance_seed_infection fires as written: every date is
      compared with the offset, the -1 sentinel included. */
  function SeedEventsAsWritten(m: Milestones, unsusceptibleDate: int, offset: int): seq<Event> {
    FireIf(m.infectiousDate <= offset, BecomeInfectious)
    + FireIf(m.symptomaticDate <= offset, BecomeSymptomatic)
    + FireIf(m.recoveryDate <= offset, Recover)
    + FireIf(unsusceptibleDate <= offset, BecomeUnsusceptible)
  }

  /** As written, a seed whose trajectory is never infective nor symptomatic
      still makes its host infectious and symptomatic. */
  lemma SeedAsWrittenFiresSentinelDates()
    ensures var m := Derive(Some(Trajectory([Point(false, false)], 5)), -10);
      m.infectiousDate == -1 && m.symptomaticDate == -1
      && BecomeInfectious in SeedEventsAsWritten(m, -10, 0)
      && BecomeSymptomatic in SeedEventsAsWritten(m, -10, 0)
      && BecomeInfectious !in SeedEvents(m, -10, 0)
      && BecomeSymptomatic !in SeedEvents(m, -10, 0)
  {
    var m := Derive(Some(Trajectory([Point(false, false)], 5)), -10);
    assert FirstWhere([Point(false, false)], Infective).None?;
    assert FirstWhere([Point(false, false)], Symptomatic).None?;
    assert SeedEvents(m, -10, 0) == [Recover];
  }

  /** The corrected seed advance fires a milestone exactly when its date is
      set and already reached. */
  lemma SeedFiresReachedDates(m: Milestones, unsusceptibleDate: int, offset: int)
    ensures var es := SeedEvents(m, unsusceptibleDate, offset);
      (BecomeInfectious in es <==> m.infectiousDate != -1 && m.infectiousDate <= offset)
      && (BecomeSymptomatic in es <==> m.symptomaticDate != -1 && m.symptomaticDate <= offset)
      && (Recover in es <==> m.recoveryDate != -1 && m.recoveryDate <= offset)
      && (Recover in es ==> es[|es| - 1] == Recover)
  {
  }

  // -----------------------------------------------------------------------
  // Use after recovery. A step of Infection::update is either a callback or
  // a use of the infection object (a field read or write, a call on it).

  datatype Step = Fire(event: Event) | Use

  function FireStep(c: bool, e: Event): seq<Step> {
    if c then [Fire(e)] else []
  }

  /** Infection::update as written, for a non-chronic infection with a
      trajectory, followed by Health::update_infection's is_fatal call on the
      slot: recover may fire in the middle and the object is used after it. */
  function UpdateTraceAsWritten(m: Milestones, unsusceptibleDate: int, today: int): seq<Step> {
    TraceHead(m, today) + TraceTail(m, unsusceptibleDate, today)
  }

  /** Reading today's trajectory point, then the infectious and symptomatic callbacks. */
  function TraceHead(m: Milestones, today: int): seq<Step> {
    [Use]
    + FireStep(today == m.infectiousDate, BecomeInfectious)
    + FireStep(today == m.symptomaticDate, BecomeSymptomatic)
  }

  /** The recover callback (which deletes the infection) and what follows it. */
  function TraceTail(m: Milestones, unsusceptibleDate: int, today: int): seq<Step> {
    FireStep(today == m.recoveryDate, Recover)
    + [Use]                                                    // get_unsusceptible_date()
    + (if today == unsusceptibleDate then [Fire(BecomeUnsusceptible), Use] else [])
    + [Use]                                                    // recovery date, strains, fatality check
    + [Use]                                                    // Health: infection[condition_id]->is_fatal(day)
  }

  /** A step uses the infection after the recover callback deleted it. */
  ghost predicate UsedAfterRecover(steps: seq<Step>) {
    exists i, j :: 0 <= i < j < |steps| && steps[i] == Fire(Recover) && steps[j] == Use
  }

  /** The steps up to and including the first recover: the corrected update
      returns as soon as recover has fired. */
  function UntilRecover(steps: seq<Step>): (r: seq<Step>)
    ensures |r| <= |steps| && r == steps[..|r|]
    ensures forall i :: 0 <= i < |r| - 1 ==> r[i] != Fire(Recover)
    ensures Fire(Recover) !in steps ==> r == steps
  {
    if steps == [] then []
    else if steps[0] == Fire(Recover) then [steps[0]]
    else [steps[0]] + UntilRecover(steps[1..])
  }

  /** The callbacks among some steps, in order. */
  function Fired(steps: seq<Step>): seq<Event> {
    if steps == [] then []
    else (if steps[0].Fire? then [steps[0].event] else []) + Fired(steps[1..])
  }

  /** As written, whenever recover fires the infection is used afterwards. */
  lemma AsWrittenUsesInfectionAfterRecover(m: Milestones, unsusceptibleDate: int, today: int)
    requires today == m.recoveryDate
    ensures UsedAfterRecover(UpdateTraceAsWritten(m, unsusceptibleDate, today))
  {
    var steps := UpdateTraceAsWritten(m, unsusceptibleDate, today);
    var n := |TraceHead(m, today)|;
    assert steps[n] == Fire(Recover);
    assert steps[n + 1] == Use;
  }

  /** Stopping at recover never uses the deleted infection. */
  lemma CorrectedNeverUsesAfterRecover(steps: seq<Step>)
    ensures !UsedAfterRecover(UntilRecover(steps))
  {
  }

  lemma {:induction false} FiredAppend(a: seq<Step>, b: seq<Step>)
    ensures Fired(a + b) == Fired(a) + Fired(b)
  {
    if a == [] {
      assert a + b == b;
    } else {
      assert (a + b)[0] == a[0];
      assert (a + b)[1..] == a[1..] + b;
      FiredAppend(a[1..], b);
    }
  }

  lemma {:induction false} UntilRecoverAppend(a: seq<Step>, b: seq<Step>)
    requires Fire(Recover) !in a
    ensures UntilRecover(a + b) == a + UntilRecover(b)
  {
    if a == [] {
      assert a + b == b;
    } else {
      assert (a + b)[0] == a[0];
      assert (a + b)[1..] == a[1..] + b;
      assert Fire(Recover) !in a[1..];
      UntilRecoverAppend(a[1..], b);
    }
  }

  lemma TraceHeadFires(m: Milestones, today: int)
    ensures Fire(Recover) !in TraceHead(m, today)
    ensures Fired(TraceHead(m, today))
            == FireIf(today == m.infectiousDate, BecomeInfectious) + FireIf(today == m.symptomaticDate, BecomeSymptomatic)
  {
    var i := FireStep(today == m.infectiousDate, BecomeInfectious);
    var s := FireStep(today == m.symptomaticDate, BecomeSymptomatic);
    FiredAppend([Use] + i, s);
    FiredAppend([Use], i);
  }

  lemma TraceTailFires(m: Milestones, unsusceptibleDate: int, today: int)
    ensures Fired(UntilRecover(TraceTail(m, unsusceptibleDate, today)))
            == if today == m.recoveryDate then [Recover] else FireIf(today == unsusceptibleDate, BecomeUnsusceptible)
  {
    var u := if today == unsusceptibleDate then [Fire(BecomeUnsusceptible), Use] else [];
    var rest := [Use] + u + [Use] + [Use];
    assert TraceTail(m, unsusceptibleDate, today) == FireStep(today == m.recoveryDate, Recover) + rest;
    if today == m.recoveryDate {
      assert UntilRecover([Fire(Recover)] + rest) == [Fire(Recover)];
    } else {
      assert Fire(Recover) !in rest;
      assert TraceTail(m, unsusceptibleDate, today) == rest;
      assert UntilRecover(rest) == rest;
      assert rest == ([Use] + u) + ([Use] + [Use]);
      FiredAppend([Use] + u, [Use] + [Use]);
      FiredAppend([Use], u);
      assert Fired([Use]) == [];
      assert ([Use] + [Use])[1..] == [Use];
      assert Fired([Use] + [Use]) == [];
      if today == unsusceptibleDate {
        assert u[1..] == [Use];
        assert Fired(u) == [BecomeUnsusceptible];
      } else {
        assert Fired(u) == [];
      }
    }
  }

  /** The corrected update fires exactly UpdateEvents: the as-written trace
      cut at recover. */
  lemma {:induction false} CorrectedTraceFiresUpdateEvents(m: Milestones, exposure: int, unsusceptibleDate: int,
                                                          today: int, hostInfectious: bool)
    ensures Fired(UntilRecover(UpdateTraceAsWritten(m, unsusceptibleDate, today)))
            == UpdateEvents(false, true, m, exposure, unsusceptibleDate, today, hostInfectious)
  {
    var head := TraceHead(m, today);
    var tail := TraceTail(m, unsusceptibleDate, today);
    TraceHeadFires(m, today);
    TraceTailFires(m, unsusceptibleDate, today);
    UntilRecoverAppend(head, tail);
    FiredAppend(head, UntilRecover(tail));
  }

  /** The scan of determine_transition_dates: one pass over the trajectory
      points, recording the first infective and the first symptomatic
      offset and counting symptomatic and asymptomatic-infective days. */
  method ScanTrajectory(trajectory: Option<Trajectory>, exposure: int) returns (m: Milestones)
    ensures m == Derive(trajectory, exposure)
  {
    if trajectory.None? {
      return Milestones(0, 0, 0, 0, -1, -1, -1, exposure + NoTrajectoryHorizon);
    }
    var points := trajectory.value.points;
    var wasLatent, wasIncubating := true, true;
    var latent, incubation, asymptomatic, symptomatic := 0, 0, 0, 0;
    var infectious, symptomsStart, asymptomaticStart := -1, -1, -1;
    var k := 0;
    assert points[..0] == [];
    while k < |points|
      invariant 0 <= k <= |points|
      invariant FirstWhere(points[..k], Infective) == (if wasLatent then None else Some(latent))
      invariant wasLatent ==> latent == 0
      invariant infectious == (if wasLatent then -1 else exposure + latent)
      invariant asymptomaticStart == (if wasLatent || points[latent].symptomatic then -1 else infectious)
      invariant FirstWhere(points[..k], Symptomatic) == (if wasIncubating then None else Some(incubation))
      invariant wasIncubating ==> incubation == 0
      invariant symptomsStart == (if wasIncubating then -1 else exposure + incubation)
      invariant symptomatic == CountWhere(points[..k], Symptomatic)
      invariant asymptomatic == CountWhere(points[..k], AsymptomaticInfective)
    {
      FirstWhereExtend(points, k, Infective);
      FirstWhereExtend(points, k, Symptomatic);
      CountWhereExtend(points, k, Symptomatic);
      CountWhereExtend(points, k, AsymptomaticInfective);
      var isInfective := points[k].infective;
      var isSymptomatic := points[k].symptomatic;
      var isAsymptomatic := isInfective && !isSymptomatic;
      if isInfective && wasLatent {
        latent := k;
        infectious := exposure + latent;
        if isAsymptomatic && wasLatent {
          asymptomaticStart := infectious;
        }
        wasLatent := false;
      }
      if isSymptomatic && wasIncubating {
        incubation := k;
        symptomsStart := exposure + incubation;
        wasIncubating := false;
      }
      if isSymptomatic {
        symptomatic := symptomatic + 1;
      }
      if isAsymptomatic {
        asymptomatic := asymptomatic + 1;
      }
      k := k + 1;
    }
    assert points[..k] == points;
    m := Milestones(latent, incubation, asymptomatic, symptomatic,
                    infectious, symptomsStart, asymptomaticStart, exposure + trajectory.value.duration);
  }

  // -----------------------------------------------------------------------

  class Infection {
    const condition: Condition
    const infectorId: Option<int>     // the infector, when there is one
    const immuneResponse: bool        // the condition's immune-response draw at exposure
    const immunityEnd: int            // what get_immunity_end_date reports
    const recoveryPeriod: int         // the condition's days_recovered

    var trajectory: Option<Trajectory>
    var exposureDate: int

    var latentPeriod: int
    var incubationPeriod: int
    var asymptomaticPeriod: int
    var symptomaticPeriod: int
    var infectiousDate: int
    var symptomaticDate: int
    var asymptomaticDate: int
    var recoveryDate: int

    var susceptibilityPeriod: int
    var susceptibleDate: int
    var isSusceptible: bool
    var willBeSymptomatic: bool
    var infectionIsFatalToday: bool
    var infectiveToday: bool          // today's point is above the infectivity threshold
    var symptomaticToday: bool        // today's point is above the symptomaticity threshold
    var infecteeCount: int

    /** The derived milestone fields. */
    function Current(): Milestones
      reads this
    {
      Milestones(latentPeriod, incubationPeriod, asymptomaticPeriod, symptomaticPeriod,
                 infectiousDate, symptomaticDate, asymptomaticDate, recoveryDate)
    }

    /** The milestones are the ones the trajectory gives for the exposure
        date, as every date-changing operation leaves them. */
    ghost predicate Derived()
      reads this
    {
      Current() == Derive(trajectory, exposureDate)
    }

    /** The remaining mutable fields, which derivation leaves alone. */
    function Rest(): (bool, bool, bool, bool, bool, int, int, int)
      reads this
    {
      (isSusceptible, willBeSymptomatic, infectionIsFatalToday, infectiveToday, symptomaticToday,
       susceptibilityPeriod, susceptibleDate, infecteeCount)
    }

    function UnsusceptibleDate(): int
      reads this
    {
      exposureDate + susceptibilityPeriod
    }

    /** A new infection exposed on `day`, without a trajectory yet. */
    constructor (condition: Condition, infectorId: Option<int>, day: int, immuneResponse: bool, immunityEnd: int)
      ensures this.condition == condition && this.infectorId == infectorId
      ensures this.immuneResponse == immuneResponse && this.immunityEnd == immunityEnd
      ensures recoveryPeriod == condition.daysRecovered
      ensures trajectory == None && exposureDate == day
      ensures Current() == Milestones(0, 0, 0, 0, -1, -1, -1, -1)
      ensures Rest() == (true, false, false, false, false, 0, -1, 0)
    {
      this.condition := condition;
      this.infectorId := infectorId;
      this.immuneResponse := immuneResponse;
      this.immunityEnd := immunityEnd;
      this.recoveryPeriod := condition.daysRecovered;
      trajectory := None;
      infecteeCount := 0;
      isSusceptible := true;
      infectiveToday, symptomaticToday := false, false;
      susceptibilityPeriod, latentPeriod, asymptomaticPeriod, symptomaticPeriod, incubationPeriod := 0, 0, 0, 0, 0;
      susceptibleDate, infectiousDate, symptomaticDate, asymptomaticDate, recoveryDate := -1, -1, -1, -1, -1;
      willBeSymptomatic := false;
      infectionIsFatalToday := false;
      exposureDate := day;
    }

    /** Re-derive every milestone from the trajectory. */
    method DetermineTransitionDates()
      modifies this
      ensures Current() == Derive(trajectory, exposureDate)
      ensures trajectory == old(trajectory) && exposureDate == old(exposureDate) && Rest() == old(Rest())
    {
      var m := ScanTrajectory(trajectory, exposureDate);
      latentPeriod, incubationPeriod, asymptomaticPeriod, symptomaticPeriod := m.latentPeriod, m.incubationPeriod, m.asymptomaticPeriod, m.symptomaticPeriod;
      infectiousDate, symptomaticDate, asymptomaticDate, recoveryDate := m.infectiousDate, m.symptomaticDate, m.asymptomaticDate, m.recoveryDate;
    }

    /** Install the trajectory the condition built and derive the milestones. */
    method SetTrajectory(t: Option<Trajectory>)
      modifies this
      ensures trajectory == t && exposureDate == old(exposureDate) && Rest() == old(Rest())
      ensures Current() == Derive(t, exposureDate)
    {
      trajectory := t;
      DetermineTransitionDates();
    }

    /** The chronic rule: infectious once more than 3 days past exposure. */
    method ChronicUpdate(today: int, hostInfectious: bool) returns (events: seq<Event>)
      ensures events == FireIf(today - exposureDate > 3 && !hostInfectious, BecomeInfectious)
    {
      var daysPostExposure := today - exposureDate;
      events := [];
      if daysPostExposure > 3 && !hostInfectious {
        events := [BecomeInfectious];
      }
    }

    /** The daily update. `hostInfectious` is the host's infectious bit for
        the condition and `isFatal` the condition's fatality roll for a given
        number of days symptomatic. Returns the callbacks fired, in order. */
    method Update(today: int, hostInfectious: bool, isFatal: int -> bool) returns (events: seq<Event>)
      modifies this
      ensures events == UpdateEvents(condition.IsChronic(), old(trajectory).Some?, old(Current()), old(exposureDate),
                                     old(UnsusceptibleDate()), today, hostInfectious)
      ensures trajectory == old(trajectory) && exposureDate == old(exposureDate) && Current() == old(Current())
      ensures susceptibilityPeriod == old(susceptibilityPeriod) && susceptibleDate == old(susceptibleDate)
      ensures willBeSymptomatic == old(willBeSymptomatic) && infecteeCount == old(infecteeCount)
      ensures condition.IsChronic() || trajectory.None? ==> Rest() == old(Rest())
      ensures !condition.IsChronic() && trajectory.Some? ==> TrajectoryStepped(today, isFatal)
    {
      if condition.IsChronic() {
        events := ChronicUpdate(today, hostInfectious);
        return;
      }
      if trajectory.None? {
        events := [];
        return;
      }
      events := UpdateFromTrajectory(today, isFatal);
    }

    /** What one day of a trajectory does to the cached state: today's point
        is cached, susceptibility ends on the unsusceptible date and the
        fatality roll is made while symptomatic (none on the recovery day,
        when recover has removed the infection). */
    twostate predicate TrajectoryStepped(today: int, isFatal: int -> bool)
      requires trajectory.Some?
      reads this
    {
      var p := PointAt(trajectory.value, today - exposureDate);
      infectiveToday == p.infective && symptomaticToday == p.symptomatic
      && isSusceptible == (old(isSusceptible) && !(today != recoveryDate && today == UnsusceptibleDate()))
      && infectionIsFatalToday == (old(infectionIsFatalToday)
           || (today != recoveryDate && condition.caseFatalityEnabled && p.symptomatic
               && isFatal(today - symptomaticDate)))
    }

    method UpdateFromTrajectory(today: int, isFatal: int -> bool) returns (events: seq<Event>)
      requires trajectory.Some?
      modifies this
      ensures events == UpdateEvents(false, true, old(Current()), old(exposureDate), old(UnsusceptibleDate()), today, false)
      ensures trajectory == old(trajectory) && exposureDate == old(exposureDate) && Current() == old(Current())
      ensures susceptibilityPeriod == old(susceptibilityPeriod) && susceptibleDate == old(susceptibleDate)
      ensures willBeSymptomatic == old(willBeSymptomatic) && infecteeCount == old(infecteeCount)
      ensures TrajectoryStepped(today, isFatal)
    {
      var daysPostExposure := today - exposureDate;
      var point := PointAt(trajectory.value, daysPostExposure);
      infectiveToday := point.infective;
      symptomaticToday := point.symptomatic;
      events := [];
      if today == infectiousDate {
        events := events + [BecomeInfectious];
      }
      if today == symptomaticDate {
        events := events + [BecomeSymptomatic];
      }
      assert events == FireIf(today == infectiousDate, BecomeInfectious) + FireIf(today == symptomaticDate, BecomeSymptomatic);
      if today == recoveryDate {
        // recover deletes this infection: nothing may touch it afterwards
        events := events + [Recover];
      } else {
        if today == UnsusceptibleDate() {
          events := events + [BecomeUnsusceptible];
          isSusceptible := false;
        }
        if condition.caseFatalityEnabled && symptomaticToday {
          var daysSymptomatic := today - symptomaticDate;
          if isFatal(daysSymptomatic) {
            infectionIsFatalToday := true;
          }
        }
      }
    }


    /** Move a seed infection's exposure back by `daysToAdvance` days,
        re-derive the milestones and fire every callback already due by the
        epidemic offset. Aborts when the dates were never set. */
    method AdvanceSeedInfection(daysToAdvance: int, epidemicOffset: int) returns (outcome: Outcome, events: seq<Event>)
      modifies this
      ensures old(recoveryDate) == -1 || old(exposureDate) == -1 <==> outcome.Aborted?
      ensures outcome.Aborted? ==> unchanged(this) && events == []
      ensures outcome == Done ==>
                exposureDate == old(exposureDate) - daysToAdvance
                && trajectory == old(trajectory) && Rest() == old(Rest())
                && Current() == Derive(trajectory, exposureDate)
                && events == SeedEvents(Current(), UnsusceptibleDate(), epidemicOffset)
    {
      if recoveryDate == -1 || exposureDate == -1 {
        return Aborted("assertion: advance_seed_infection on an infection without dates"), [];
      }
      exposureDate := exposureDate - daysToAdvance;
      DetermineTransitionDates();
      outcome, events := Done, [];
      if infectiousDate != -1 && infectiousDate <= epidemicOffset {
        events := events + [BecomeInfectious];
      }
      if symptomaticDate != -1 && symptomaticDate <= epidemicOffset {
        events := events + [BecomeSymptomatic];
      }
      if recoveryDate != -1 && recoveryDate <= epidemicOffset {
        events := events + [Recover];
        return;
      }
      if UnsusceptibleDate() <= epidemicOffset {
        events := events + [BecomeUnsusceptible];
      }
    }

    /** Scale the symptomatic period. `modifySympPeriod(t, start, days)` is the
        trajectory's own rewrite; before the period it gets the symptomatic
        offset and symptomatic_period * multp, during it today's offset and
        the remaining days times multp, truncated to whole days. */
    method ModifySymptomaticPeriod(multp: real, today: int, modifySympPeriod: (Trajectory, int, real) -> Trajectory)
      returns (outcome: ModifyOutcome)
      modifies this
      ensures multp < 0.0 ==> outcome == OutOfRange("cannot modify: negative multiplier")
      ensures multp >= 0.0 && today >= old(recoveryDate) ==> outcome == OutOfRange("cannot modify: past symptomatic period")
      ensures multp >= 0.0 && today < old(recoveryDate) && old(trajectory).None? ==> outcome == NullTrajectory
      ensures outcome != Modified ==> unchanged(this)
      ensures outcome == Modified ==>
                exposureDate == old(exposureDate) && Rest() == old(Rest())
                && trajectory == Some(
                     if today < old(symptomaticDate)
                     then modifySympPeriod(old(trajectory).value, old(symptomaticDate), old(symptomaticPeriod) as real * multp)
                     else modifySympPeriod(old(trajectory).value, today - old(exposureDate),
                                           ((old(recoveryDate) - today) as real * multp).Floor as real))
                && Current() == Derive(trajectory, exposureDate)
    {
      if multp < 0.0 {
        return OutOfRange("cannot modify: negative multiplier");
      }
      if today >= recoveryDate {
        return OutOfRange("cannot modify: past symptomatic period");
      } else if today < symptomaticDate {
        if trajectory.None? {
          return NullTrajectory;
        }
        trajectory := Some(modifySympPeriod(trajectory.value, symptomaticDate, symptomaticPeriod as real * multp));
        DetermineTransitionDates();
      } else {
        if trajectory.None? {
          return NullTrajectory;
        }
        var daysLeft := ((recoveryDate - today) as real * multp).Floor;
        trajectory := Some(modifySympPeriod(trajectory.value, today - exposureDate, daysLeft as real));
        DetermineTransitionDates();
      }
      outcome := Modified;
    }

    /** Scale the asymptomatic period. `modifyAsympPeriod(t, start, days, symptomaticDate)`
        is the trajectory's own rewrite. */
    method ModifyAsymptomaticPeriod(multp: real, today: int, modifyAsympPeriod: (Trajectory, int, real, int) -> Trajectory)
      returns (outcome: ModifyOutcome)
      modifies this
      ensures multp < 0.0 ==> outcome == OutOfRange("cannot modify: negative multiplier")
      ensures multp >= 0.0 && today >= old(symptomaticDate) ==> outcome == OutOfRange("cannot modify: past asymptomatic period")
      ensures multp >= 0.0 && today < old(symptomaticDate) && old(trajectory).None? ==> outcome == NullTrajectory
      ensures outcome != Modified ==> unchanged(this)
      ensures outcome == Modified ==>
                exposureDate == old(exposureDate) && Rest() == old(Rest())
                && trajectory == Some(
                     if today < old(infectiousDate)
                     then modifyAsympPeriod(old(trajectory).value, old(exposureDate),
                                            old(asymptomaticPeriod) as real * multp, old(symptomaticDate))
                     else modifyAsympPeriod(old(trajectory).value, today - old(exposureDate),
                                            (old(symptomaticDate) - today) as real * multp, old(symptomaticDate)))
                && Current() == Derive(trajectory, exposureDate)
    {
      if multp < 0.0 {
        return OutOfRange("cannot modify: negative multiplier");
      }
      if today >= symptomaticDate {
        return OutOfRange("cannot modify: past asymptomatic period");
      }
      if trajectory.None? {
        return NullTrajectory;
      }
      var t, start, days, symptoms := trajectory.value, exposureDate, asymptomaticPeriod as real * multp, symptomaticDate;
      if today >= infectiousDate {
        start, days := today - exposureDate, (symptomaticDate - today) as real * multp;
      }
      trajectory := Some(modifyAsympPeriod(t, start, days, symptoms));
      DetermineTransitionDates();
      outcome := Modified;
    }

    /** Scale the whole infectious period: the asymptomatic part first while
        symptoms have not started (a rejection there ends the request), then
        the symptomatic part, judged on the re-derived dates. */
    method ModifyInfectiousPeriod(multp: real, today: int,
                                  modifyAsympPeriod: (Trajectory, int, real, int) -> Trajectory,
                                  modifySympPeriod: (Trajectory, int, real) -> Trajectory)
      returns (outcome: ModifyOutcome)
      modifies this
      ensures multp < 0.0 ==> outcome == OutOfRange("cannot modify: negative multiplier") && unchanged(this)
      ensures exposureDate == old(exposureDate) && Rest() == old(Rest())
      ensures Current() == Derive(trajectory, exposureDate) || unchanged(this)
    {
      if today < symptomaticDate {
        outcome := ModifyAsymptomaticPeriod(multp, today, modifyAsympPeriod);
        if outcome != Modified {
          return;
        }
      }
      outcome := ModifySymptomaticPeriod(multp, today, modifySympPeriod);
    }

    /** Switch whether the infection develops symptoms. Rejected once the
        symptomatic period has begun without an asymptomatic phase, or once
        recovery is reached; nothing changes when the request matches
        will_be_symptomatic. */
    method ModifyDevelopsSymptoms(symptoms: bool, today: int, modifyDevelopsSymp: (Trajectory, int, int) -> Trajectory)
      returns (outcome: ModifyOutcome)
      modifies this
      ensures (today >= old(symptomaticDate) && old(asymptomaticDate) == -1) || today >= old(recoveryDate) ==>
                outcome == OutOfRange("cannot modify: past symptomatic period")
      ensures (!((today >= old(symptomaticDate) && old(asymptomaticDate) == -1) || today >= old(recoveryDate))
               && old(willBeSymptomatic) != symptoms && old(trajectory).None?) ==> outcome == NullTrajectory
      ensures outcome != Modified ==> unchanged(this)
      ensures outcome == Modified && old(willBeSymptomatic) == symptoms ==> unchanged(this)
      ensures outcome == Modified && old(willBeSymptomatic) != symptoms ==> old(trajectory).Some?
      ensures outcome == Modified && old(willBeSymptomatic) != symptoms ==>
                exposureDate == old(exposureDate) && Rest() == old(Rest())
                && trajectory == Some(modifyDevelopsSymp(old(trajectory).value, old(symptomaticDate),
                                                         if old(willBeSymptomatic) then condition.daysSymptomatic else 0))
                && Current() == Derive(trajectory, exposureDate)
    {
      if (today >= symptomaticDate && asymptomaticDate == -1) || today >= recoveryDate {
        return OutOfRange("cannot modify: past symptomatic period");
      }
      if willBeSymptomatic != symptoms {
        if trajectory.None? {
          return NullTrajectory;
        }
        symptomaticPeriod := if willBeSymptomatic then condition.daysSymptomatic else 0;
        trajectory := Some(modifyDevelopsSymp(trajectory.value, symptomaticDate, symptomaticPeriod));
        DetermineTransitionDates();
      }
      outcome := Modified;
    }

    /** Health's is_fatal query on the slot. */
    function IsFatal(): bool
      reads this
    {
      infectionIsFatalToday
    }
  }
}

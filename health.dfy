/** The health state of one person (Health.cc): for every condition a slot
    holding the active infection, the condition's bits (susceptible,
    infectious, symptomatic, recovered, immune, case fatality, at risk) and
    its dates and counts, with the guarded transitions between them. */
module HealthState {
  import opened Wrappers
  import opened Conditions
  import opened Trajectories
  import opened Infections
  import opened Places

  /** What Health learns of the person it belongs to: the person's id and
      store index, its household, and the permanent household that stands in
      for a missing household when hospitals are enabled and the person is
      hospitalized. */
  datatype Host = Host(id: int, index: nat, household: Option<MixingGroup>,
                       permanentIfHospitalized: Option<MixingGroup>)

  /** What a condition draws for a new infection: its trajectory, the
      immune-response roll and the immunity end the infection will report. */
  datatype Draws = Draws(trajectory: Option<Trajectory>, immuneResponse: bool, immunityEnd: int)

  /** One condition's entry in each of Health's per-condition bitsets and
      arrays; `conditionState` is the health-condition state, -1 when the
      person is in none. */
  datatype Slot = Slot(infection: Infection?,
                       susceptible: bool, infectious: bool, symptomatic: bool, recovered: bool,
                       immune: bool, caseFatality: bool, atRisk: bool,
                       susceptibilityMultp: real, infecteeCount: int, exposureDate: int, infectorId: int,
                       infectedIn: Option<MixingGroup>, immunityEndDate: int, conditionState: int)
  {
    /** The bits agree with the slot: whoever is infectious or symptomatic
        has an infection, and whoever is susceptible has none. */
    predicate Agrees() {
      (infectious || symptomatic ==> infection != null) && (susceptible ==> infection == null)
    }

    /** become_removed: no infection, and neither susceptible, infectious
        nor symptomatic. */
    function Removed(): Slot {
      this.(infection := null, susceptible := false, infectious := false, symptomatic := false)
    }
  }

  /** setup's values for every condition before the susceptibility and
      at-risk decisions. */
  const Initial: Slot := Slot.Slot(null, false, false, false, false, false, false, false, 1.0, 0, -1, -1, None, -1, -1)

  function Objects(g: Option<MixingGroup>): set<object> {
    if g.Some? then {g.value} else {}
  }

  /** The household whose fatality tally a case fatality increments. */
  function FatalityHousehold(host: Host): Option<MixingGroup> {
    if host.household.Some? then host.household else host.permanentIfHospitalized
  }

  /** recover's immunity end: the infection's value, shifted by the day of
      recovery only when it is set (> -1). */
  function ImmunityEnd(reported: int, day: int): int {
    if reported > -1 then reported + day else reported
  }

  /** What one callback of Infection::update does to the condition's slot,
      given whether the exposed household exists; None where the callback's
      assertion fails. */
  function StepSlot(s: Slot, e: Event, day: int, hasHousehold: bool): Option<Slot> {
    match e
    case BecomeInfectious =>
      if s.infection == null || !hasHousehold then None else Some(s.(infectious := true))
    case BecomeSymptomatic =>
      if s.infection == null then None else Some(s.(symptomatic := true))
    case Recover =>
      if s.infection == null || !hasHousehold then None
      else Some(s.(recovered := true, immunityEndDate := ImmunityEnd(s.infection.immunityEnd, day)).Removed())
    case BecomeUnsusceptible =>
      Some(s.(susceptible := false))
  }

  /** The callbacks applied in order; None as soon as one fails. */
  function Apply(s: Slot, events: seq<Event>, day: int, hasHousehold: bool): Option<Slot>
    decreases |events|
  {
    if events == [] then Some(s)
    else
      match StepSlot(s, events[0], day, hasHousehold)
      case None => None
      case Some(t) => Apply(t, events[1..], day, hasHousehold)
  }

  /** What the callbacks do to the household's human-infectious and
      recovered condition sets: become_infectious adds the condition to the
      infectious set, recover adds it to the recovered set and clears the
      infectious set. */
  function MarkHousehold(infectious: set<nat>, recovered: set<nat>, c: nat, events: seq<Event>): (set<nat>, set<nat>)
    decreases |events|
  {
    if events == [] then (infectious, recovered)
    else
      match events[0]
      case BecomeInfectious => MarkHousehold(infectious + {c}, recovered, c, events[1..])
      case Recover => MarkHousehold({}, recovered + {c}, c, events[1..])
      case _ => MarkHousehold(infectious, recovered, c, events[1..])
  }

  /** Every callback keeps the bits in agreement with the slot. */
  lemma {:induction false} ApplyKeepsAgreement(s: Slot, events: seq<Event>, day: int, hasHousehold: bool)
    requires s.Agrees() && Apply(s, events, day, hasHousehold).Some?
    ensures Apply(s, events, day, hasHousehold).value.Agrees()
    decreases |events|
  {
    if events != [] {
      var t := StepSlot(s, events[0], day, hasHousehold).value;
      ApplyKeepsAgreement(t, events[1..], day, hasHousehold);
    }
  }

  /** The slot's entries the callbacks never touch: all but its
      infection, its susceptible, infectious, symptomatic and recovered bits
      and its immunity end. */
  predicate SameRecords(s: Slot, t: Slot) {
    t.immune == s.immune && t.caseFatality == s.caseFatality && t.atRisk == s.atRisk
    && t.susceptibilityMultp == s.susceptibilityMultp && t.infecteeCount == s.infecteeCount
    && t.exposureDate == s.exposureDate && t.infectorId == s.infectorId && t.infectedIn == s.infectedIn
    && t.conditionState == s.conditionState
  }

  lemma {:induction false} ApplyKeepsRecords(s: Slot, events: seq<Event>, day: int, hasHousehold: bool)
    requires Apply(s, events, day, hasHousehold).Some?
    ensures SameRecords(s, Apply(s, events, day, hasHousehold).value)
    decreases |events|
  {
    if events != [] {
      var t := StepSlot(s, events[0], day, hasHousehold).value;
      StepKeepsRecords(s, events[0], day, hasHousehold);
      ApplyKeepsRecords(t, events[1..], day, hasHousehold);
    }
  }

  lemma StepKeepsRecords(s: Slot, e: Event, day: int, hasHousehold: bool)
    requires StepSlot(s, e, day, hasHousehold).Some?
    ensures SameRecords(s, StepSlot(s, e, day, hasHousehold).value)
  {
    match e
    case BecomeInfectious =>
    case BecomeSymptomatic =>
    case Recover =>
      var r := s.(recovered := true, immunityEndDate := ImmunityEnd(s.infection.immunityEnd, day));
      assert SameRecords(s, r);
    case BecomeUnsusceptible =>
  }

  /** After a recover callback the slot is empty and recovered, whatever
      follows it. */
  lemma {:induction false} ApplyRecoverRemoves(s: Slot, events: seq<Event>, day: int, hasHousehold: bool)
    requires Recover in events && Apply(s, events, day, hasHousehold).Some?
    ensures var t := Apply(s, events, day, hasHousehold).value;
      t.infection == null && t.recovered && !t.infectious && !t.symptomatic
    decreases |events|
  {
    var t := StepSlot(s, events[0], day, hasHousehold).value;
    if events[0] == Recover {
      ApplyKeepsRemoved(t, events[1..], day, hasHousehold);
    } else {
      ApplyRecoverRemoves(t, events[1..], day, hasHousehold);
    }
  }

  lemma {:induction false} ApplyKeepsRemoved(s: Slot, events: seq<Event>, day: int, hasHousehold: bool)
    requires s.infection == null && s.recovered && !s.infectious && !s.symptomatic
    requires Apply(s, events, day, hasHousehold).Some?
    ensures var t := Apply(s, events, day, hasHousehold).value;
      t.infection == null && t.recovered && !t.infectious && !t.symptomatic
    decreases |events|
  {
    if events != [] {
      var t := StepSlot(s, events[0], day, hasHousehold).value;
      ApplyKeepsRemoved(t, events[1..], day, hasHousehold);
    }
  }

  /** Without a recover callback the slot keeps its infection, recovered
      bit and immunity end. */
  lemma {:induction false} ApplyWithoutRecover(s: Slot, events: seq<Event>, day: int, hasHousehold: bool)
    requires Recover !in events && Apply(s, events, day, hasHousehold).Some?
    ensures var t := Apply(s, events, day, hasHousehold).value;
      t.infection == s.infection && t.recovered == s.recovered && t.immunityEndDate == s.immunityEndDate
    decreases |events|
  {
    if events != [] {
      assert events[0] in events;
      var t := StepSlot(s, events[0], day, hasHousehold).value;
      StepWithoutRecover(s, events[0], day, hasHousehold);
      ApplyWithoutRecover(t, events[1..], day, hasHousehold);
    }
  }

  lemma StepWithoutRecover(s: Slot, e: Event, day: int, hasHousehold: bool)
    requires e != Recover && StepSlot(s, e, day, hasHousehold).Some?
    ensures var t := StepSlot(s, e, day, hasHousehold).value;
      t.infection == s.infection && t.recovered == s.recovered && t.immunityEndDate == s.immunityEndDate
  {
  }

  /** The slot keeps its infection through the callbacks exactly when none
      of them is recover. */
  lemma ApplyKeepsInfectionUnlessRecover(s: Slot, events: seq<Event>, day: int, hasHousehold: bool)
    requires s.infection != null && Apply(s, events, day, hasHousehold).Some?
    ensures var t := Apply(s, events, day, hasHousehold).value;
      t.infection == (if Recover in events then null else s.infection)
  {
    if Recover in events {
      ApplyRecoverRemoves(s, events, day, hasHousehold);
    } else {
      ApplyWithoutRecover(s, events, day, hasHousehold);
    }
  }

  /** Without the exposed household a become_infectious or recover callback
      always fails. */
  lemma {:induction false} ApplyNeedsHousehold(s: Slot, events: seq<Event>, day: int)
    requires BecomeInfectious in events || Recover in events
    ensures Apply(s, events, day, false) == None
    decreases |events|
  {
    if events[0] != BecomeInfectious && events[0] != Recover {
      match StepSlot(s, events[0], day, false)
      case None =>
      case Some(t) => ApplyNeedsHousehold(t, events[1..], day);
    }
  }

  /** The callbacks of one daily update never fail on a slot that holds the
      infection when the exposed household exists: recover, which empties
      the slot, is always the last of them. */
  lemma UpdateEventsApply(s: Slot, chronic: bool, hasTrajectory: bool, m: Milestones, exposure: int,
                          unsusceptibleDate: int, today: int, hostInfectious: bool)
    requires s.infection != null
    ensures Apply(s, UpdateEvents(chronic, hasTrajectory, m, exposure, unsusceptibleDate, today, hostInfectious),
                  today, true).Some?
  {
    var es := UpdateEvents(chronic, hasTrajectory, m, exposure, unsusceptibleDate, today, hostInfectious);
    var i := FireIf(today == m.infectiousDate, BecomeInfectious);
    var y := FireIf(today == m.symptomaticDate, BecomeSymptomatic);
    var r := if today == m.recoveryDate then [Recover] else FireIf(today == unsusceptibleDate, BecomeUnsusceptible);
    if !chronic && hasTrajectory {
      ApplyJoin(s, i, y + r, today, true);
      var s1 := Apply(s, i, today, true).value;
      assert s1.infection != null;
      ApplyJoin(s1, y, r, today, true);
      var s2 := Apply(s1, y, today, true).value;
      assert s2.infection != null;
      assert es == i + (y + r);
    }
  }

  lemma {:induction false} ApplyJoin(s: Slot, a: seq<Event>, b: seq<Event>, day: int, hasHousehold: bool)
    ensures Apply(s, a + b, day, hasHousehold)
            == match Apply(s, a, day, hasHousehold)
               case None => None
               case Some(t) => Apply(t, b, day, hasHousehold)
    decreases |a|
  {
    if a != [] {
      assert (a + b)[0] == a[0] && (a + b)[1..] == a[1..] + b;
      match StepSlot(s, a[0], day, hasHousehold)
      case None =>
      case Some(t) => ApplyJoin(t, a[1..], b, day, hasHousehold);
    } else {
      assert a + b == b;
    }
  }

  /** A new infection exposed on `day` with the trajectory the condition
      drew, its milestones derived (Infection::setup). */
  method NewInfection(condition: Condition, infector: Option<int>, day: int, draws: Draws) returns (inf: Infection)
    ensures fresh(inf)
    ensures inf.condition == condition && inf.infectorId == infector && inf.immunityEnd == draws.immunityEnd
    ensures inf.exposureDate == day && inf.trajectory == draws.trajectory
    ensures inf.Current() == Derive(draws.trajectory, day)
  {
    inf := new Infection(condition, infector, day, draws.immuneResponse, draws.immunityEnd);
    inf.SetTrajectory(draws.trajectory);
  }

  /** The household, when there is one, is marked exposed to condition c. */
  method MarkExposed(g: Option<MixingGroup>, c: nat)
    requires g.Some? ==> g.value.Valid() && c < g.value.conditionCount
    modifies Objects(g)
    ensures g.Some? ==> g.value.Valid() && g.value.exposed == old(g.value.exposed) + {c}
                        && g.value.humanInfectious == old(g.value.humanInfectious)
                        && g.value.recovered == old(g.value.recovered)
  {
    if g.Some? {
      g.value.SetExposed(c);
    }
  }

  /** The household, when there is one, counts one more case fatality. */
  method CountFatality(g: Option<MixingGroup>, c: nat)
    requires g.Some? ==> g.value.Valid() && c < g.value.conditionCount
    modifies Objects(g)
    ensures g.Some? ==> g.value.Valid()
                        && g.value.caseFatalities == old(g.value.caseFatalities)[c := old(g.value.caseFatalities[c]) + 1]
                        && g.value.Bits() == old(g.value.Bits())
  {
    if g.Some? {
      g.value.IncrementCaseFatalities(c);
    }
  }

  /** become_exposed's effect on the slots, `recorded` being the serotype
      recorded after the exposure: the exposed condition's slot holds the new
      infection, is neither susceptible, infectious nor symptomatic, has no
      immunity end, and records day, infector (when there is one) and mixing
      group; under the dengue rule every other serotype but the recorded one
      is no longer susceptible. */
  function Exposed(slots: seq<Slot>, c: nat, inf: Infection, infector: Option<int>, group: Option<MixingGroup>,
                   day: int, recorded: int, dengue: bool): (r: seq<Slot>)
    requires c < |slots|
    ensures |r| == |slots|
  {
    seq(|slots|, s requires 0 <= s < |slots| =>
      if s == c then
        slots[c].(infection := inf, susceptible := false, infectious := false, symptomatic := false,
                  immunityEndDate := -1, exposureDate := day,
                  infectorId := if infector.Some? then infector.value else slots[c].infectorId, infectedIn := group)
      else if dengue && s != recorded then slots[s].(susceptible := false)
      else slots[s])
  }

  /** The serotype rule: the first exposure leaves every other serotype
      unsusceptible, a later one every serotype but the first and the
      current; nothing else about another condition changes. */
  lemma ExposureCrossImmunity(slots: seq<Slot>, c: nat, inf: Infection, infector: Option<int>,
                              group: Option<MixingGroup>, day: int, previous: int, dengue: bool, s: nat)
    requires c < |slots| && s < |slots| && s != c
    ensures var r := Exposed(slots, c, inf, infector, group, day, if dengue && previous == -1 then c else previous, dengue);
      (r[s].susceptible <==> slots[s].susceptible && (dengue ==> previous != -1 && s == previous))
      && r[s].(susceptible := slots[s].susceptible) == slots[s]
  {
  }

  /** The exposed condition's slot afterwards agrees with its bits, holds
      the new infection and records the exposure. */
  lemma ExposedSlot(slots: seq<Slot>, c: nat, inf: Infection, infector: Option<int>, group: Option<MixingGroup>,
                    day: int, recorded: int, dengue: bool)
    requires c < |slots|
    ensures var t := Exposed(slots, c, inf, infector, group, day, recorded, dengue)[c];
      t.Agrees() && t.infection == inf && !t.susceptible && !t.infectious && !t.symptomatic
      && t.immunityEndDate == -1 && t.exposureDate == day && t.infectedIn == group
      && (infector.Some? ==> t.infectorId == infector.value)
  {
  }

  /** An exposure keeps every slot's bits in agreement with it. */
  lemma ExposedKeepsAgreement(slots: seq<Slot>, c: nat, inf: Infection, infector: Option<int>,
                              group: Option<MixingGroup>, day: int, recorded: int, dengue: bool)
    requires c < |slots| && forall s :: 0 <= s < |slots| ==> slots[s].Agrees()
    ensures var r := Exposed(slots, c, inf, infector, group, day, recorded, dengue);
      forall s :: 0 <= s < |r| ==> r[s].Agrees()
  {
  }

  /** The exposure's effect computed as become_exposed does it: first the
      exposed slot, then, under the dengue rule, the serotype recorded and
      the loop making the other serotypes unsusceptible. */
  method Expose(slots: seq<Slot>, c: nat, inf: Infection, infector: Option<int>, group: Option<MixingGroup>,
                day: int, previous: int, dengue: bool) returns (r: seq<Slot>, recorded: int)
    requires c < |slots|
    ensures recorded == if dengue && previous == -1 then c else previous
    ensures r == Exposed(slots, c, inf, infector, group, day, recorded, dengue)
  {
    r := slots[c := slots[c].(infection := inf, susceptible := false, infectious := false, symptomatic := false,
                              immunityEndDate := -1, exposureDate := day,
                              infectorId := if infector.Some? then infector.value else slots[c].infectorId,
                              infectedIn := group)];
    recorded := previous;
    if dengue {
      if recorded == -1 {
        recorded := c;
      }
      r := ClearOtherSerotypes(r, recorded, c);
    }
    assert forall s :: 0 <= s < |r| ==> r[s] == Exposed(slots, c, inf, infector, group, day, recorded, dengue)[s];
  }

  /** become_unsusceptible for every serotype other than the recorded one
      and the current one, one at a time. */
  method ClearOtherSerotypes(slots: seq<Slot>, recorded: int, current: nat) returns (r: seq<Slot>)
    ensures |r| == |slots|
    ensures forall s :: 0 <= s < |r| ==>
              r[s] == if s == recorded || s == current then slots[s] else slots[s].(susceptible := false)
  {
    r := slots;
    for sero := 0 to |slots|
      invariant |r| == |slots|
      invariant forall s :: 0 <= s < |r| ==>
                  r[s] == if sero <= s || s == recorded || s == current then slots[s] else slots[s].(susceptible := false)
    {
      if sero != recorded && sero != current {
        r := r[sero := r[sero].(susceptible := false)];
      }
    }
  }

  /** The infection counters of a mixing group with one more current
      infection of condition c, and `newly` more new and total ones. */
  function CountedInfections(counts: (seq<int>, seq<int>, seq<int>), c: nat, newly: int, current: int)
    : (seq<int>, seq<int>, seq<int>)
    requires c < |counts.0| && c < |counts.1| && c < |counts.2|
  {
    (counts.0[c := counts.0[c] + newly], counts.1[c := counts.1[c] + current], counts.2[c := counts.2[c] + newly])
  }

  /** update_mixing_group_counts' infection counters: a new (and total)
      infection when newly infected, a current infection always. */
  method CountInfection(g: MixingGroup, c: nat, newly: bool)
    requires g.Valid() && c < g.conditionCount
    modifies g
    ensures g.Valid()
    ensures g.InfectionCounts() == CountedInfections(old(g.InfectionCounts()), c, if newly then 1 else 0, 1)
    ensures g.SymptomaticCounts() == old(g.SymptomaticCounts()) && g.Visitors() == old(g.Visitors())
    ensures g.caseFatalities == old(g.caseFatalities) && g.Bits() == old(g.Bits()) && g.Vectors() == old(g.Vectors())
  {
    ghost var counts := g.InfectionCounts();
    if newly {
      g.AddNewInfection(c);
    } else {
      assert counts.0[c := counts.0[c] + 0] == counts.0 && counts.2[c := counts.2[c] + 0] == counts.2;
    }
    g.AddCurrentInfection(c);
  }

  /** update_mixing_group_counts' symptomatic counters: only when
      symptomatic, a new (and total) symptomatic infection when symptoms
      started today, a current one always. */
  method CountSymptomatic(g: MixingGroup, c: nat, symptomatic: bool, newly: bool)
    requires g.Valid() && c < g.conditionCount
    modifies g
    ensures g.Valid()
    ensures g.SymptomaticCounts()
            == CountedInfections(old(g.SymptomaticCounts()), c, if symptomatic && newly then 1 else 0,
                                 if symptomatic then 1 else 0)
    ensures g.InfectionCounts() == old(g.InfectionCounts()) && g.Visitors() == old(g.Visitors())
    ensures g.caseFatalities == old(g.caseFatalities) && g.Bits() == old(g.Bits()) && g.Vectors() == old(g.Vectors())
  {
    ghost var counts := g.SymptomaticCounts();
    if symptomatic {
      if newly {
        g.AddNewSymptomaticInfection(c);
      } else {
        assert counts.0[c := counts.0[c] + 0] == counts.0 && counts.2[c := counts.2[c] + 0] == counts.2;
      }
      g.AddCurrentSymptomaticInfection(c);
    } else {
      assert counts.0[c := counts.0[c] + 0] == counts.0 && counts.1[c := counts.1[c] + 0] == counts.1
             && counts.2[c := counts.2[c] + 0] == counts.2;
    }
  }

  /** update_face_mask_decision in closed form: after the day the person
      wears a mask exactly when symptomatic, still short of the wearing limit
      and either already wearing one or never having worn one, and then one
      more day of wearing is counted. */
  function FaceMaskDecision(wearing: bool, days: int, symptomaticToday: bool, daysToWear: int): (bool, int) {
    if symptomaticToday && days < daysToWear && (wearing || days == 0) then (true, days + 1) else (false, days)
  }

  /** update_infection's running maximum of days symptomatic. */
  function DaysSymptomatic(days: int, symptomatic: bool, symptomsStart: int, today: int): int {
    if symptomatic && today - symptomsStart > days then today - symptomsStart else days
  }

  class Health {
    const conditions: seq<Condition>

    var alive: bool
    var slots: seq<Slot>                    // per condition id
    var daysSymptomatic: int
    var previousInfectionSerotype: int      // the first dengue serotype, or -1
    var hasFaceMaskBehavior: bool
    var wearsFaceMaskToday: bool
    var daysWearingFaceMask: int
    var exposedHousehold: Option<MixingGroup> // the household the person's exposed-household index names

    /** One slot per condition of the run, and the recorded serotype is one
        of them. */
    ghost predicate Valid()
      reads this
    {
      WellIndexed(conditions) && |slots| == |conditions|
      && (previousInfectionSerotype == -1 || 0 <= previousInfectionSerotype < |conditions|)
    }

    /** The bits of every condition agree with its slot. */
    ghost predicate Consistent()
      reads this
    {
      forall c :: 0 <= c < |slots| ==> slots[c].Agrees()
    }

    /** A mixing group whose counters cover the same conditions. */
    ghost predicate Ready(g: Option<MixingGroup>)
      reads this, Objects(g)
    {
      g.Some? ==> g.value.Valid() && g.value.conditionCount == |conditions|
    }

    function Personal(): (bool, int, int, bool, bool, int, Option<MixingGroup>)
      reads this
    {
      (alive, daysSymptomatic, previousInfectionSerotype, hasFaceMaskBehavior, wearsFaceMaskToday, daysWearingFaceMask,
       exposedHousehold)
    }

    function SlotObjects(c: nat): set<object>
      reads this
    {
      if c < |slots| && slots[c].infection != null then {slots[c].infection} else {}
    }

    /** setup's per-condition loop: every slot starts empty with dates and
        ids -1 and counts 0; the conditions assumed susceptible become
        susceptible and those whose at-risk draw succeeds are declared at
        risk. */
    constructor (conditions: seq<Condition>, atRiskDraws: seq<bool>, hasFaceMaskBehavior: bool)
      requires WellIndexed(conditions) && |atRiskDraws| == |conditions|
      ensures Valid() && Consistent()
      ensures this.conditions == conditions && |slots| == |conditions|
      ensures forall c :: 0 <= c < |conditions| ==>
                slots[c] == Initial.(susceptible := conditions[c].assumeSusceptible, atRisk := atRiskDraws[c])
      ensures Personal() == (true, 0, -1, hasFaceMaskBehavior, false, 0, None)
    {
      var n := |conditions|;
      this.conditions := conditions;
      alive, slots, daysSymptomatic, previousInfectionSerotype := true, seq(n, _ => Initial), 0, -1;
      this.hasFaceMaskBehavior, wearsFaceMaskToday, daysWearingFaceMask := hasFaceMaskBehavior, false, 0;
      exposedHousehold := None;
      new;
      for c := 0 to n
        invariant Valid() && Consistent() && this.conditions == conditions
        invariant forall k :: 0 <= k < n ==>
                    slots[k] == if k < c then Initial.(susceptible := conditions[k].assumeSusceptible, atRisk := atRiskDraws[k])
                                else Initial
        invariant Personal() == (true, 0, -1, hasFaceMaskBehavior, false, 0, None)
      {
        if conditions[c].assumeSusceptible {
          var _ := BecomeSusceptible(c);
        }
        if atRiskDraws[c] {
          DeclareAtRisk(c);
        }
      }
    }

    /** become_susceptible: nothing when already susceptible; otherwise the
        slot must be empty, and then the person becomes susceptible, is no
        longer recovered and the susceptibility multiplier is reset. */
    method BecomeSusceptible(c: nat) returns (outcome: Outcome)
      requires Valid() && c < |conditions|
      modifies this
      ensures Valid() && (old(Consistent()) ==> Consistent())
      ensures outcome.Aborted? <==> !old(slots[c].susceptible) && old(slots[c].infection) != null
      ensures old(slots[c].susceptible) || outcome.Aborted? ==> unchanged(this)
      ensures !old(slots[c].susceptible) && outcome == Done ==>
                slots == old(slots)[c := old(slots[c]).(susceptible := true, recovered := false, susceptibilityMultp := 1.0)]
                && Personal() == old(Personal())
    {
      if slots[c].susceptible {
        return Done;
      }
      if slots[c].infection != null {
        return Aborted("assertion: become_susceptible with an active infection");
      }
      slots := slots[c := slots[c].(susceptible := true, recovered := false, susceptibilityMultp := 1.0)];
      outcome := Done;
    }

    /** become_susceptible_by_vaccine_waning: susceptible again only when
        not susceptible yet and without an active infection; recovered is
        left alone. */
    method BecomeSusceptibleByVaccineWaning(c: nat)
      requires Valid() && c < |conditions|
      modifies this
      ensures Valid() && (old(Consistent()) ==> Consistent())
      ensures old(slots[c].susceptible) || old(slots[c].infection) != null ==> unchanged(this)
      ensures !old(slots[c].susceptible) && old(slots[c].infection) == null ==>
                slots == old(slots)[c := old(slots[c]).(susceptible := true, susceptibilityMultp := 1.0)]
                && Personal() == old(Personal())
    {
      if slots[c].susceptible || slots[c].infection != null {
        return;
      }
      slots := slots[c := slots[c].(susceptible := true, susceptibilityMultp := 1.0)];
    }

    /** become_unsusceptible: clears the susceptible bit and nothing else. */
    method BecomeUnsusceptible(c: nat)
      requires Valid() && c < |conditions|
      modifies this
      ensures Valid() && (old(Consistent()) ==> Consistent())
      ensures slots == old(slots)[c := old(slots[c]).(susceptible := false)] && Personal() == old(Personal())
    {
      slots := slots[c := slots[c].(susceptible := false)];
    }

    /** declare_at_risk: sets the at-risk bit and nothing else. */
    method DeclareAtRisk(c: nat)
      requires Valid() && c < |conditions|
      modifies this
      ensures Valid() && (old(Consistent()) ==> Consistent())
      ensures slots == old(slots)[c := old(slots[c]).(atRisk := true)] && Personal() == old(Personal())
    {
      slots := slots[c := slots[c].(atRisk := true)];
    }

    /** become_exposed: a second exposure to a condition with an active
        infection aborts the run. Otherwise a new infection fills the slot,
        the person is neither infectious, symptomatic nor susceptible for the
        condition, the immunity end is cleared, exposure day, infector and
        mixing group are recorded, and the household, when there is one, is
        marked exposed and becomes the person's exposed household. With
        vector transmission and several conditions the dengue rule follows:
        the first exposure records its serotype, and every serotype but the
        recorded and the current one becomes unsusceptible. */
    method BecomeExposed(c: nat, infector: Option<int>, group: Option<MixingGroup>, day: int,
                         host: Host, draws: Draws, vectorTransmission: bool) returns (outcome: Outcome)
      requires Valid() && c < |conditions| && Ready(host.household)
      modifies this, Objects(host.household)
      ensures Valid() && Ready(host.household) && (old(Consistent()) ==> Consistent())
      ensures outcome.Aborted? <==> old(slots[c].infection) != null
      ensures outcome.Aborted? ==> unchanged(this) && unchanged(Objects(host.household))
      ensures outcome == Done ==>
                var inf := slots[c].infection;
                fresh(inf) && inf.condition == conditions[c] && inf.infectorId == infector
                && inf.exposureDate == day && inf.trajectory == draws.trajectory
                && inf.Current() == Derive(draws.trajectory, day) && inf.immunityEnd == draws.immunityEnd
      ensures outcome == Done ==>
                slots == Exposed(old(slots), c, slots[c].infection, infector, group, day, previousInfectionSerotype,
                                 vectorTransmission && |conditions| > 1)
      ensures outcome == Done ==>
                previousInfectionSerotype ==
                  (if vectorTransmission && |conditions| > 1 && old(previousInfectionSerotype) == -1 then c
                   else old(previousInfectionSerotype))
      ensures outcome == Done ==>
                (alive, daysSymptomatic, hasFaceMaskBehavior, wearsFaceMaskToday, daysWearingFaceMask)
                == old((alive, daysSymptomatic, hasFaceMaskBehavior, wearsFaceMaskToday, daysWearingFaceMask))
      ensures outcome == Done ==>
                exposedHousehold == if host.household.Some? then host.household else old(exposedHousehold)
      ensures outcome == Done && host.household.Some? ==>
                var h := host.household.value;
                h.exposed == old(h.exposed) + {c} && h.humanInfectious == old(h.humanInfectious)
                && h.recovered == old(h.recovered)
    {
      if slots[c].infection != null {
        return Aborted("DOUBLE EXPOSURE");
      }
      var inf := NewInfection(conditions[c], infector, day, draws);
      RecordExposure(c, inf, infector, group, day, host, vectorTransmission && |conditions| > 1);
      outcome := Done;
    }

    /** become_exposed once the new infection exists: the household is
        marked exposed and recorded as the exposed household, and the slots
        take the exposure and the serotype rule. */
    method RecordExposure(c: nat, inf: Infection, infector: Option<int>, group: Option<MixingGroup>, day: int,
                          host: Host, dengue: bool)
      requires Valid() && c < |conditions| && Ready(host.household)
      modifies this, Objects(host.household)
      ensures Valid() && Ready(host.household) && (old(Consistent()) ==> Consistent())
      ensures slots == Exposed(old(slots), c, inf, infector, group, day, previousInfectionSerotype, dengue)
      ensures previousInfectionSerotype ==
                if dengue && old(previousInfectionSerotype) == -1 then c else old(previousInfectionSerotype)
      ensures (alive, daysSymptomatic, hasFaceMaskBehavior, wearsFaceMaskToday, daysWearingFaceMask)
              == old((alive, daysSymptomatic, hasFaceMaskBehavior, wearsFaceMaskToday, daysWearingFaceMask))
      ensures exposedHousehold == if host.household.Some? then host.household else old(exposedHousehold)
      ensures host.household.Some? ==>
                var h := host.household.value;
                h.exposed == old(h.exposed) + {c} && h.humanInfectious == old(h.humanInfectious)
                && h.recovered == old(h.recovered)
    {
      ghost var wasConsistent := Consistent();
      MarkExposed(host.household, c);
      if host.household.Some? {
        exposedHousehold := host.household;
      }
      var all, recorded := Expose(slots, c, inf, infector, group, day, previousInfectionSerotype, dengue);
      if wasConsistent {
        ExposedKeepsAgreement(slots, c, inf, infector, group, day, recorded, dengue);
      }
      slots, previousInfectionSerotype := all, recorded;
    }

    /** become_infectious: requires an active infection and the exposed
        household; sets the infectious bit and marks the household as
        holding an infectious person for the condition. */
    method BecomeInfectious(c: nat) returns (outcome: Outcome)
      requires Valid() && c < |conditions| && Ready(exposedHousehold)
      modifies this, Objects(exposedHousehold)
      ensures Valid() && Ready(exposedHousehold) && (old(Consistent()) ==> Consistent())
      ensures outcome.Aborted? <==> old(slots[c].infection) == null || exposedHousehold.None?
      ensures outcome.Aborted? ==> unchanged(this) && unchanged(Objects(exposedHousehold))
      ensures outcome == Done ==>
                slots == old(slots)[c := old(slots[c]).(infectious := true)] && Personal() == old(Personal())
      ensures outcome == Done ==>
                var h := exposedHousehold.value;
                h.humanInfectious == old(h.humanInfectious) + {c} && h.recovered == old(h.recovered)
                && h.exposed == old(h.exposed)
    {
      if slots[c].infection == null {
        return Aborted("assertion: become_infectious without an infection");
      }
      if exposedHousehold.None? {
        return Aborted("assertion: no exposed household");
      }
      exposedHousehold.value.SetHumanInfectious(c);
      slots := slots[c := slots[c].(infectious := true)];
      outcome := Done;
    }

    /** become_noninfectious: requires an active infection; clears only the
        infectious bit. */
    method BecomeNoninfectious(c: nat) returns (outcome: Outcome)
      requires Valid() && c < |conditions|
      modifies this
      ensures Valid() && (old(Consistent()) ==> Consistent())
      ensures outcome.Aborted? <==> old(slots[c].infection) == null
      ensures outcome.Aborted? ==> unchanged(this)
      ensures outcome == Done ==>
                slots == old(slots)[c := old(slots[c]).(infectious := false)] && Personal() == old(Personal())
    {
      if slots[c].infection == null {
        return Aborted("assertion: become_noninfectious without an infection");
      }
      slots := slots[c := slots[c].(infectious := false)];
      outcome := Done;
    }

    /** become_symptomatic: requires an active infection; idempotent. */
    method BecomeSymptomatic(c: nat) returns (outcome: Outcome)
      requires Valid() && c < |conditions|
      modifies this
      ensures Valid() && (old(Consistent()) ==> Consistent())
      ensures outcome.Aborted? <==> old(slots[c].infection) == null
      ensures outcome.Aborted? || old(slots[c].symptomatic) ==> unchanged(this)
      ensures outcome == Done ==>
                slots == old(slots)[c := old(slots[c]).(symptomatic := true)] && Personal() == old(Personal())
    {
      if slots[c].infection == null {
        return Aborted("assertion: become_symptomatic without an infection");
      }
      if slots[c].symptomatic {
        return Done;
      }
      slots := slots[c := slots[c].(symptomatic := true)];
      outcome := Done;
    }

    /** resolve_symptoms: clears only the symptomatic bit. */
    method ResolveSymptoms(c: nat)
      requires Valid() && c < |conditions|
      modifies this
      ensures Valid() && (old(Consistent()) ==> Consistent())
      ensures old(!slots[c].symptomatic) ==> unchanged(this)
      ensures slots == old(slots)[c := old(slots[c]).(symptomatic := false)] && Personal() == old(Personal())
    {
      if slots[c].symptomatic {
        slots := slots[c := slots[c].(symptomatic := false)];
      }
    }

    /** terminate_infection: empties the slot (nothing on an empty slot). */
    method TerminateInfection(c: nat)
      requires Valid() && c < |conditions|
      modifies this
      ensures Valid()
      ensures old(slots[c].infection) == null ==> unchanged(this)
      ensures slots == old(slots)[c := old(slots[c]).(infection := null)] && Personal() == old(Personal())
    {
      if slots[c].infection != null {
        slots := slots[c := slots[c].(infection := null)];
      }
    }

    /** become_removed: the slot is emptied and the person is neither
        susceptible, infectious nor symptomatic for the condition; the date
        getters then report -1. */
    method BecomeRemoved(c: nat)
      requires Valid() && c < |conditions|
      modifies this
      ensures Valid() && (old(Consistent()) ==> Consistent())
      ensures slots == old(slots)[c := old(slots[c]).Removed()] && Personal() == old(Personal())
      ensures InfectiousStartDate(c) == -1 && SymptomsStartDate(c) == -1 && Infector(c) == None
    {
      TerminateInfection(c);
      slots := slots[c := slots[c].(susceptible := false, infectious := false, symptomatic := false)];
    }

    /** recover: requires an active infection (and the exposed household,
        which the program dereferences unchecked). Recovered is set, the
        household records the recovery and holds no infectious person any
        more, the immunity end is the infection's value shifted by the day
        when it is set (> -1), and the infection is removed. */
    method Recover(c: nat, day: int) returns (outcome: Outcome)
      requires Valid() && c < |conditions| && Ready(exposedHousehold)
      modifies this, Objects(exposedHousehold)
      ensures Valid() && Ready(exposedHousehold) && (old(Consistent()) ==> Consistent())
      ensures outcome.Aborted? <==> old(slots[c].infection) == null || exposedHousehold.None?
      ensures outcome.Aborted? ==> unchanged(this) && unchanged(Objects(exposedHousehold))
      ensures outcome == Done ==>
                slots == old(slots)[c := old(slots[c]).(recovered := true,
                           immunityEndDate := ImmunityEnd(old(slots[c].infection.immunityEnd), day)).Removed()]
                && Personal() == old(Personal())
      ensures outcome == Done ==>
                var h := exposedHousehold.value;
                h.recovered == old(h.recovered) + {c} && h.humanInfectious == {} && h.exposed == old(h.exposed)
    {
      if slots[c].infection == null {
        return Aborted("assertion: recover without an infection");
      }
      if exposedHousehold.None? {
        return Aborted("null exposed household");
      }
      var h := exposedHousehold.value;
      h.SetRecovered(c);
      h.ResetHumanInfectious();
      slots := slots[c := slots[c].(recovered := true, immunityEndDate := ImmunityEnd(slots[c].infection.immunityEnd, day))];
      BecomeRemoved(c);
      outcome := Done;
    }

    /** become_immune: the condition is told the susceptible, infectious and
        symptomatic bits (returned here); then immunity is set and those
        three bits are cleared. */
    method BecomeImmune(c: nat) returns (notified: (bool, bool, bool))
      requires Valid() && c < |conditions|
      modifies this
      ensures Valid() && (old(Consistent()) ==> Consistent())
      ensures notified == (old(slots[c].susceptible), old(slots[c].infectious), old(slots[c].symptomatic))
      ensures slots == old(slots)[c := old(slots[c]).(immune := true, susceptible := false, infectious := false,
                                                      symptomatic := false)]
      ensures Personal() == old(Personal())
    {
      notified := (slots[c].susceptible, slots[c].infectious, slots[c].symptomatic);
      slots := slots[c := slots[c].(immune := true, susceptible := false, infectious := false, symptomatic := false)];
    }

    /** become_case_fatality: case fatality is set and the infection removed;
        the household (or the permanent household of a hospitalized person)
        counts one more fatality when there is one, and the person is queued
        to die (prepare_to_die appends its store index to the population's
        death list, given and returned here), not deleted. */
    method BecomeCaseFatality(c: nat, host: Host, deathList: seq<nat>) returns (deathList': seq<nat>)
      requires Valid() && c < |conditions| && Ready(FatalityHousehold(host))
      modifies this, Objects(FatalityHousehold(host))
      ensures Valid() && Ready(FatalityHousehold(host)) && (old(Consistent()) ==> Consistent())
      ensures slots == old(slots)[c := old(slots[c]).(caseFatality := true).Removed()] && Personal() == old(Personal())
      ensures FatalityHousehold(host).Some? ==>
                var h := FatalityHousehold(host).value;
                h.caseFatalities == old(h.caseFatalities)[c := old(h.caseFatalities[c]) + 1] && h.Bits() == old(h.Bits())
      ensures deathList' == deathList + [host.index]
    {
      slots := slots[c := slots[c].(caseFatality := true)];
      BecomeRemoved(c);
      CountFatality(FatalityHousehold(host), c);
      deathList' := deathList + [host.index];
    }

    /** One callback of Infection::update, dispatched to the transition it
        names. */
    method ApplyEvent(c: nat, day: int, e: Event) returns (outcome: Outcome)
      requires Valid() && c < |conditions| && Ready(exposedHousehold)
      modifies this, Objects(exposedHousehold)
      ensures Valid() && Ready(exposedHousehold) && (old(Consistent()) ==> Consistent())
      ensures var next := StepSlot(old(slots[c]), e, day, exposedHousehold.Some?);
        (outcome.Aborted? <==> next.None?) && (outcome == Done ==> slots == old(slots)[c := next.value])
      ensures Personal() == old(Personal())
      ensures outcome == Done && exposedHousehold.Some? ==>
                var h := exposedHousehold.value;
                (h.humanInfectious, h.recovered) == MarkHousehold(old(h.humanInfectious), old(h.recovered), c, [e])
                && h.exposed == old(h.exposed)
    {
      match e
      case BecomeInfectious => outcome := BecomeInfectious(c);
      case BecomeSymptomatic => outcome := BecomeSymptomatic(c);
      case Recover => outcome := Recover(c, day);
      case BecomeUnsusceptible => BecomeUnsusceptible(c); outcome := Done;
    }

    /** The callbacks one update reported, applied in order; the run aborts
        at the first that fails. */
    method ApplyEvents(c: nat, day: int, events: seq<Event>) returns (outcome: Outcome)
      requires Valid() && c < |conditions| && Ready(exposedHousehold)
      modifies this, Objects(exposedHousehold)
      ensures Valid() && Ready(exposedHousehold) && (old(Consistent()) ==> Consistent())
      ensures var final := Apply(old(slots[c]), events, day, exposedHousehold.Some?);
        (outcome.Aborted? <==> final.None?) && (outcome == Done ==> slots == old(slots)[c := final.value])
      ensures Personal() == old(Personal())
      ensures outcome == Done && exposedHousehold.Some? ==>
                var h := exposedHousehold.value;
                (h.humanInfectious, h.recovered) == MarkHousehold(old(h.humanInfectious), old(h.recovered), c, events)
                && h.exposed == old(h.exposed)
    {
      ghost var s0, hh := slots[c], exposedHousehold.Some?;
      ghost var marks0 := if hh then (exposedHousehold.value.humanInfectious, exposedHousehold.value.recovered)
                          else ({}, {});
      outcome := Done;
      for i := 0 to |events|
        invariant Valid() && Ready(exposedHousehold) && (old(Consistent()) ==> Consistent())
        invariant slots == old(slots)[c := slots[c]] && Personal() == old(Personal()) && outcome == Done
        invariant Apply(s0, events, day, hh) == Apply(slots[c], events[i..], day, hh)
        invariant hh ==> var h := exposedHousehold.value;
                    MarkHousehold(marks0.0, marks0.1, c, events)
                    == MarkHousehold(h.humanInfectious, h.recovered, c, events[i..])
                    && h.exposed == old(h.exposed)
      {
        assert events[i..][0] == events[i] && events[i..][1..] == events[i + 1..];
        outcome := ApplyEvent(c, day, events[i]);
        if outcome.Aborted? {
          return;
        }
      }
      assert events[|events|..] == [];
    }

    /** update_infection, without the program's use of the infection after
        a recover callback has deleted it: the face-mask decision first when
        the person has that behaviour; nothing more on an empty slot;
        otherwise the infection's update and its callbacks, the running
        maximum of days symptomatic, and a case fatality when the infection,
        still present, is fatal today. */
    method UpdateInfection(day: int, c: nat, symptomaticToday: bool, daysToWear: int, isFatal: int -> bool,
                           host: Host, deathList: seq<nat>)
      returns (outcome: Outcome, events: seq<Event>, deathList': seq<nat>)
      requires Valid() && c < |conditions| && Ready(exposedHousehold) && Ready(FatalityHousehold(host))
      modifies this, SlotObjects(c), Objects(exposedHousehold), Objects(FatalityHousehold(host))
      ensures Valid() && (old(Consistent()) ==> Consistent())
      ensures (wearsFaceMaskToday, daysWearingFaceMask)
              == if hasFaceMaskBehavior
                 then FaceMaskDecision(old(wearsFaceMaskToday), old(daysWearingFaceMask), symptomaticToday, daysToWear)
                 else old((wearsFaceMaskToday, daysWearingFaceMask))
      ensures (alive, previousInfectionSerotype, hasFaceMaskBehavior, exposedHousehold)
              == old((alive, previousInfectionSerotype, hasFaceMaskBehavior, exposedHousehold))
      ensures old(slots[c].infection) == null ==>
                outcome == Done && events == [] && slots == old(slots) && daysSymptomatic == old(daysSymptomatic)
                && deathList' == deathList
      ensures old(slots[c].infection) != null ==>
                var inf := old(slots[c].infection);
                events == UpdateEvents(inf.condition.IsChronic(), old(inf.trajectory).Some?, old(inf.Current()),
                                       old(inf.exposureDate), old(inf.UnsusceptibleDate()), day, old(slots[c].infectious))
                && (outcome.Aborted? <==> Apply(old(slots[c]), events, day, exposedHousehold.Some?).None?)
      ensures outcome == Done && old(slots[c].infection) != null ==>
                var inf := old(slots[c].infection);
                var t := Apply(old(slots[c]), events, day, exposedHousehold.Some?).value;
                var fatal := Event.Recover !in events && inf.IsFatal();
                daysSymptomatic == DaysSymptomatic(old(daysSymptomatic), t.symptomatic,
                                                   if t.infection == null then -1 else inf.symptomaticDate, day)
                && daysSymptomatic >= old(daysSymptomatic)
                && slots == old(slots)[c := if fatal then t.(caseFatality := true).Removed() else t]
                && deathList' == if fatal then deathList + [host.index] else deathList
    {
      if hasFaceMaskBehavior {
        UpdateFaceMaskDecision(symptomaticToday, daysToWear);
      }
      if slots[c].infection == null {
        return Done, [], deathList;
      }
      outcome, events, deathList' := ProgressInfection(day, c, isFatal, host, deathList);
    }

    /** The part of update_infection that runs when the slot holds an
        infection: the infection's update and its callbacks, the running
        maximum of days symptomatic and a case fatality when the infection,
        still present, is fatal today. */
    method ProgressInfection(day: int, c: nat, isFatal: int -> bool, host: Host, deathList: seq<nat>)
      returns (outcome: Outcome, events: seq<Event>, deathList': seq<nat>)
      requires Valid() && c < |conditions| && Ready(exposedHousehold) && Ready(FatalityHousehold(host))
      requires slots[c].infection != null
      modifies this, SlotObjects(c), Objects(exposedHousehold), Objects(FatalityHousehold(host))
      ensures Valid() && (old(Consistent()) ==> Consistent())
      ensures (alive, previousInfectionSerotype, hasFaceMaskBehavior, wearsFaceMaskToday, daysWearingFaceMask,
               exposedHousehold)
              == old((alive, previousInfectionSerotype, hasFaceMaskBehavior, wearsFaceMaskToday, daysWearingFaceMask,
                      exposedHousehold))
      ensures var inf := old(slots[c].infection);
                events == UpdateEvents(inf.condition.IsChronic(), old(inf.trajectory).Some?, old(inf.Current()),
                                       old(inf.exposureDate), old(inf.UnsusceptibleDate()), day, old(slots[c].infectious))
                && (outcome.Aborted? <==> Apply(old(slots[c]), events, day, exposedHousehold.Some?).None?)
      ensures outcome == Done ==>
                var inf := old(slots[c].infection);
                var t := Apply(old(slots[c]), events, day, exposedHousehold.Some?).value;
                var fatal := Event.Recover !in events && inf.IsFatal();
                daysSymptomatic == DaysSymptomatic(old(daysSymptomatic), t.symptomatic,
                                                   if t.infection == null then -1 else inf.symptomaticDate, day)
                && daysSymptomatic >= old(daysSymptomatic)
                && slots == old(slots)[c := if fatal then t.(caseFatality := true).Removed() else t]
                && deathList' == if fatal then deathList + [host.index] else deathList
    {
      deathList' := deathList;
      var inf := slots[c].infection;
      events := inf.Update(day, slots[c].infectious, isFatal);
      outcome := ApplyEvents(c, day, events);
      if outcome.Aborted? {
        return;
      }
      ApplyKeepsInfectionUnlessRecover(old(slots[c]), events, day, exposedHousehold.Some?);
      deathList' := ConcludeDay(day, c, host, deathList);
    }

    /** The close of update_infection: the running maximum of days
        symptomatic, then a case fatality when the slot still holds an
        infection that is fatal today. */
    method ConcludeDay(day: int, c: nat, host: Host, deathList: seq<nat>) returns (deathList': seq<nat>)
      requires Valid() && c < |conditions| && Ready(FatalityHousehold(host))
      modifies this, Objects(FatalityHousehold(host))
      ensures Valid() && (old(Consistent()) ==> Consistent())
      ensures (alive, previousInfectionSerotype, hasFaceMaskBehavior, wearsFaceMaskToday, daysWearingFaceMask,
               exposedHousehold)
              == old((alive, previousInfectionSerotype, hasFaceMaskBehavior, wearsFaceMaskToday, daysWearingFaceMask,
                      exposedHousehold))
      ensures daysSymptomatic == DaysSymptomatic(old(daysSymptomatic), old(slots[c].symptomatic), old(SymptomsStartDate(c)), day)
      ensures var fatal := old(slots[c].infection) != null && old(slots[c].infection.IsFatal());
                slots == old(slots)[c := if fatal then old(slots[c]).(caseFatality := true).Removed() else old(slots[c])]
                && deathList' == if fatal then deathList + [host.index] else deathList
    {
      deathList' := deathList;
      var start := SymptomsStartDate(c);
      daysSymptomatic := DaysSymptomatic(daysSymptomatic, slots[c].symptomatic, start, day);
      if slots[c].infection != null && slots[c].infection.IsFatal() {
        deathList' := BecomeCaseFatality(c, host, deathList);
      }
    }

    /** update_face_mask_decision, with is_symptomatic's answer for the day
        as a parameter. */
    method UpdateFaceMaskDecision(symptomaticToday: bool, daysToWear: int)
      requires Valid()
      modifies this
      ensures Valid() && (old(Consistent()) ==> Consistent())
      ensures (wearsFaceMaskToday, daysWearingFaceMask)
              == FaceMaskDecision(old(wearsFaceMaskToday), old(daysWearingFaceMask), symptomaticToday, daysToWear)
      ensures slots == old(slots)
      ensures (alive, daysSymptomatic, previousInfectionSerotype, hasFaceMaskBehavior, exposedHousehold)
              == old((alive, daysSymptomatic, previousInfectionSerotype, hasFaceMaskBehavior, exposedHousehold))
    {
      var wearing, days := wearsFaceMaskToday, daysWearingFaceMask;
      if symptomaticToday && days == 0 {
        wearing := true;                              // start_wearing_face_mask
      }
      if wearing {
        if symptomaticToday && days < daysToWear {
          days := days + 1;
        } else {
          wearing := false;                           // stop_wearing_face_mask
        }
      }
      wearsFaceMaskToday, daysWearingFaceMask := wearing, days;
    }

    /** infect: the infectee is exposed with this person as infector, this
        person's infectee count goes up by exactly one, and this person's own
        exposure date, which must be set, names the cohort credited with the
        infectee (returned here). */
    method Infect(infectee: Health, c: nat, group: Option<MixingGroup>, day: int, myId: int, infecteeHost: Host,
                  draws: Draws, vectorTransmission: bool) returns (outcome: Outcome, cohortDay: int)
      requires infectee != this && Valid() && c < |conditions|
      requires infectee.Valid() && c < |infectee.conditions| && infectee.Ready(infecteeHost.household)
      modifies this, infectee, Objects(infecteeHost.household)
      ensures Valid() && infectee.Valid() && (old(Consistent()) ==> Consistent())
      ensures old(infectee.slots[c].infection) != null ==> outcome.Aborted? && unchanged(this)
      ensures old(infectee.slots[c].infection) == null ==>
                var s := infectee.slots[c];
                s.infection != null && fresh(s.infection) && s.infection.infectorId == Some(myId)
                && s.exposureDate == day && s.infectorId == myId && s.infectedIn == group && !s.susceptible
                && slots == old(slots)[c := old(slots[c]).(infecteeCount := old(slots[c].infecteeCount) + 1)]
                && Personal() == old(Personal())
                && (outcome.Aborted? <==> slots[c].exposureDate < 0)
                && (outcome == Done ==> cohortDay == slots[c].exposureDate)
    {
      cohortDay := -1;
      outcome := infectee.BecomeExposed(c, Some(myId), group, day, infecteeHost, draws, vectorTransmission);
      if outcome.Aborted? {
        return;
      }
      CreditInfectee(c);
      cohortDay := slots[c].exposureDate;
      if cohortDay < 0 {
        return Aborted("assertion: infector without an exposure date"), cohortDay;
      }
    }

    /** One more infectee for the condition. */
    method CreditInfectee(c: nat)
      requires Valid() && c < |conditions|
      modifies this
      ensures Valid() && (old(Consistent()) ==> Consistent())
      ensures slots == old(slots)[c := old(slots[c]).(infecteeCount := old(slots[c].infecteeCount) + 1)]
      ensures Personal() == old(Personal())
    {
      slots := slots[c := slots[c].(infecteeCount := slots[c].infecteeCount + 1)];
    }

    /** update_mixing_group_counts: only for a person with an active
        infection; nothing for a missing group; otherwise one more current
        infection, one more new infection when exposed today, and, when
        symptomatic, one more current and, when symptoms started today, one
        more new symptomatic infection. */
    method UpdateMixingGroupCounts(day: int, c: nat, group: Option<MixingGroup>) returns (outcome: Outcome)
      requires Valid() && c < |conditions| && Ready(group)
      modifies Objects(group)
      ensures Ready(group)
      ensures outcome.Aborted? <==> slots[c].infection == null
      ensures outcome.Aborted? || group.None? ==> unchanged(Objects(group))
      ensures outcome == Done && group.Some? ==>
                var g := group.value;
                var symptomatic := slots[c].symptomatic;
                g.InfectionCounts()
                == CountedInfections(old(g.InfectionCounts()), c, if day == slots[c].exposureDate then 1 else 0, 1)
                && g.SymptomaticCounts()
                   == CountedInfections(old(g.SymptomaticCounts()), c,
                                        if symptomatic && day == SymptomsStartDate(c) then 1 else 0,
                                        if symptomatic then 1 else 0)
                && g.Visitors() == old(g.Visitors()) && g.caseFatalities == old(g.caseFatalities)
                && g.Bits() == old(g.Bits()) && g.Vectors() == old(g.Vectors())
    {
      if slots[c].infection == null {
        return Aborted("assertion: mixing group counts without an infection");
      }
      if group.None? {
        return Done;
      }
      CountInfection(group.value, c, day == slots[c].exposureDate);
      CountSymptomatic(group.value, c, slots[c].symptomatic, day == SymptomsStartDate(c));
      outcome := Done;
    }

    /** terminate: every active infection is removed, the conditions whose
        health-condition state is set (> -1) are reported, in condition
        order, to have the person terminated, and the person is no longer
        alive. */
    method Terminate() returns (terminated: seq<nat>)
      requires Valid()
      modifies this
      ensures Valid() && (old(Consistent()) ==> Consistent())
      ensures |slots| == |old(slots)|
      ensures forall c :: 0 <= c < |slots| ==>
                slots[c] == if old(slots[c].infection) != null then old(slots[c]).Removed() else old(slots[c])
      ensures forall c :: c in terminated <==> 0 <= c < |slots| && old(slots[c].conditionState) > -1
      ensures forall i, j :: 0 <= i < j < |terminated| ==> terminated[i] < terminated[j]
      ensures !alive && (daysSymptomatic, previousInfectionSerotype, hasFaceMaskBehavior, wearsFaceMaskToday,
                         daysWearingFaceMask, exposedHousehold)
                        == old((daysSymptomatic, previousInfectionSerotype, hasFaceMaskBehavior,
                                wearsFaceMaskToday, daysWearingFaceMask, exposedHousehold))
    {
      terminated := [];
      for c := 0 to |conditions|
        invariant Valid() && (old(Consistent()) ==> Consistent()) && Personal() == old(Personal())
        invariant |slots| == |old(slots)|
        invariant forall k :: 0 <= k < |slots| ==>
                    slots[k] == if k < c && old(slots[k].infection) != null then old(slots[k]).Removed() else old(slots[k])
        invariant forall k :: k in terminated <==> 0 <= k < c && old(slots[k].conditionState) > -1
        invariant forall i, j :: 0 <= i < j < |terminated| ==> terminated[i] < terminated[j]
        invariant forall i :: 0 <= i < |terminated| ==> terminated[i] < c
      {
        if slots[c].infection != null {
          BecomeRemoved(c);
        }
        if slots[c].conditionState > -1 {
          terminated := terminated + [c];
        }
      }
      alive := false;
    }

    /** get_infectious_start_date: -1 on an empty slot; otherwise the
        infection's date, the one its trajectory gives when derived. */
    function InfectiousStartDate(c: nat): (r: int)
      requires c < |slots|
      reads this, SlotObjects(c)
      ensures slots[c].infection == null ==> r == -1
      ensures slots[c].infection != null ==> r == slots[c].infection.infectiousDate
      ensures slots[c].infection != null && slots[c].infection.Derived() ==>
                r == Derive(slots[c].infection.trajectory, slots[c].infection.exposureDate).infectiousDate
    {
      if slots[c].infection == null then -1 else slots[c].infection.infectiousDate
    }

    /** get_symptoms_start_date: -1 on an empty slot; otherwise the
        infection's date, the one its trajectory gives when derived. */
    function SymptomsStartDate(c: nat): (r: int)
      requires c < |slots|
      reads this, SlotObjects(c)
      ensures slots[c].infection == null ==> r == -1
      ensures slots[c].infection != null ==> r == slots[c].infection.symptomaticDate
      ensures slots[c].infection != null && slots[c].infection.Derived() ==>
                r == Derive(slots[c].infection.trajectory, slots[c].infection.exposureDate).symptomaticDate
    {
      if slots[c].infection == null then -1 else slots[c].infection.symptomaticDate
    }

    /** get_infector: none on an empty slot. */
    function Infector(c: nat): (r: Option<int>)
      requires c < |slots|
      reads this, SlotObjects(c)
      ensures slots[c].infection == null ==> r == None
      ensures slots[c].infection != null ==> r == slots[c].infection.infectorId
    {
      if slots[c].infection == null then None else slots[c].infection.infectorId
    }

    /** get_infected_mixing_group_id: -1 when the infection came from no
        mixing group. */
    function InfectedMixingGroupId(c: nat): (r: int)
      requires c < |slots|
      reads this
      ensures slots[c].infectedIn.None? ==> r == -1
      ensures slots[c].infectedIn.Some? ==> r == slots[c].infectedIn.value.id
    {
      if slots[c].infectedIn.None? then -1 else slots[c].infectedIn.value.id
    }
  }
}

# FRED epidemic core in Dafny

This project models the agent-level epidemic machinery of FRED (a Framework
for Reconstructing Epidemiological Dynamics). It covers:

- **Infection**: the dates and periods an infection derives from its trajectory.
- **Daily update**: the callbacks one day of an infection makes into its host.
- **Health**: the per-condition health state of a person and its guarded
  transitions:
  - susceptible → exposed → infectious / symptomatic → recovered / removed;
  - immunity, case fatality and the face-mask behaviour.
- **Mixing groups**: the counters and bitsets of a mixing group (place), and
  the block allocator for places.
- **Population**:
  - the person store, with its recycled indices and ids handed out once;
  - the birthday index;
  - the daily death and maternity lists;
  - the order of the passes of the daily update;
  - the age distribution and the age-ranged random choice.
- **Regional layer**: the grid of patches, the mapping between patch ids and
  patches, and the searches for nearby hospitals and workplaces.

| file | module | models |
|---|---|---|
| wrappers.dfy | Wrappers | Option (a nullable pointer) and Outcome (Done, or Aborted where the program asserts or calls its fatal-error routine) |
| condition.dfy | Conditions | the few attributes of a disease / condition that the core reads |
| trajectory.dfy | Trajectories | `determine_transition_dates` as a function `Derive` over a trajectory, and its properties |
| infection.dfy | Infections | class `Infection` (src/Infection.cc): construction, transition dates, the daily update as a list of host callbacks, seed advancing and the period modifiers |
| place.dfy | Places | class `MixingGroup` (the counters and bitsets of src/Place.h), the subtype tests, and class `Allocator` |
| health.dfy | HealthState | class `Health` (src/Health.cc): one `Slot` per condition, with every transition as a method |
| birthdays.dfy | Birthdays | the birthday buckets, the daily dispatch and the swap-with-last removal |
| passes.dfy | Passes | the order of the passes in `Population::update` |
| population.dfy | Populations | class `Population` (src/Population.cc) |
| regional.dfy | Regional | the regional layer (src/Regional_Layer.cc) as a value, with the two searches as methods with loops |

Representation choices:

- **Health's arrays and bitsets → one `Slot` per condition.** The program keeps
  arrays and bitsets indexed by condition id. The model keeps one `Slot` per
  condition in a `seq<Slot>` field. A slot holds:
  - the infection pointer;
  - the seven bits;
  - the dates and counters.
- **Callbacks → a list of events.** `Infection::update` calls back into its
  host (become infectious, become symptomatic, recover, become
  unsusceptible). In the model, `Infection.Update` returns the list of
  callbacks it makes, as `Event`s. `Health` then applies the list in order:
  `StepSlot`/`Apply` on values, and `ApplyEvent`/`ApplyEvents` on the object.
- **Mixing groups keep `seq` fields.** A mixing group's per-condition counters
  are `seq<int>` fields that the methods reassign. Its bitsets are `set<nat>`
  fields.
- **The exposed household is Health's.** The program keeps the
  exposed-household index on the person. The model keeps the household it
  names as a field of `Health`. `become_exposed` sets it to the person's
  household when there is one; `become_infectious` and `recover` read it.
- **People are store indices.** A person pointer in the population is
  modelled by the person's index in the store.

## Model

| member | source | states |
|---|---|---|
| Trajectories.FirstWhere | src/Infection.cc:111-131 | the first offset whose point has the flag, or none; no earlier point has the flag |
| Trajectories.CountWhere | src/Infection.cc:133-138 | the number of points with the flag is at most the number of points |
| Trajectories.NoTrajectoryMilestones | src/Infection.cc:97-107 | without a trajectory, every date is -1, every period is 0, and recovery is exposure + 366000 |
| Trajectories.FirstWhereIs | src/Infection.cc:111-131 | an offset whose point has the flag, with none before it, is the one the scan finds |
| Trajectories.NeverInfective | src/Infection.cc:109-139 | a trajectory that is never infective: no infectious or asymptomatic date, latent period 0, recovery at exposure + duration |
| Trajectories.InfectiousDateIsFirstInfectiveOffset | src/Infection.cc:109-125 | the latent period is the first infective offset k; the infectious date is exposure + k; the asymptomatic date is set exactly when point k is not symptomatic |
| Trajectories.NeverSymptomatic | src/Infection.cc:127-134 | a trajectory that is never symptomatic has no symptomatic date and incubation period 0 |
| Trajectories.SymptomaticDateIsFirstSymptomaticOffset | src/Infection.cc:127-131 | the incubation period is the first symptomatic offset k; the symptomatic date is exposure + k |
| Trajectories.PeriodCountsDisjoint | src/Infection.cc:112-138 | symptomatic days and asymptomatic-infective days together are at most the number of points |
| Trajectories.PeriodsFitTrajectory | src/Infection.cc:109-139 | both periods are non-negative, and their sum fits in the trajectory |
| Trajectories.DatesWithinInfection | src/Infection.cc:109-139 | the infectious and symptomatic dates are no earlier than exposure, and before recovery when the points fit the duration |
| Trajectories.SymptomsMayPrecedeInfectiousness | src/Infection.cc:111-131 | the symptomatic date can come before the infectious date |
| Infections.UpdateFiresOnExactDays | src/Infection.cc:170-185 | with a trajectory, become-infectious, become-symptomatic and recover each fire exactly on their own date; become-unsusceptible fires on its date unless recovery, which ends the update, fired that day; recovery is the last callback |
| Infections.UpdateWithoutTrajectoryOrChronic | src/Infection.cc:144-162 | without a trajectory nothing fires; a chronic ("hiv") disease fires only become-infectious, when the exposure is more than 3 days old and the host is not infectious |
| Infections.SeedAsWrittenFiresSentinelDates | src/Infection.cc:216-227 | as written, a seed whose trajectory is never infective or symptomatic still fires those callbacks, because -1 <= offset |
| Infections.SeedFiresReachedDates | src/Infection.cc:210-228 | the corrected seed advance fires a callback exactly when its date is set and has been reached; recovery comes last |
| Infections.UntilRecover | src/Infection.cc:178-180 | the steps up to and including the first recovery: a prefix with no earlier recovery, and everything when there is none |
| Infections.AsWrittenUsesInfectionAfterRecover | src/Infection.cc:178-207 | as written, on the recovery date update reads the infection object after recover has deleted it |
| Infections.CorrectedNeverUsesAfterRecover | src/Infection.cc:178-207 | stopping at recovery never touches the deleted infection |
| Infections.TraceHeadFires | src/Infection.cc:170-176 | the first two steps never recover, and they fire become-infectious and become-symptomatic on their dates |
| Infections.TraceTailFires | src/Infection.cc:178-207 | the rest of the day fires recovery on its date, and otherwise become-unsusceptible on its date |
| Infections.CorrectedTraceFiresUpdateEvents | src/Infection.cc:166-207 | stopping the as-written trace at recovery gives exactly the callback list of `UpdateEvents` |
| Infections.ScanTrajectory | src/Infection.cc:92-142 | the loop over the trajectory computes exactly `Derive(trajectory, exposure)` |
| Infections.Infection.constructor | src/Infection.cc:40-84 | a new infection: no trajectory, exposure on the given day, initial dates and flags, recovery period from the disease |
| Infections.Infection.DetermineTransitionDates | src/Infection.cc:92-142 | the eight dates and periods become `Derive(trajectory, exposure)`; nothing else changes |
| Infections.Infection.SetTrajectory | src/Infection.cc:316-319 | the trajectory is replaced and the dates are derived again from it |
| Infections.Infection.ChronicUpdate | src/Infection.cc:144-150 | fires become-infectious exactly when the exposure is more than 3 days old and the host is not infectious |
| Infections.Infection.Update | src/Infection.cc:153-208 | the callbacks are `UpdateEvents` of the state before the day; the dates do not change; for a non-chronic disease with a trajectory, the day's point and the fatality flag are stepped |
| Infections.Infection.UpdateFromTrajectory | src/Infection.cc:166-207 | the trajectory branch of update: the callbacks on their dates, the dates kept, and the point and fatality flag of the day |
| Infections.Infection.AdvanceSeedInfection | src/Infection.cc:210-228 | aborts exactly when the recovery or exposure date is -1; otherwise it moves exposure back, derives the dates again, and fires the reached callbacks with the corrected test of `SeedEvents`, which skips dates of -1 (see Findings) |
| Infections.Infection.ModifySymptomaticPeriod | src/Infection.cc:230-254 | the error for a negative multiplier, for a day past recovery and for a missing trajectory; otherwise the trajectory is reshaped from the symptomatic date or from today, and the dates are derived again |
| Infections.Infection.ModifyAsymptomaticPeriod | src/Infection.cc:256-276 | the same error cases against the symptomatic date; the trajectory is reshaped from exposure or from today, and the dates are derived again |
| Infections.Infection.ModifyInfectiousPeriod | src/Infection.cc:278-283 | a negative multiplier leaves the infection unchanged; otherwise both modifiers run, keeping exposure and the derived dates consistent |
| Infections.Infection.ModifyDevelopsSymptoms | src/Infection.cc:285-295 | the error past the symptomatic period, and the missing trajectory; no change when the symptoms flag already agrees; otherwise the trajectory is reshaped and the dates are derived again |
| Places.GroupQuartersHouseholds | src/Place.h:251-290 | dorm, cell or barracks exactly when the place is a household with a group-quarters subtype other than nursing home; clinics are not group quarters; a non-household is none of the three |
| Places.MixingGroup.constructor | src/Place.h:47-55 | every counter is zero, every list is empty and every bitset is clear, for every condition |
| Places.MixingGroup.NumberOfInfectiousPeople | src/Place.h:83-93 | the count is positive exactly when the group is infectious for the condition |
| Places.MixingGroup.ClearInfectiousPeople | src/Place.h:77-79 | the condition's list of infectious people becomes empty; nothing else changes |
| Places.MixingGroup.AddInfectiousVisitor | src/Place.h:742-745 | the person is appended to the list, the visitor count goes up by one, and the group is infectious |
| Places.MixingGroup.AddSymptomaticVisitor | src/Place.h:747-749 | the symptomatic visitor count goes up by one; nothing else changes |
| Places.MixingGroup.AddNewInfection | src/Place.h:430-433 | the new and total infection counts go up by one; the current count does not change |
| Places.MixingGroup.AddCurrentInfection | src/Place.h:435-437 | only the current infection count goes up by one |
| Places.MixingGroup.AddNewSymptomaticInfection | src/Place.h:439-442 | the new and total symptomatic counts go up by one; the current count does not change |
| Places.MixingGroup.AddCurrentSymptomaticInfection | src/Place.h:444-446 | only the current symptomatic count goes up by one |
| Places.MixingGroup.IncrementCaseFatalities | src/Health.cc:666-675 | the condition's case-fatality count goes up by one; nothing else changes |
| Places.MixingGroup.SetHumanInfectious | src/Place.h:103-107 | the condition joins the human-infectious set; the other bitsets do not change |
| Places.MixingGroup.ResetHumanInfectious | src/Place.h:109-111 | the human-infectious set becomes empty |
| Places.MixingGroup.SetExposed | src/Place.h:113-115 | the condition joins the exposed set |
| Places.MixingGroup.ResetExposed | src/Place.h:117-119 | the exposed set becomes empty |
| Places.MixingGroup.SetRecovered | src/Place.h:125-127 | the condition joins the recovered set |
| Places.MixingGroup.ResetRecovered | src/Place.h:129-131 | the recovered set becomes empty |
| Places.MixingGroup.ExposeVectors | src/Place.h:660-663 | exposed vectors move from the susceptible pool, and their sum is kept |
| Places.Allocator.constructor | src/Place.h:767-774 | all counters are zero, and no slot has been issued |
| Places.Allocator.Reserve | src/Place.h:776-787 | a new block is reserved exactly when none remains; the counters update as a block of n; otherwise nothing changes |
| Places.Allocator.GetFree | src/Place.h:789-797 | hands out a slot never issued before; it comes from the current block, or from a fresh block of one when the current one is exhausted |
| HealthState.ApplyKeepsAgreement | src/Health.cc:544-626 | the callbacks keep whoever is infectious or symptomatic infected, and whoever is susceptible uninfected |
| HealthState.ApplyKeepsRecords | src/Health.cc:544-626 | the callbacks never touch immunity, fatality, risk, multiplier, infectee count, exposure date, infector, mixing group or health-condition state |
| HealthState.ApplyRecoverRemoves | src/Health.cc:606-638 | after a recovery callback the condition has no infection and is recovered, not infectious and not symptomatic |
| HealthState.ApplyKeepsRemoved | src/Health.cc:544-638 | a removed, recovered condition stays so under further callbacks |
| HealthState.ApplyWithoutRecover | src/Health.cc:544-603 | without recovery, the infection, recovered bit and immunity end are kept |
| HealthState.ApplyKeepsInfectionUnlessRecover | src/Health.cc:606-638 | the infection survives the day exactly when no recovery callback fired |
| HealthState.ApplyNeedsHousehold | src/Health.cc:544-557 | become-infectious and recover abort without an exposed household |
| HealthState.UpdateEventsApply | src/Health.cc:682-711 | with a household, the callbacks of an infection's daily update never abort |
| HealthState.ApplyJoin | src/Health.cc:682-711 | applying two lists of callbacks is applying the first, then the second |
| HealthState.NewInfection | src/Health.cc:476-480 | a fresh infection of the condition, with the infector, the exposure day, the drawn trajectory and the dates derived from it |
| HealthState.MarkExposed | src/Health.cc:483-486 | the household's exposed set gains the condition; the other bitsets are kept |
| HealthState.CountFatality | src/Health.cc:666-675 | the household's fatality count for the condition goes up by one |
| HealthState.Exposed | src/Health.cc:449-528 | exposure keeps the number of conditions |
| HealthState.ExposureCrossImmunity | src/Health.cc:498-527 | with dengue-like vector transmission only the first serotype stays susceptible; without it every other condition keeps its susceptibility; nothing else of another condition changes |
| HealthState.ExposedSlot | src/Health.cc:474-491 | the exposed condition holds the new infection, is not susceptible, infectious or symptomatic, and has the exposure day, the infector and the mixing group |
| HealthState.ExposedKeepsAgreement | src/Health.cc:449-528 | exposure keeps every condition's bits in agreement with its infection |
| HealthState.Expose | src/Health.cc:449-528 | records the first serotype when none is recorded yet, and computes the exposed slots |
| HealthState.ClearOtherSerotypes | src/Health.cc:498-527 | every condition but the recorded first serotype and the current condition becomes unsusceptible; those two are kept |
| HealthState.CountInfection | src/Health.cc:1073-1077 | current infections go up by one; new and total infections go up by one exactly for a new infection; the other counters are kept |
| HealthState.CountSymptomatic | src/Health.cc:1079-1085 | for a symptomatic person, current symptomatic goes up by one, and new and total symptomatic too when the symptoms are new; otherwise nothing changes |
| HealthState.Health.constructor | src/Health.cc:267-341 | every condition starts from the initial slot, with the condition's own susceptibility and the drawn risk; the person is alive with no symptoms, no mask and no exposed household |
| HealthState.Health.BecomeSusceptible | src/Health.cc:406-425 | aborts exactly when an unsusceptible person still holds an infection; otherwise the condition becomes susceptible and not recovered, with multiplier 1 |
| HealthState.Health.BecomeSusceptibleByVaccineWaning | src/Health.cc:427-447 | only an uninfected, unsusceptible condition becomes susceptible again with multiplier 1; otherwise nothing changes |
| HealthState.Health.BecomeUnsusceptible | src/Health.cc:530-542 | the condition's susceptible bit is cleared and nothing else changes |
| HealthState.Health.DeclareAtRisk | src/Health.cc:757-760 | the condition's at-risk bit is set and nothing else changes |
| HealthState.Health.BecomeExposed | src/Health.cc:449-528 | aborts exactly when already infected; otherwise a fresh infection with dates derived from its trajectory; the slots are the exposed slots, the first serotype is recorded, and the household, when there is one, gains the condition in its exposed set and becomes the person's exposed household |
| HealthState.Health.RecordExposure | src/Health.cc:481-527 | the slots, the serotype record and the household's exposed set after exposure take their exposed values; the household, when there is one, becomes the exposed household; the other person-level fields are kept |
| HealthState.Health.BecomeInfectious | src/Health.cc:544-557 | aborts exactly without an infection or without an exposed household recorded by an earlier exposure; otherwise the condition becomes infectious, and so does that household's bit |
| HealthState.Health.BecomeNoninfectious | src/Health.cc:559-568 | aborts exactly without an infection; otherwise only the infectious bit is cleared |
| HealthState.Health.BecomeSymptomatic | src/Health.cc:570-590 | aborts exactly without an infection; otherwise the condition becomes symptomatic, with no change if it already was |
| HealthState.Health.ResolveSymptoms | src/Health.cc:592-603 | the symptomatic bit is cleared; no change when it was already clear |
| HealthState.Health.TerminateInfection | src/Health.cc:1088-1094 | the condition's infection is dropped; no change when there was none |
| HealthState.Health.BecomeRemoved | src/Health.cc:628-638 | the condition has no infection and is neither susceptible, infectious nor symptomatic; the getters then report -1 and no infector |
| HealthState.Health.Recover | src/Health.cc:606-626 | aborts exactly without an infection or without an exposed household recorded by an earlier exposure; otherwise the condition is recovered and removed, its immunity end is shifted by the day when set, and that household's bits are updated |
| HealthState.Health.BecomeImmune | src/Health.cc:640-653 | immune, and neither susceptible, infectious nor symptomatic; it reports which of those three bits were set before |
| HealthState.Health.BecomeCaseFatality | src/Health.cc:656-680 | the condition is a case fatality and removed; the household (or the permanent household when hospitalized) counts the fatality; the person is queued to die |
| HealthState.Health.ApplyEvent | src/Health.cc:544-626 | one callback on the object does what `StepSlot` does on its slot, and marks the household as `MarkHousehold` says |
| HealthState.Health.ApplyEvents | src/Health.cc:682-693 | the callbacks in order do what `Apply` does on the slot and `MarkHousehold` on the household; abort exactly when `Apply` fails |
| HealthState.Health.UpdateInfection | src/Health.cc:682-711 | the mask decision runs first; with no infection nothing else changes; otherwise the infection's callbacks are applied, the symptomatic-days maximum is kept, and an infection that is still active and fatal makes a case fatality |
| HealthState.Health.ProgressInfection | src/Health.cc:692-707 | the infection's day as callbacks, then the symptomatic days and fatality, with the person-level fields kept |
| HealthState.Health.ConcludeDay | src/Health.cc:695-707 | the symptomatic-days maximum is updated, and an active fatal infection becomes a case fatality on the death list |
| HealthState.Health.UpdateFaceMaskDecision | src/Health.cc:714-732 | the mask flag and day count become `FaceMaskDecision` of their old values; nothing else changes |
| HealthState.Health.Infect | src/Health.cc:1044-1062 | the infectee is exposed with this person as infector; this person's infectee count goes up by one; aborts when the exposure date is negative; the cohort day is the exposure date |
| HealthState.Health.CreditInfectee | src/Health.cc:1047-1048 | the condition's infectee count goes up by one and nothing else changes |
| HealthState.Health.UpdateMixingGroupCounts | src/Health.cc:1064-1086 | aborts exactly without an infection; with no mixing group nothing changes; otherwise the infection and symptomatic counters move as for a new or a current infection |
| HealthState.Health.Terminate | src/Health.cc:1096-1106 | every infected condition is removed; it lists, in increasing order, exactly the conditions whose health-condition state is set; the person is no longer alive |
| HealthState.Health.InfectiousStartDate | src/Health.cc:771-777 | -1 without an infection; otherwise the infection's infectious date, which is the one `Derive` gives for its trajectory and exposure date whenever its milestones are derived |
| HealthState.Health.SymptomsStartDate | src/Health.cc:787-793 | -1 without an infection; otherwise the infection's symptomatic date, which is the one `Derive` gives for its trajectory and exposure date whenever its milestones are derived |
| HealthState.Health.Infector | src/Health.cc:816-822 | no infector without an infection, otherwise the infection's infector |
| HealthState.Health.InfectedMixingGroupId | src/Health.cc:828-835 | -1 without a mixing group, otherwise its id |
| Birthdays.BucketOfRange | src/Population.cc:154-159 | every birth day has a bucket in 1..366; bucket 60 holds only 29 February; different days of one year get different buckets |
| Birthdays.DispatchAsWrittenBucket60 | src/Population.cc:624-638 | as written, bucket 60 runs on day 60 of a leap year and on day 61 of another year; in a leap year the day itself is run |
| Birthdays.DispatchAsWrittenSkipsLastBucket | src/Population.cc:624-638 | as written, no day of a non-leap year runs bucket 366, the bucket of 31 December |
| Birthdays.DispatchAsWrittenLate | src/Population.cc:624-638 | as written, in a non-leap year a birthday from 1 March on runs one day late |
| Birthdays.DispatchRunsEachBucketOnce | src/Population.cc:154-159 | with the corrected dispatch, every bucket runs on exactly one day of every year |
| Birthdays.DispatchOnBirthDay | src/Population.cc:154-159 | someone born in a year of the current kind is run on their own day of year |
| Birthdays.InsertKeepsIndexed | src/Population.cc:154-164 | appending a person to its bucket, and storing the position in the map, keeps the index |
| Birthdays.SwapRemoveKeepsIndexed | src/Population.cc:763-788 | moving the last member of the bucket into the removed place, and erasing the removed person afterwards, keeps the index |
| Birthdays.SwapRemoveAsWrittenKeepsDeadKey | src/Population.cc:782-787 | as written, removing the last member of a bucket leaves the dead person in the map, so the index is broken |
| Birthdays.CelebrantsAreInBuckets | src/Population.cc:624-638 | the people run for a list of buckets are exactly the indexed people whose bucket is in the list |
| Birthdays.BirthdayOnItsDay | src/Population.cc:624-638 | each person is run on the one day of the year that belongs to their bucket, and on no other |
| Passes.DailyPassesInOrder | src/Population.cc:602-745 | the day's passes come in the update's schedule order, each at most once |
| Passes.DailyPassesRun | src/Population.cc:602-745 | a pass is made exactly on the days, and under the flags, that select it |
| Passes.DailyRemovalsFollowDeaths | src/Population.cc:673-698 | each removal of the dead directly follows the pass that queued those deaths, and each queuing pass is directly followed by its removal |
| Passes.DemographicRuns | src/Population.cc:624-681 | birthdays, births, natural deaths and their removal run exactly with population dynamics |
| Passes.HealthRuns | src/Population.cc:684-698 | interventions run only when enabled; health and the disease-death removal always run |
| Passes.ClosingRuns | src/Population.cc:703-736 | activities on day 0, profiles when selected, then travel, behaviour, vaccines and antivirals |
| Populations.AfterDeaths | src/Population.cc:747-795 | after the deaths, a slot is live exactly when it was live and is not among the dead |
| Populations.LivingAfterDeaths | src/Population.cc:747-795 | the living set loses exactly the dead |
| Populations.DistinctLivingMeans | src/Population.cc:747-795 | a death list can be removed exactly when its entries are live and distinct |
| Populations.Tally | src/Population.cc:1729-1745 | the age distribution has one entry per age up to the maximum |
| Populations.TallyCountsEachLivingOnce | src/Population.cc:1729-1745 | the male and female counts add up to the number of living people |
| Populations.LivingIdsDistinct | src/Population.cc:128-136 | two living people never share an id |
| Populations.AddKeepsStore | src/Population.cc:128-152 | adding a person at a free index keeps the store invariant and adds the index to the living set |
| Populations.DeleteKeepsStore | src/Population.cc:178-200 | invalidating a living index keeps the store invariant and removes the index from the living set |
| Populations.AddKeepsIndex | src/Population.cc:154-164 | the birthday insertion of a new person keeps the birthday index |
| Populations.RemoveKeepsIndex | src/Population.cc:763-788 | every living person is in the birthday map, and the corrected removal keeps the index |
| Populations.AddKeepsPop | src/Population.cc:128-166 | adding a person keeps the whole population invariant |
| Populations.RemovedPop | src/Population.cc:747-795 | removing one dead person keeps the whole population invariant |
| Populations.RemoveAll | src/Population.cc:747-795 | succeeds exactly when the death list holds distinct living people; the living set then loses exactly them, the count drops by their number, and the corrected swap-remove keeps the birthday index (see Findings) |
| Populations.Population.constructor | src/Population.cc:55-69 | an empty store, an empty birthday index of 367 buckets and empty day lists |
| Populations.Population.GetPersonByIndex | src/Population.cc:83-89 | a person exactly for a valid index, and it is the stored person |
| Populations.Population.GetFreeIndex | src/Population.cc:134 | the index is free: one past the end, or an invalid slot |
| Populations.Population.SetMaskByIndex | src/Population.cc:168-171 | the slot gains the mask and nothing else changes |
| Populations.Population.ClearMaskByIndex | src/Population.cc:173-176 | the slot loses the mask and nothing else changes |
| Populations.Population.AddPerson | src/Population.cc:128-166 | a fresh id at a free index; the population grows by one; with population dynamics the person is appended to the bucket of its birth date |
| Populations.Population.DeletePerson | src/Population.cc:178-200 | aborts exactly for an index that holds no person; otherwise the slot is invalidated and the count drops by one |
| Populations.Population.PrepareToDie | src/Population.cc:202-216 | a living person is appended to the death list; nothing else changes |
| Populations.Population.PrepareToGiveBirth | src/Population.cc:218-228 | a living person is appended to the maternity list; nothing else changes |
| Populations.Population.RemoveDeadFromPopulation | src/Population.cc:747-795 | succeeds exactly when the deaths are distinct living people; they leave the store and, by the corrected swap-remove, the birthday index; the death list is cleared |
| Populations.Population.Update | src/Population.cc:602-745 | the day's celebrants are the buckets of the corrected dispatch (see Findings); the passes run in schedule order; natural and then disease deaths are removed; the day lists are cleared |
| Populations.Population.GetAgeDistribution | src/Population.cc:1729-1745 | the count arrays hold the tally of living males and females by age, and are untouched beyond the maximum age |
| Populations.Population.SelectRandomPersonByAge | src/Population.cc:1694-1705 | no person exactly for an empty age range; otherwise the first draw in range, or out of draws when none is |
| Regional.NewLayer | src/Regional_Layer.cc:90-119 | the rows and columns span the bounds, and every patch starts with no hospitals |
| Regional.GetPatch | src/Regional_Layer.cc:122-128 | a patch exactly for in-range coordinates, and it is that patch |
| Regional.GlobalCoordsCoverBounds | src/Regional_Layer.cc:144-146 | global coordinates give a patch exactly within the layer's bounds, shifted by the minimum |
| Regional.InRegionIffInGrid | src/Regional_Layer.h:57-59 | a point is in the region exactly when its grid cell is in range |
| Regional.PatchFromIdIffInRange | src/Regional_Layer.cc:148-155 | an id gives a patch exactly when 0 <= id < rows * cols; the patch is (id / cols, id % cols) |
| Regional.PatchIdRoundTrip | src/Regional_Layer.cc:148-155 | the id of an in-range patch gives the patch back |
| Regional.RowMajorSplit | src/Regional_Layer.cc:148-155 | row-major ids split back into row and column |
| Regional.AddHospital | src/Regional_Layer.cc:229-238 | the hospital is appended to its patch, and to no other patch |
| Regional.BlockMembers | src/Regional_Layer.cc:264-280 | a hospital is collected exactly when it sits in an in-range patch of the block |
| Regional.WidenBelowReach | src/Regional_Layer.cc:283-284 | the search can widen exactly while the distance is below the reach to the farthest grid edge |
| Regional.CollectSquare | src/Regional_Layer.cc:264-280 | the loops collect exactly the hospitals within the square of the given radius |
| Regional.Wanted | src/Regional_Layer.cc:282 | the count the size comparison asks for: minFound itself when non-negative, and a huge unsigned value (at least 2^63, congruent to minFound) when negative |
| Regional.NearbyHospitals | src/Regional_Layer.cc:261-296 | the result is the hospitals within the final radius; it holds `Wanted(minFound)` of them, or the square covers the grid; every smaller radius held too few and could widen |
| Regional.NearbyWorkplace | src/Regional_Layer.cc:240-259 | the loops visit the 3x3 block in row order, keeping the closest workplace found so far |
| Regional.VisitBlockLocal | src/Regional_Layer.cc:240-259 | the search depends only on the patches of the block that are in range |
| Regional.VisitBlockOrigin | src/Regional_Layer.cc:240-259 | the workplace found is the initial one, or one that an in-range patch of the block offered |
| Regional.NearbyWorkplaceFromBlock | src/Regional_Layer.cc:240-259 | the nearby workplace depends only on the in-range neighbours, and when found was offered by one of them |

## Left out

- The following files are not part of this model: src/Infection.h, src/Health.h, the mixing-group and household headers, Place.cc, Regional_Patch, Abstract_Grid, Date.cc, Demographics and Trajectory.h.
  - The getters they declare are reconstructed from their use in the modelled files.
  - The unsusceptible date is exposure + susceptibility period.
  - A newly infected person is one whose exposure date is today.
  - A newly symptomatic person is one whose symptoms start date is today.
- Randomness and numeric-model outputs are parameters: the at-risk draws, the immune response, the immunity end, the fatality draw (`is_fatal`), the random choices of `select_random_person_by_age`, and the demographic birth and death decisions.
- The trajectory is a list of points with an infective flag and a symptomatic flag, one point per day offset.
  - The thresholds on infectivity and symptomaticity are folded into those flags.
  - `determine_transition_dates` calls the iterator's `next()` twice in each loop iteration (src/Infection.cc:112-113). Its effect depends on Trajectory.h, which is not part of this model.
  - The trajectory reshaping functions used by the period modifiers are parameters.
- Infections.Infection.Update: the infectivity and symptoms values of the day, the strain list and the fatality flag are stepped as a whole (`TrajectoryStepped`). The details of the fatality test, per chronic setting, are the `isFatal` parameter. The update stops once `recover` has fired: no unsusceptible callback and no fatality test follow it on that day (see Findings).
- Populations.Population.DeletePerson: does not make the person's `terminate()` call (src/Population.cc:181), the per-disease evolution `terminate_person` calls (src/Population.cc:184-186) or `Travel::terminate_person` (src/Population.cc:188-190). Person, the evolution models and travel are not part of this model.
- Infections.Infection.ModifyInfectiousPeriod: states only the error case and that the dates stay derived. It does not state which of the two reshapings ran.
- Health's per-condition `is_symptomatic(day)` call inside `update_face_mask_decision` passes the day where a condition id is expected (src/Health.cc:718). Health.h is not part of this model, so today's symptom status is a parameter (`symptomaticToday`).
- HealthState.Health.Infect: requires that the infectee is another person.
  - The cohort counter of the condition and the transmission network are calls into code that is not part of this model.
  - Only the cohort day the counter would receive is returned.
- HealthState.Health.Terminate: returns the conditions whose `terminate_person` would be called, rather than calling them.
- The death list is a value passed through Health and returned, not the population's field.
- HealthState.Health.UpdateInfection: applies the corrected behaviour of the update (see Findings). The fatality test is skipped for an infection that recovered on the day.
- Infections.Infection.AdvanceSeedInfection: fires a callback only for a date that is set (the corrected `SeedEvents`). As written, a date of -1 also fires (see Findings). Nothing fires after `Recover`, where the source goes on to read the unsusceptible date of the deleted infection (src/Infection.cc:222-227).
- Populations.Population.Update: runs the birthday buckets of the corrected dispatch, each once a year on its own date. As written, in a non-leap year bucket 366 never runs and birthdays from 1 March on run one day late (see Findings).
- Populations.Population.RemoveDeadFromPopulation: removes each dead person with the corrected swap-remove. As written, the dead person's birthday-map entry is put back when they were the last member of their bucket (see Findings).
- Populations.RemoveAll: the same corrected swap-remove, applied to every entry of the death list.
- Infections.Infection.constructor: does not set the host's Update_Health mask in the population's store (src/Infection.cc:44). The store is reached through a global population object; the mask operation itself is modelled as Populations.Population.SetMaskByIndex.
- HealthState.Health.Recover: the person's `reset_neighborhood` call (src/Health.cc:619) is not modelled. Person is not part of this model.
- HealthState.Health.BecomeExposed: joining the transmission network (src/Health.cc:493-496) is not modelled. The network is not part of this model.
- HealthState.Health.constructor: the person's exposed household starts as none. Its initial value lives in Person, which is not part of this model.
- Populations.Population.PrepareToDie: the person's `die()` call (src/Population.cc:208) is not modelled. Person is not part of this model.
- Populations.Population.SelectRandomPersonByAge: the source retries forever (`while (1)`, src/Population.cc:1699-1704) when no living person has an age in range, and `select_random_person` never returns on an empty store. The model takes a finite list of draws and returns `OutOfDraws` when none of them is in range.
- Place bitsets are sets of condition ids, and counters are `seq<int>` fields rather than arrays (no aliasing of the arrays exists in the source). `reset_place_state`, the general `infectious_bitset`, visualization data, `print`, `enroll`/`unenroll` and `add_infectious_person` live in Place.cc and are not modelled.
- Places.Allocator: the allocation array itself is not modelled. A handed-out pointer is a (block, position) pair.
- Population:
  - The person store (`blq`) is modelled as sequences of validity flags, person data and masks.
  - A person is their store index.
  - Reporting of births and deaths, the vaccine queue, `give_birth` and the passes over people (health, activities, travel, behaviours, vaccines, antivirals) are the ordered log of passes of `Update`, without their effects on people.
  - The OpenMP parallel loops and locks are sequential.
  - Populations.Population.PrepareToDie and Populations.Population.PrepareToGiveBirth abort for an index that holds no person, where the source would dereference a null person.
- Regional:
  - The conversion from geographic coordinates to grid cells (`get_row`, `get_col`) is passed in as a pair of functions.
  - The constructor's computation of the bounds from the geographic extent is left out. NewLayer takes the bounds directly and requires non-negative sizes.
  - `get_patch_from_id` indexes out of range in the source for an id that is too large or negative. In the model that case gives no patch.
- Regional.NearbyWorkplace: `get_closest_workplace` of a patch is a parameter, with the position and the staff bounds folded into it, so the distance test itself is not modelled.
- Regional.NearbyHospitals: the unused x and y parameters of `get_nearby_hospitals` are dropped. `size_t` is taken to be 64 bits wide and `int` 32 bits wide.
- `select_random_patch`, `quality_control`, `set_population_size`, `add_workplace`, `end_membership` and the visualization routines of the regional layer are not modelled.
- Output, logging, timing and file I/O throughout are left out.

## Findings

| source | as written | input that shows it | evidently intended | confidence | as-written member | corrected member |
|---|---|---|---|---|---|---|
| src/Infection.cc:178-207 | on the recovery date `update` calls `host->recover`, which deletes the infection, and then goes on reading the infection's trajectory, disease and symptoms; `update_infection` then calls `is_fatal` on the deleted infection (src/Health.cc:704) | any day with today == recovery date | stop the update and the fatality test once recovery has been applied | not executed | Infections.AsWrittenUsesInfectionAfterRecover | Infections.CorrectedTraceFiresUpdateEvents |
| src/Population.cc:782-787 | the dead person's map entry is erased before the moved last member is written back; when the dead person is that last member, its entry is put back | a bucket whose last member dies | erase the dead person's entry after moving the last member | not executed | Birthdays.SwapRemoveAsWrittenKeepsDeadKey | Birthdays.SwapRemoveKeepsIndexed |
| src/Infection.cc:216-227 | `advance_seed_infection` compares dates with `<= offset`, so a date of -1 (never reached) counts as reached | a seed whose trajectory is never infective or symptomatic | fire a callback only for a date that is set | not executed | Infections.SeedAsWrittenFiresSentinelDates | Infections.SeedFiresReachedDates |
| src/Population.cc:624-638 | the buckets use leap-year numbering, but the dispatch runs the bucket of the current year's day of year | a non-leap year: bucket 366 (31 December) is never run, and a birthday from 1 March on runs one day late | run every bucket once a year on its own date, with 29 February joined to 1 March | not executed (assumes a 1-based day of year) | Birthdays.DispatchAsWrittenSkipsLastBucket | Birthdays.DispatchRunsEachBucketOnce |

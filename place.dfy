/** A place as a mixing group (Place.h): its type and subtype tests, the
    per-condition epidemic counters and bitsets the health model updates,
    the list of today's infectious visitors, the vector compartments, and
    the chunk allocator places are created from. */
module Places {

  datatype PlaceType = Household | Neighborhood | School | Classroom | Workplace | Office | Hospital | Community

  datatype Subtype = NoSubtype | College | Prison | MilitaryBase | NursingHome | HealthcareClinic | MobileHealthcareClinic

  predicate IsGroupQuarters(s: Subtype) {
    s == College || s == Prison || s == MilitaryBase || s == NursingHome
  }

  predicate IsCollegeDorm(t: PlaceType, s: Subtype) {
    t == Household && s == College
  }

  predicate IsPrisonCell(t: PlaceType, s: Subtype) {
    t == Household && s == Prison
  }

  predicate IsMilitaryBarracks(t: PlaceType, s: Subtype) {
    t == Household && s == MilitaryBase
  }

  /** Dorms, cells and barracks are exactly the group-quarters households
      other than nursing homes; clinics are never group quarters. */
  lemma GroupQuartersHouseholds(t: PlaceType, s: Subtype)
    ensures IsCollegeDorm(t, s) || IsPrisonCell(t, s) || IsMilitaryBarracks(t, s)
            <==> t == Household && IsGroupQuarters(s) && s != NursingHome
    ensures s == HealthcareClinic || s == MobileHealthcareClinic || s == NoSubtype ==> !IsGroupQuarters(s)
    ensures t != Household ==> !IsCollegeDorm(t, s) && !IsPrisonCell(t, s) && !IsMilitaryBarracks(t, s)
  {
  }

  class MixingGroup {
    const id: int
    const placeType: PlaceType
    const subtype: Subtype
    const conditionCount: nat

    var infectiousPeople: seq<seq<nat>>           // today's infectious visitors, per condition
    var newInfections: seq<int>
    var currentInfections: seq<int>
    var totalInfections: seq<int>
    var newSymptomaticInfections: seq<int>
    var currentSymptomaticInfections: seq<int>
    var totalSymptomaticInfections: seq<int>
    var currentInfectiousVisitors: seq<int>
    var currentSymptomaticVisitors: seq<int>
    var caseFatalities: seq<int>

    var humanInfectious: set<nat>
    var exposed: set<nat>
    var recovered: set<nat>

    var susceptibleVectors: int
    var exposedVectors: seq<int>

    /** Every per-condition field covers the conditions; counters never go
        below zero and a "new" count never exceeds the matching total. */
    ghost predicate Valid()
      reads this
    {
      |infectiousPeople| == conditionCount
      && |newInfections| == |currentInfections| == |totalInfections| == conditionCount
      && |newSymptomaticInfections| == |currentSymptomaticInfections| == |totalSymptomaticInfections| == conditionCount
      && |currentInfectiousVisitors| == |currentSymptomaticVisitors| == |caseFatalities| == conditionCount
      && |exposedVectors| == conditionCount
      && (forall d :: d in humanInfectious ==> d < conditionCount)
      && (forall d :: d in exposed ==> d < conditionCount)
      && (forall d :: d in recovered ==> d < conditionCount)
      && (forall d :: 0 <= d < conditionCount ==>
            0 <= newInfections[d] <= totalInfections[d] && 0 <= currentInfections[d]
            && 0 <= newSymptomaticInfections[d] <= totalSymptomaticInfections[d] && 0 <= currentSymptomaticInfections[d]
            && 0 <= currentInfectiousVisitors[d] && 0 <= currentSymptomaticVisitors[d]
            && 0 <= caseFatalities[d])
    }

    function InfectionCounts(): (seq<int>, seq<int>, seq<int>)
      reads this
    {
      (newInfections, currentInfections, totalInfections)
    }

    function SymptomaticCounts(): (seq<int>, seq<int>, seq<int>)
      reads this
    {
      (newSymptomaticInfections, currentSymptomaticInfections, totalSymptomaticInfections)
    }

    function Visitors(): (seq<seq<nat>>, seq<int>, seq<int>)
      reads this
    {
      (infectiousPeople, currentInfectiousVisitors, currentSymptomaticVisitors)
    }

    function Bits(): (set<nat>, set<nat>, set<nat>)
      reads this
    {
      (humanInfectious, exposed, recovered)
    }

    function Vectors(): (int, seq<int>)
      reads this
    {
      (susceptibleVectors, exposedVectors)
    }

    constructor (id: int, placeType: PlaceType, subtype: Subtype, conditionCount: nat, susceptibleVectors: int)
      ensures Valid()
      ensures this.id == id && this.placeType == placeType && this.subtype == subtype && this.conditionCount == conditionCount
      ensures forall d :: 0 <= d < conditionCount ==>
                newInfections[d] == currentInfections[d] == totalInfections[d] == 0
                && newSymptomaticInfections[d] == currentSymptomaticInfections[d] == totalSymptomaticInfections[d] == 0
                && infectiousPeople[d] == [] && currentInfectiousVisitors[d] == currentSymptomaticVisitors[d] == 0
                && caseFatalities[d] == 0 && exposedVectors[d] == 0
      ensures humanInfectious == exposed == recovered == {}
      ensures this.susceptibleVectors == susceptibleVectors
    {
      this.id := id;
      this.placeType := placeType;
      this.subtype := subtype;
      this.conditionCount := conditionCount;
      var zeros := seq(conditionCount, _ => 0);
      infectiousPeople := seq(conditionCount, _ => []);
      newInfections, currentInfections, totalInfections := zeros, zeros, zeros;
      newSymptomaticInfections, currentSymptomaticInfections, totalSymptomaticInfections := zeros, zeros, zeros;
      currentInfectiousVisitors, currentSymptomaticVisitors, caseFatalities := zeros, zeros, zeros;
      humanInfectious, exposed, recovered := {}, {}, {};
      this.susceptibleVectors := susceptibleVectors;
      exposedVectors := zeros;
    }

    predicate IsInfectious(d: nat)
      requires Valid() && d < conditionCount
      reads this
    {
      |infectiousPeople[d]| > 0
    }

    function NumberOfInfectiousPeople(d: nat): (r: nat)
      requires Valid() && d < conditionCount
      reads this
      ensures r > 0 <==> IsInfectious(d)
    {
      |infectiousPeople[d]|
    }

    method ClearInfectiousPeople(d: nat)
      requires Valid() && d < conditionCount
      modifies this
      ensures Valid() && !IsInfectious(d)
      ensures infectiousPeople == old(infectiousPeople)[d := []]
      ensures currentInfectiousVisitors == old(currentInfectiousVisitors)
      ensures currentSymptomaticVisitors == old(currentSymptomaticVisitors)
      ensures InfectionCounts() == old(InfectionCounts()) && SymptomaticCounts() == old(SymptomaticCounts())
      ensures caseFatalities == old(caseFatalities) && Bits() == old(Bits()) && Vectors() == old(Vectors())
    {
      infectiousPeople := infectiousPeople[d := []];
    }

    method AddInfectiousVisitor(d: nat, person: nat)
      requires Valid() && d < conditionCount
      modifies this
      ensures Valid() && IsInfectious(d)
      ensures infectiousPeople == old(infectiousPeople)[d := old(infectiousPeople)[d] + [person]]
      ensures currentInfectiousVisitors == old(currentInfectiousVisitors)[d := old(currentInfectiousVisitors)[d] + 1]
      ensures currentSymptomaticVisitors == old(currentSymptomaticVisitors)
      ensures InfectionCounts() == old(InfectionCounts()) && SymptomaticCounts() == old(SymptomaticCounts())
      ensures caseFatalities == old(caseFatalities) && Bits() == old(Bits()) && Vectors() == old(Vectors())
    {
      infectiousPeople := infectiousPeople[d := infectiousPeople[d] + [person]];
      currentInfectiousVisitors := currentInfectiousVisitors[d := currentInfectiousVisitors[d] + 1];
    }

    method AddSymptomaticVisitor(d: nat)
      requires Valid() && d < conditionCount
      modifies this
      ensures Valid()
      ensures currentSymptomaticVisitors == old(currentSymptomaticVisitors)[d := old(currentSymptomaticVisitors)[d] + 1]
      ensures infectiousPeople == old(infectiousPeople) && currentInfectiousVisitors == old(currentInfectiousVisitors)
      ensures InfectionCounts() == old(InfectionCounts()) && SymptomaticCounts() == old(SymptomaticCounts())
      ensures caseFatalities == old(caseFatalities) && Bits() == old(Bits()) && Vectors() == old(Vectors())
    {
      currentSymptomaticVisitors := currentSymptomaticVisitors[d := currentSymptomaticVisitors[d] + 1];
    }

    method AddNewInfection(d: nat)
      requires Valid() && d < conditionCount
      modifies this
      ensures Valid()
      ensures newInfections == old(newInfections)[d := old(newInfections)[d] + 1]
      ensures totalInfections == old(totalInfections)[d := old(totalInfections)[d] + 1]
      ensures currentInfections == old(currentInfections)
      ensures SymptomaticCounts() == old(SymptomaticCounts()) && Visitors() == old(Visitors())
      ensures caseFatalities == old(caseFatalities) && Bits() == old(Bits()) && Vectors() == old(Vectors())
    {
      newInfections := newInfections[d := newInfections[d] + 1];
      totalInfections := totalInfections[d := totalInfections[d] + 1];
    }

    method AddCurrentInfection(d: nat)
      requires Valid() && d < conditionCount
      modifies this
      ensures Valid()
      ensures currentInfections == old(currentInfections)[d := old(currentInfections)[d] + 1]
      ensures newInfections == old(newInfections) && totalInfections == old(totalInfections)
      ensures SymptomaticCounts() == old(SymptomaticCounts()) && Visitors() == old(Visitors())
      ensures caseFatalities == old(caseFatalities) && Bits() == old(Bits()) && Vectors() == old(Vectors())
    {
      currentInfections := currentInfections[d := currentInfections[d] + 1];
    }

    method AddNewSymptomaticInfection(d: nat)
      requires Valid() && d < conditionCount
      modifies this
      ensures Valid()
      ensures newSymptomaticInfections == old(newSymptomaticInfections)[d := old(newSymptomaticInfections)[d] + 1]
      ensures totalSymptomaticInfections == old(totalSymptomaticInfections)[d := old(totalSymptomaticInfections)[d] + 1]
      ensures currentSymptomaticInfections == old(currentSymptomaticInfections)
      ensures InfectionCounts() == old(InfectionCounts()) && Visitors() == old(Visitors())
      ensures caseFatalities == old(caseFatalities) && Bits() == old(Bits()) && Vectors() == old(Vectors())
    {
      newSymptomaticInfections := newSymptomaticInfections[d := newSymptomaticInfections[d] + 1];
      totalSymptomaticInfections := totalSymptomaticInfections[d := totalSymptomaticInfections[d] + 1];
    }

    method AddCurrentSymptomaticInfection(d: nat)
      requires Valid() && d < conditionCount
      modifies this
      ensures Valid()
      ensures currentSymptomaticInfections == old(currentSymptomaticInfections)[d := old(currentSymptomaticInfections)[d] + 1]
      ensures newSymptomaticInfections == old(newSymptomaticInfections)
      ensures totalSymptomaticInfections == old(totalSymptomaticInfections)
      ensures InfectionCounts() == old(InfectionCounts()) && Visitors() == old(Visitors())
      ensures caseFatalities == old(caseFatalities) && Bits() == old(Bits()) && Vectors() == old(Vectors())
    {
      currentSymptomaticInfections := currentSymptomaticInfections[d := currentSymptomaticInfections[d] + 1];
    }

    /** The household fatality tally Health's case-fatality path increments. */
    method IncrementCaseFatalities(d: nat)
      requires Valid() && d < conditionCount
      modifies this
      ensures Valid()
      ensures caseFatalities == old(caseFatalities)[d := old(caseFatalities)[d] + 1]
      ensures InfectionCounts() == old(InfectionCounts()) && SymptomaticCounts() == old(SymptomaticCounts())
      ensures Visitors() == old(Visitors()) && Bits() == old(Bits()) && Vectors() == old(Vectors())
    {
      caseFatalities := caseFatalities[d := caseFatalities[d] + 1];
    }

    method SetHumanInfectious(d: nat)
      requires Valid() && d < conditionCount
      modifies this
      ensures Valid() && humanInfectious == old(humanInfectious) + {d}
      ensures exposed == old(exposed) && recovered == old(recovered)
      ensures InfectionCounts() == old(InfectionCounts()) && SymptomaticCounts() == old(SymptomaticCounts())
      ensures Visitors() == old(Visitors()) && caseFatalities == old(caseFatalities) && Vectors() == old(Vectors())
    {
      if d !in humanInfectious {
        humanInfectious := humanInfectious + {d};
      }
    }

    method ResetHumanInfectious()
      requires Valid()
      modifies this
      ensures Valid() && humanInfectious == {}
      ensures exposed == old(exposed) && recovered == old(recovered)
      ensures InfectionCounts() == old(InfectionCounts()) && SymptomaticCounts() == old(SymptomaticCounts())
      ensures Visitors() == old(Visitors()) && caseFatalities == old(caseFatalities) && Vectors() == old(Vectors())
    {
      humanInfectious := {};
    }

    method SetExposed(d: nat)
      requires Valid() && d < conditionCount
      modifies this
      ensures Valid() && exposed == old(exposed) + {d}
      ensures humanInfectious == old(humanInfectious) && recovered == old(recovered)
      ensures InfectionCounts() == old(InfectionCounts()) && SymptomaticCounts() == old(SymptomaticCounts())
      ensures Visitors() == old(Visitors()) && caseFatalities == old(caseFatalities) && Vectors() == old(Vectors())
    {
      exposed := exposed + {d};
    }

    method ResetExposed()
      requires Valid()
      modifies this
      ensures Valid() && exposed == {}
      ensures humanInfectious == old(humanInfectious) && recovered == old(recovered)
      ensures InfectionCounts() == old(InfectionCounts()) && SymptomaticCounts() == old(SymptomaticCounts())
      ensures Visitors() == old(Visitors()) && caseFatalities == old(caseFatalities) && Vectors() == old(Vectors())
    {
      exposed := {};
    }

    method SetRecovered(d: nat)
      requires Valid() && d < conditionCount
      modifies this
      ensures Valid() && recovered == old(recovered) + {d}
      ensures humanInfectious == old(humanInfectious) && exposed == old(exposed)
      ensures InfectionCounts() == old(InfectionCounts()) && SymptomaticCounts() == old(SymptomaticCounts())
      ensures Visitors() == old(Visitors()) && caseFatalities == old(caseFatalities) && Vectors() == old(Vectors())
    {
      recovered := recovered + {d};
    }

    method ResetRecovered()
      requires Valid()
      modifies this
      ensures Valid() && recovered == {}
      ensures humanInfectious == old(humanInfectious) && exposed == old(exposed)
      ensures InfectionCounts() == old(InfectionCounts()) && SymptomaticCounts() == old(SymptomaticCounts())
      ensures Visitors() == old(Visitors()) && caseFatalities == old(caseFatalities) && Vectors() == old(Vectors())
    {
      recovered := {};
    }

    /** Move `count` vectors from the susceptible to the exposed compartment
        of condition d; their sum is unchanged. */
    method ExposeVectors(d: nat, count: int)
      requires Valid() && d < conditionCount
      modifies this
      ensures Valid()
      ensures exposedVectors == old(exposedVectors)[d := old(exposedVectors)[d] + count]
      ensures susceptibleVectors == old(susceptibleVectors) - count
      ensures susceptibleVectors + exposedVectors[d] == old(susceptibleVectors) + old(exposedVectors)[d]
      ensures InfectionCounts() == old(InfectionCounts()) && SymptomaticCounts() == old(SymptomaticCounts())
      ensures Visitors() == old(Visitors()) && caseFatalities == old(caseFatalities) && Bits() == old(Bits())
    {
      exposedVectors := exposedVectors[d := exposedVectors[d] + count];
      susceptibleVectors := susceptibleVectors - count;
    }
  }

  /** A slot handed out by the allocator: the number of the block it lies
      in (1 for the first block) and its offset inside that block. */
  datatype Slot = Slot(block: nat, offset: nat)

  /** Place::Allocator: reserves contiguous blocks and hands out their
      slots one at a time. */
  class Allocator {
    var currentAllocationSize: int
    var currentAllocationIndex: int
    var blocksAllocated: int
    var remainingAllocations: int
    var allocationsMade: int
    ghost var issued: set<Slot>

    /** The index and the remaining count always add up to the block size,
        every reserved slot is either handed out or still remaining, and
        every slot handed out lies in an earlier block or before the index. */
    ghost predicate Valid()
      reads this
    {
      0 <= currentAllocationIndex && 0 <= remainingAllocations && 0 <= blocksAllocated
      && (blocksAllocated == 0 ==> currentAllocationSize == 0)
      && currentAllocationIndex + remainingAllocations == currentAllocationSize
      && allocationsMade == |issued| + remainingAllocations
      && (forall s :: s in issued ==>
            1 <= s.block <= blocksAllocated
            && (s.block == blocksAllocated ==> s.offset < currentAllocationIndex))
    }

    constructor ()
      ensures Valid()
      ensures remainingAllocations == 0 && blocksAllocated == 0 && allocationsMade == 0
      ensures currentAllocationIndex == 0 && currentAllocationSize == 0 && issued == {}
    {
      remainingAllocations := 0;
      blocksAllocated := 0;
      allocationsMade := 0;
      currentAllocationIndex := 0;
      currentAllocationSize := 0;
      issued := {};
    }

    /** Reserve a block of n slots, but only when the current block is used
        up; returns whether a block was reserved. */
    method Reserve(n: nat) returns (reserved: bool)
      requires Valid()
      modifies this
      ensures Valid() && issued == old(issued)
      ensures reserved <==> old(remainingAllocations) == 0
      ensures reserved ==>
                currentAllocationSize == n && remainingAllocations == n && currentAllocationIndex == 0
                && blocksAllocated == old(blocksAllocated) + 1 && allocationsMade == old(allocationsMade) + n
      ensures !reserved ==> unchanged(this)
    {
      if remainingAllocations == 0 {
        currentAllocationSize := n;
        remainingAllocations := n;
        currentAllocationIndex := 0;
        blocksAllocated := blocksAllocated + 1;
        allocationsMade := allocationsMade + n;
        return true;
      }
      return false;
    }

    /** Hand out the next free slot, reserving a one-slot block first when
        the current block is used up. No slot is ever handed out twice. */
    method GetFree() returns (slot: Slot)
      requires Valid()
      modifies this
      ensures Valid()
      ensures slot !in old(issued) && issued == old(issued) + {slot}
      ensures old(remainingAllocations) > 0 ==>
                slot == Slot(old(blocksAllocated), old(currentAllocationIndex))
                && blocksAllocated == old(blocksAllocated) && allocationsMade == old(allocationsMade)
                && currentAllocationIndex == old(currentAllocationIndex) + 1
                && remainingAllocations == old(remainingAllocations) - 1
      ensures old(remainingAllocations) == 0 ==>
                slot == Slot(old(blocksAllocated) + 1, 0)
                && blocksAllocated == old(blocksAllocated) + 1 && allocationsMade == old(allocationsMade) + 1
                && currentAllocationIndex == 1 && remainingAllocations == 0
    {
      if remainingAllocations == 0 {
        var _ := Reserve(1);
      }
      slot := Slot(blocksAllocated, currentAllocationIndex);
      issued := issued + {slot};
      remainingAllocations := remainingAllocations - 1;
      currentAllocationIndex := currentAllocationIndex + 1;
    }
  }
}

/** The condition (disease) descriptor. Health works with conditions and
    Infection with diseases; both only read a few attributes, so one
    abstract descriptor serves both. */
module Conditions {

  datatype Condition = Condition(
    id: nat,                   // index of the condition, 0 .. K-1
    name: string,              // the disease name; "hiv" selects the chronic rule
    caseFatalityEnabled: bool, // is_case_fatality_enabled()
    daysSymptomatic: int,      // get_days_symp()
    daysRecovered: int,        // get_days_recovered()
    assumeSusceptible: bool)   // assume_susceptible()
  {
    /** Infection::update follows the chronic rule when the disease is named "hiv". */
    predicate IsChronic() {
      name == "hiv"
    }
  }

  /** The conditions of a run, as Global::Conditions holds them: entry i has id i. */
  ghost predicate WellIndexed(cs: seq<Condition>) {
    forall i :: 0 <= i < |cs| ==> cs[i].id == i
  }
}

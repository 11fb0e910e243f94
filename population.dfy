/** The population (Population.cc): a store of person slots whose indices
    are recycled, ids handed out once each, the birthday index, the death
    and maternity lists of the day, the age distribution and the daily
    update's order of passes. */
module Populations {
  import opened Wrappers
  import opened Birthdays
  import opened Passes

  /** What the population reads of a person. A slot's data stays behind
      when the slot is freed, as the store keeps the memory. */
  datatype PersonData = PersonData(id: nat, age: int, female: bool, birthDayOfYear: int, birthYear: int)

  /** The store's per-slot masks that select people for the parallel passes. */
  datatype Mask = InfectiousMask | SusceptibleMask | UpdateDeathsMask | UpdateBirthsMask | UpdateHealthMask | TravelMask

  /** The store indices that hold a person. */
  function ValidSet(valid: seq<bool>): set<nat> {
    set i: nat | i < |valid| && valid[i]
  }

  /** The store indices below n that hold a person. */
  function LivingBelow(valid: seq<bool>, n: nat): set<nat> {
    set i: nat | i < n && i < |valid| && valid[i]
  }

  /** The bucket of every slot's person. */
  function BucketsOf(people: seq<PersonData>): (r: seq<int>)
    ensures |r| == |people|
    ensures forall i :: 0 <= i < |people| ==> r[i] == BucketOf(people[i].birthDayOfYear, people[i].birthYear)
  {
    seq(|people|, i requires 0 <= i < |people| => BucketOf(people[i].birthDayOfYear, people[i].birthYear))
  }

  function Elements(s: seq<nat>): set<nat> {
    set k | 0 <= k < |s| :: s[k]
  }

  /** A list of store indices that all hold a person, none twice: each
      entry is living and not among the entries before it. */
  ghost predicate DistinctLiving(list: seq<nat>, valid: seq<bool>)
    decreases |list|
  {
    list == []
    || var n := |list| - 1;
       DistinctLiving(list[..n], valid) && list[n] < |valid| && valid[list[n]] && list[n] !in list[..n]
  }

  /** The slots still living after the listed ones are freed. */
  function AfterDeaths(valid: seq<bool>, deaths: seq<nat>): (r: seq<bool>)
    ensures |r| == |valid|
    ensures forall j :: 0 <= j < |r| ==> (r[j] <==> valid[j] && j !in deaths)
  {
    seq(|valid|, j requires 0 <= j < |valid| => valid[j] && j !in deaths)
  }

  /** The living after a list of deaths, as sets. */
  lemma LivingAfterDeaths(live: seq<bool>, valid: seq<bool>, deaths: seq<nat>)
    requires |live| == |valid|
    requires forall j :: 0 <= j < |live| ==> (live[j] <==> valid[j] && j !in deaths)
    ensures ValidSet(live) == ValidSet(valid) - Elements(deaths)
  {
  }

  /** Every prefix of a list of distinct living indices is one. */
  lemma {:induction false} DistinctLivingPrefix(list: seq<nat>, valid: seq<bool>, i: nat)
    requires i <= |list|
    ensures DistinctLiving(list, valid) ==> DistinctLiving(list[..i], valid)
    decreases |list|
  {
    if i < |list| && DistinctLiving(list, valid) {
      var n := |list| - 1;
      DistinctLivingPrefix(list[..n], valid, i);
      assert list[..n][..i] == list[..i];
    } else if i == |list| {
      assert list[..i] == list;
    }
  }

  /** The recursive definition says what the quantified one does: every
      entry holds a person and no two entries are equal. */
  lemma {:induction false} DistinctLivingMeans(list: seq<nat>, valid: seq<bool>)
    ensures DistinctLiving(list, valid)
            <==> (forall k :: 0 <= k < |list| ==> list[k] < |valid| && valid[list[k]])
                 && (forall j, k :: 0 <= j < k < |list| ==> list[j] != list[k])
    decreases |list|
  {
    if list != [] {
      var n := |list| - 1;
      var init := list[..n];
      DistinctLivingMeans(init, valid);
      assert forall k :: 0 <= k < n ==> init[k] == list[k];
      if list[n] in init {
        var j :| 0 <= j < n && init[j] == list[n];
        assert list[j] == list[n];
      }
    }
  }

  // ---------------------------------------------------------------------
  // The age distribution, as a function of the store.

  function AgeBucket(age: int, maxAge: nat): int {
    if age > maxAge then maxAge else age
  }

  /** The male and female counts by age bucket over the first n slots. */
  function Tally(valid: seq<bool>, people: seq<PersonData>, maxAge: nat, n: nat): (r: (seq<int>, seq<int>))
    requires n <= |valid| && |valid| == |people|
    requires forall i :: 0 <= i < n && valid[i] ==> people[i].age >= 0
    ensures |r.0| == maxAge + 1 && |r.1| == maxAge + 1
  {
    if n == 0 then (seq(maxAge + 1, _ => 0), seq(maxAge + 1, _ => 0))
    else
      var prev := Tally(valid, people, maxAge, n - 1);
      if !valid[n - 1] then prev
      else
        var a := AgeBucket(people[n - 1].age, maxAge);
        if people[n - 1].female then (prev.0, prev.1[a := prev.1[a] + 1])
        else (prev.0[a := prev.0[a] + 1], prev.1)
  }

  function Sum(s: seq<int>): int {
    if s == [] then 0 else s[0] + Sum(s[1..])
  }

  lemma {:induction false} SumBump(s: seq<int>, a: nat)
    requires a < |s|
    ensures Sum(s[a := s[a] + 1]) == Sum(s) + 1
  {
    if a > 0 {
      assert s[a := s[a] + 1][1..] == s[1..][a - 1 := s[1..][a - 1] + 1];
      SumBump(s[1..], a - 1);
    }
  }

  lemma {:induction false} SumZeros(n: nat)
    ensures Sum(seq(n, _ => 0)) == 0
  {
    if n > 0 {
      assert seq(n, _ => 0)[1..] == seq(n - 1, _ => 0);
      SumZeros(n - 1);
    }
  }

  /** The distribution counts every living person exactly once. */
  lemma {:induction false} TallyCountsEachLivingOnce(valid: seq<bool>, people: seq<PersonData>, maxAge: nat, n: nat)
    requires n <= |valid| && |valid| == |people|
    requires forall i :: 0 <= i < n && valid[i] ==> people[i].age >= 0
    ensures var t := Tally(valid, people, maxAge, n); Sum(t.0) + Sum(t.1) == |LivingBelow(valid, n)|
  {
    if n == 0 {
      SumZeros(maxAge + 1);
      assert LivingBelow(valid, 0) == {};
    } else {
      TallyCountsEachLivingOnce(valid, people, maxAge, n - 1);
      var prev := Tally(valid, people, maxAge, n - 1);
      if valid[n - 1] {
        assert LivingBelow(valid, n) == LivingBelow(valid, n - 1) + {n - 1};
        var a := AgeBucket(people[n - 1].age, maxAge);
        if people[n - 1].female {
          SumBump(prev.1, a);
        } else {
          SumBump(prev.0, a);
        }
      } else {
        assert LivingBelow(valid, n) == LivingBelow(valid, n - 1);
      }
    }
  }

  /** The store invariant on values: slot sequences of one length, pop_size
      is the number of living slots, ids of living people are distinct and
      were issued, and every id issued is below next_id. `issued` maps each
      id handed out to the slot it was given; a living person's id maps to
      the person's own slot, so no two living people share an id. */
  ghost predicate StoreInv(valid: seq<bool>, people: seq<PersonData>, masks: seq<set<Mask>>,
                           popSize: int, issued: map<nat, nat>, nextId: nat)
  {
    |people| == |valid| && |masks| == |valid|
    && popSize == |ValidSet(valid)|
    && (forall id :: id in issued ==> id < nextId)
    && (forall i :: 0 <= i < |valid| && valid[i] ==>
          people[i].id in issued && issued[people[i].id] == i && people[i].age >= 0
          && 0 <= BucketOf(people[i].birthDayOfYear, people[i].birthYear) < BucketCount)
  }

  /** No two living people share an id. */
  lemma LivingIdsDistinct(valid: seq<bool>, people: seq<PersonData>, masks: seq<set<Mask>>,
                          popSize: int, issued: map<nat, nat>, nextId: nat, i: nat, j: nat)
    requires StoreInv(valid, people, masks, popSize, issued, nextId)
    requires i < |valid| && j < |valid| && valid[i] && valid[j] && i != j
    ensures people[i].id != people[j].id
  {
  }

  /** Write a slot, growing the sequence by one when the slot is new. */
  function Place<T>(s: seq<T>, idx: nat, v: T): (r: seq<T>)
    requires idx <= |s|
    ensures |r| == if idx == |s| then |s| + 1 else |s|
    ensures r[idx] == v && forall i :: 0 <= i < |s| && i != idx ==> r[i] == s[i]
  {
    if idx == |s| then s + [v] else s[idx := v]
  }

  /** Adding a person with the next id to a free slot keeps the store. */
  lemma AddKeepsStore(valid: seq<bool>, people: seq<PersonData>, masks: seq<set<Mask>>,
                      popSize: int, issued: map<nat, nat>, nextId: nat, idx: nat, person: PersonData)
    requires StoreInv(valid, people, masks, popSize, issued, nextId)
    requires idx <= |valid| && (idx < |valid| ==> !valid[idx])
    requires person.id == nextId && person.age >= 0
    requires 0 <= BucketOf(person.birthDayOfYear, person.birthYear) < BucketCount
    ensures ValidSet(Place(valid, idx, true)) == ValidSet(valid) + {idx} && idx !in ValidSet(valid)
    ensures StoreInv(Place(valid, idx, true), Place(people, idx, person), Place(masks, idx, {}),
                     popSize + 1, issued[nextId := idx], nextId + 1)
  {
    assert ValidSet(Place(valid, idx, true)) == ValidSet(valid) + {idx};
  }

  /** Freeing a living slot keeps the store. */
  lemma DeleteKeepsStore(valid: seq<bool>, people: seq<PersonData>, masks: seq<set<Mask>>,
                         popSize: int, issued: map<nat, nat>, nextId: nat, idx: nat)
    requires StoreInv(valid, people, masks, popSize, issued, nextId)
    requires idx < |valid| && valid[idx]
    ensures ValidSet(valid[idx := false]) == ValidSet(valid) - {idx} && idx in ValidSet(valid)
    ensures StoreInv(valid[idx := false], people, masks, popSize - 1, issued, nextId)
  {
    assert ValidSet(valid[idx := false]) == ValidSet(valid) - {idx};
  }

  /** Changing only people in free slots leaves the living people's buckets. */
  lemma BucketsOfLiving(valid: seq<bool>, people: seq<PersonData>, people': seq<PersonData>)
    requires |people| == |valid| && |people'| >= |people|
    requires forall i :: 0 <= i < |valid| && valid[i] ==> people'[i] == people[i]
    ensures forall x :: x in ValidSet(valid) ==> x < |BucketsOf(people')| && BucketsOf(people')[x] == BucketsOf(people)[x]
  {
  }

  /** Adding a person to a free slot and to the end of their bucket keeps
      the birthday index. */
  lemma AddKeepsIndex(vecs: seq<seq<nat>>, m: map<nat, int>, valid: seq<bool>, people: seq<PersonData>,
                      idx: nat, person: PersonData)
    requires |people| == |valid| && idx <= |valid| && (idx < |valid| ==> !valid[idx])
    requires Indexed(vecs, m, BucketsOf(people), ValidSet(valid))
    requires 0 <= BucketOf(person.birthDayOfYear, person.birthYear) < BucketCount
    ensures var r := Insert(vecs, m, BucketOf(person.birthDayOfYear, person.birthYear), idx);
            Indexed(r.0, r.1, BucketsOf(Place(people, idx, person)), ValidSet(Place(valid, idx, true)))
  {
    var people' := Place(people, idx, person);
    assert ValidSet(Place(valid, idx, true)) == ValidSet(valid) + {idx};
    BucketsOfLiving(valid, people, people');
    IndexedIgnoresOthers(vecs, m, BucketsOf(people), ValidSet(valid), BucketsOf(people'));
    InsertKeepsIndexed(vecs, m, BucketsOf(people'), ValidSet(valid), idx);
  }

  /** Taking a living person out of their bucket and freeing the slot keeps
      the birthday index. */
  lemma RemoveKeepsIndex(vecs: seq<seq<nat>>, m: map<nat, int>, valid: seq<bool>, people: seq<PersonData>, x: nat)
    requires |people| == |valid| && x < |valid| && valid[x]
    requires Indexed(vecs, m, BucketsOf(people), ValidSet(valid))
    ensures x in m && 0 <= BucketOf(people[x].birthDayOfYear, people[x].birthYear) < |vecs|
    ensures var b := BucketOf(people[x].birthDayOfYear, people[x].birthYear);
            0 <= m[x] < |vecs[b]|
            && var r := SwapRemove(vecs, m, b, x);
               Indexed(r.0, r.1, BucketsOf(people), ValidSet(valid[x := false]))
  {
    assert ValidSet(valid[x := false]) == ValidSet(valid) - {x};
    SwapRemoveKeepsIndexed(vecs, m, BucketsOf(people), ValidSet(valid), x);
  }

  /** The population's invariant on values: the store, and with population
      dynamics on, a birthday index holding exactly the living people. */
  ghost predicate PopInv(dynamics: bool, valid: seq<bool>, people: seq<PersonData>, masks: seq<set<Mask>>,
                         popSize: int, issued: map<nat, nat>, nextId: nat, vecs: seq<seq<nat>>, m: map<nat, int>)
  {
    StoreInv(valid, people, masks, popSize, issued, nextId) && |vecs| == BucketCount
    && (dynamics ==> Indexed(vecs, m, BucketsOf(people), ValidSet(valid)))
  }

  /** The birthday index after add_person: with population dynamics the new
      index goes at the end of its bucket; without, the index is not kept. */
  function IndexAfterAdd(dynamics: bool, vecs: seq<seq<nat>>, m: map<nat, int>, b: int, idx: nat): (seq<seq<nat>>, map<nat, int>)
    requires 0 <= b < |vecs|
  {
    if dynamics then Insert(vecs, m, b, idx) else (vecs, m)
  }

  lemma AddKeepsPop(dynamics: bool, valid: seq<bool>, people: seq<PersonData>, masks: seq<set<Mask>>,
                    popSize: int, issued: map<nat, nat>, nextId: nat, vecs: seq<seq<nat>>, m: map<nat, int>,
                    idx: nat, person: PersonData)
    requires PopInv(dynamics, valid, people, masks, popSize, issued, nextId, vecs, m)
    requires idx <= |valid| && (idx < |valid| ==> !valid[idx])
    requires person.id == nextId && person.age >= 0
    requires 0 <= BucketOf(person.birthDayOfYear, person.birthYear) < BucketCount
    ensures var r := IndexAfterAdd(dynamics, vecs, m, BucketOf(person.birthDayOfYear, person.birthYear), idx);
            PopInv(dynamics, Place(valid, idx, true), Place(people, idx, person), Place(masks, idx, {}),
                   popSize + 1, issued[nextId := idx], nextId + 1, r.0, r.1)
  {
    AddKeepsStore(valid, people, masks, popSize, issued, nextId, idx, person);
    if dynamics {
      AddKeepsIndex(vecs, m, valid, people, idx, person);
    }
  }

  /** AddKeepsPop, stated about the values add_person leaves behind. */
  lemma AddedPop(dynamics: bool, valid: seq<bool>, people: seq<PersonData>, masks: seq<set<Mask>>,
                 popSize: int, issued: map<nat, nat>, nextId: nat, vecs: seq<seq<nat>>, m: map<nat, int>,
                 idx: nat, person: PersonData,
                 valid': seq<bool>, people': seq<PersonData>, masks': seq<set<Mask>>,
                 popSize': int, issued': map<nat, nat>, nextId': nat, vecs': seq<seq<nat>>, m': map<nat, int>)
    requires PopInv(dynamics, valid, people, masks, popSize, issued, nextId, vecs, m)
    requires idx <= |valid| && (idx < |valid| ==> !valid[idx])
    requires person.id == nextId && person.age >= 0
    requires 0 <= BucketOf(person.birthDayOfYear, person.birthYear) < BucketCount
    requires valid' == Place(valid, idx, true) && people' == Place(people, idx, person) && masks' == Place(masks, idx, {})
    requires popSize' == popSize + 1 && issued' == issued[nextId := idx] && nextId' == nextId + 1
    requires (vecs', m') == IndexAfterAdd(dynamics, vecs, m, BucketOf(person.birthDayOfYear, person.birthYear), idx)
    ensures PopInv(dynamics, valid', people', masks', popSize', issued', nextId', vecs', m')
  {
    AddKeepsPop(dynamics, valid, people, masks, popSize, issued, nextId, vecs, m, idx, person);
  }

  /** The birthday index after one person died: with population dynamics
      the person is swapped out of their bucket; without, the index is not
      kept. */
  function IndexAfterRemove(dynamics: bool, vecs: seq<seq<nat>>, m: map<nat, int>, b: int, x: nat): (seq<seq<nat>>, map<nat, int>)
    requires dynamics ==> 0 <= b < |vecs| && x in m && 0 <= m[x] < |vecs[b]|
  {
    if dynamics then SwapRemove(vecs, m, b, x) else (vecs, m)
  }

  /** A living person is in the birthday index, at a position inside their
      bucket. */
  lemma LivingIsIndexed(dynamics: bool, valid: seq<bool>, people: seq<PersonData>, masks: seq<set<Mask>>,
                        popSize: int, issued: map<nat, nat>, nextId: nat, vecs: seq<seq<nat>>, m: map<nat, int>, x: nat)
    requires PopInv(dynamics, valid, people, masks, popSize, issued, nextId, vecs, m)
    requires x < |valid| && valid[x]
    ensures var b := BucketOf(people[x].birthDayOfYear, people[x].birthYear);
            dynamics ==> 0 <= b < |vecs| && x in m && 0 <= m[x] < |vecs[b]|
  {
  }

  /** Freeing a living person, and swapping them out of their bucket when
      the index is kept, keeps the population's invariant. */
  lemma RemovedPop(dynamics: bool, valid: seq<bool>, people: seq<PersonData>, masks: seq<set<Mask>>,
                   popSize: int, issued: map<nat, nat>, nextId: nat, vecs: seq<seq<nat>>, m: map<nat, int>, x: nat,
                   valid': seq<bool>, popSize': int, vecs': seq<seq<nat>>, m': map<nat, int>)
    requires PopInv(dynamics, valid, people, masks, popSize, issued, nextId, vecs, m)
    requires x < |valid| && valid[x]
    requires var b := BucketOf(people[x].birthDayOfYear, people[x].birthYear);
             dynamics ==> 0 <= b < |vecs| && x in m && 0 <= m[x] < |vecs[b]|
    requires valid' == valid[x := false] && popSize' == popSize - 1
    requires (vecs', m') == IndexAfterRemove(dynamics, vecs, m, BucketOf(people[x].birthDayOfYear, people[x].birthYear), x)
    ensures PopInv(dynamics, valid', people, masks, popSize', issued, nextId, vecs', m')
  {
    DeleteKeepsStore(valid, people, masks, popSize, issued, nextId, x);
    if dynamics {
      RemoveKeepsIndex(vecs, m, valid, people, x);
    }
  }

  /** remove_dead_from_population on values: free each listed index in
      order, taking it out of its birthday bucket first when the index is
      kept. Completes exactly when the list names living people, none
      twice. */
  method RemoveAll(dynamics: bool, valid: seq<bool>, people: seq<PersonData>, masks: seq<set<Mask>>,
                   popSize: int, ghost issued: map<nat, nat>, nextId: nat, vecs: seq<seq<nat>>, m: map<nat, int>,
                   deaths: seq<nat>)
    returns (outcome: Outcome, live: seq<bool>, count: int, vecs': seq<seq<nat>>, m': map<nat, int>)
    requires PopInv(dynamics, valid, people, masks, popSize, issued, nextId, vecs, m)
    ensures outcome == Done <==> DistinctLiving(deaths, valid)
    ensures outcome == Done ==>
              PopInv(dynamics, live, people, masks, count, issued, nextId, vecs', m')
              && live == AfterDeaths(valid, deaths)
              && ValidSet(live) == ValidSet(valid) - Elements(deaths)
              && count == popSize - |deaths|
  {
    live, count, vecs', m' := valid, popSize, vecs, m;
    var i := 0;
    assert deaths[..0] == [];
    while i < |deaths|
      invariant 0 <= i <= |deaths|
      invariant PopInv(dynamics, live, people, masks, count, issued, nextId, vecs', m')
      invariant DistinctLiving(deaths[..i], valid)
      invariant |live| == |valid|
      invariant forall j :: 0 <= j < |live| ==> (live[j] <==> valid[j] && j !in deaths[..i])
      invariant count == popSize - i
    {
      var x := deaths[i];
      assert deaths[..i + 1] == deaths[..i] + [x];
      if !(x < |live| && live[x]) {
        DistinctLivingPrefix(deaths, valid, i + 1);
        return Aborted("assertion: get_person_by_index(idx) == person"), live, count, vecs', m';
      }
      LivingIsIndexed(dynamics, live, people, masks, count, issued, nextId, vecs', m', x);
      var index := IndexAfterRemove(dynamics, vecs', m', BucketOf(people[x].birthDayOfYear, people[x].birthYear), x);
      ghost var live0, count0, vecs0, m0 := live, count, vecs', m';
      live, count, vecs', m' := live[x := false], count - 1, index.0, index.1;
      RemovedPop(dynamics, live0, people, masks, count0, issued, nextId, vecs0, m0, x, live, count, vecs', m');
      i := i + 1;
    }
    assert deaths[..i] == deaths;
    assert live == AfterDeaths(valid, deaths);
    LivingAfterDeaths(live, valid, deaths);
    outcome := Done;
  }

  // ---------------------------------------------------------------------
  // The daily update.

  /** The natural deaths of the day: none without population dynamics. */
  function NaturalDeaths(dynamics: bool, queued: seq<nat>): seq<nat> {
    if dynamics then queued else []
  }

  /** Outcomes of select_random_person_by_age: NULL from a guard, a person,
      or (in this model) no acceptable person among the draws given. */
  datatype Selection = NoPerson | Chosen(index: nat) | OutOfDraws

  class Population {
    const populationDynamics: bool    // Global::Enable_Population_Dynamics
    const maxAge: nat                 // Demographics::MAX_AGE

    var valid: seq<bool>
    var people: seq<PersonData>
    var masks: seq<set<Mask>>
    var nextId: nat
    var popSize: int
    var deathList: seq<nat>
    var maternityList: seq<nat>
    var birthdayVecs: seq<seq<nat>>
    var birthdayMap: map<nat, int>
    ghost var issuedIds: map<nat, nat>

    ghost predicate StoreValid()
      reads this
    {
      StoreInv(valid, people, masks, popSize, issuedIds, nextId) && |birthdayVecs| == BucketCount
    }

    /** With population dynamics on, the birthday index holds exactly the
        living people, each at the position the map gives. */
    ghost predicate Valid()
      reads this
    {
      PopInv(populationDynamics, valid, people, masks, popSize, issuedIds, nextId, birthdayVecs, birthdayMap)
    }

    constructor (populationDynamics: bool, maxAge: nat)
      ensures Valid()
      ensures this.populationDynamics == populationDynamics && this.maxAge == maxAge
      ensures valid == [] && people == [] && masks == [] && nextId == 0 && popSize == 0
      ensures deathList == [] && maternityList == [] && birthdayMap == map[]
      ensures birthdayVecs == seq(BucketCount, _ => [])
    {
      this.populationDynamics := populationDynamics;
      this.maxAge := maxAge;
      valid, people, masks := [], [], [];
      nextId, popSize := 0, 0;
      deathList, maternityList := [], [];
      birthdayVecs := seq(BucketCount, _ => []);
      birthdayMap := map[];
      issuedIds := map[];
    }

    /** The person at a store index, or none for an index that holds nobody. */
    function GetPersonByIndex(i: int): (r: Option<PersonData>)
      requires StoreValid()
      reads this
      ensures r.Some? <==> 0 <= i < |valid| && valid[i]
      ensures r.Some? ==> r.value == people[i] && r.value.id < nextId
    {
      if 0 <= i < |valid| && valid[i] then Some(people[i]) else None
    }

    /** The store's choice of slot for a new person: any free slot, or a new
        one at the end. */
    method GetFreeIndex() returns (idx: nat)
      ensures idx <= |valid| && (idx < |valid| ==> !valid[idx])
    {
      assert |valid| <= |valid|;
      idx :| idx <= |valid| && (idx < |valid| ==> !valid[idx]);
    }

    method SetMaskByIndex(mask: Mask, idx: nat)
      requires Valid() && idx < |valid|
      modifies this
      ensures Valid()
      ensures masks == old(masks)[idx := old(masks)[idx] + {mask}]
      ensures valid == old(valid) && people == old(people) && popSize == old(popSize)
      ensures deathList == old(deathList) && maternityList == old(maternityList)
      ensures birthdayVecs == old(birthdayVecs) && birthdayMap == old(birthdayMap) && nextId == old(nextId)
    {
      masks := masks[idx := masks[idx] + {mask}];
    }

    method ClearMaskByIndex(mask: Mask, idx: nat)
      requires Valid() && idx < |valid|
      modifies this
      ensures Valid()
      ensures masks == old(masks)[idx := old(masks)[idx] - {mask}]
      ensures valid == old(valid) && people == old(people) && popSize == old(popSize)
      ensures deathList == old(deathList) && maternityList == old(maternityList)
      ensures birthdayVecs == old(birthdayVecs) && birthdayMap == old(birthdayMap) && nextId == old(nextId)
    {
      masks := masks[idx := masks[idx] - {mask}];
    }

    /** Add a person: the next id, a free slot, and (with population
        dynamics) the end of the person's birthday bucket. */
    method AddPerson(age: int, female: bool, birthDayOfYear: int, birthYear: int) returns (idx: nat, id: nat)
      requires Valid() && age >= 0 && 0 <= BucketOf(birthDayOfYear, birthYear) < BucketCount
      modifies this
      ensures Valid()
      ensures id == old(nextId) && nextId == old(nextId) + 1 && id !in old(issuedIds)
      ensures idx <= old(|valid|) && (idx < old(|valid|) ==> !old(valid)[idx])
      ensures GetPersonByIndex(idx) == Some(PersonData(id, age, female, birthDayOfYear, birthYear))
      ensures popSize == old(popSize) + 1
      ensures valid == Place(old(valid), idx, true)
      ensures people == Place(old(people), idx, PersonData(id, age, female, birthDayOfYear, birthYear))
      ensures masks == Place(old(masks), idx, {})
      ensures populationDynamics ==>
                (birthdayVecs, birthdayMap)
                == Insert(old(birthdayVecs), old(birthdayMap), BucketOf(birthDayOfYear, birthYear), idx)
      ensures !populationDynamics ==> birthdayVecs == old(birthdayVecs) && birthdayMap == old(birthdayMap)
      ensures deathList == old(deathList) && maternityList == old(maternityList)
    {
      id := nextId;
      idx := GetFreeIndex();
      var person := PersonData(id, age, female, birthDayOfYear, birthYear);
      var index := IndexAfterAdd(populationDynamics, birthdayVecs, birthdayMap, BucketOf(birthDayOfYear, birthYear), idx);
      valid, people, masks, popSize, nextId, birthdayVecs, birthdayMap
        := Place(valid, idx, true), Place(people, idx, person), Place(masks, idx, {}), popSize + 1, nextId + 1, index.0, index.1;
      issuedIds := issuedIds[id := idx];
      AddedPop(populationDynamics, old(valid), old(people), old(masks), old(popSize), old(issuedIds), old(nextId),
               old(birthdayVecs), old(birthdayMap), idx, person,
               valid, people, masks, popSize, issuedIds, nextId, birthdayVecs, birthdayMap);
    }

    /** Free a person's slot. Aborts when the index holds nobody. */
    method DeletePerson(idx: nat) returns (outcome: Outcome)
      requires StoreValid()
      modifies this
      ensures StoreValid()
      ensures outcome.Aborted? <==> !(idx < old(|valid|) && old(valid)[idx])
      ensures outcome.Aborted? ==> unchanged(this)
      ensures outcome == Done ==>
                valid == old(valid)[idx := false] && popSize == old(popSize) - 1
                && ValidSet(valid) == old(ValidSet(valid)) - {idx}
      ensures outcome == Done ==>
                people == old(people) && masks == old(masks) && nextId == old(nextId) && issuedIds == old(issuedIds)
                && deathList == old(deathList) && maternityList == old(maternityList)
                && birthdayVecs == old(birthdayVecs) && birthdayMap == old(birthdayMap)
    {
      if !(idx < |valid| && valid[idx]) {
        return Aborted("assertion: get_person_by_index(idx) == person");
      }
      DeleteKeepsStore(valid, people, masks, popSize, issuedIds, nextId, idx);
      valid := valid[idx := false];
      popSize := popSize - 1;
      outcome := Done;
    }

    /** Queue a person for removal at the end of the pass; nothing is freed. */
    method PrepareToDie(day: int, idx: nat) returns (outcome: Outcome)
      requires Valid()
      modifies this
      ensures Valid()
      ensures outcome.Aborted? <==> !(idx < |valid| && valid[idx])
      ensures outcome.Aborted? ==> unchanged(this)
      ensures outcome == Done ==> deathList == old(deathList) + [idx]
      ensures valid == old(valid) && people == old(people) && masks == old(masks) && popSize == old(popSize)
      ensures maternityList == old(maternityList) && nextId == old(nextId)
      ensures birthdayVecs == old(birthdayVecs) && birthdayMap == old(birthdayMap)
    {
      if !(idx < |valid| && valid[idx]) {
        return Aborted("null person");
      }
      deathList := deathList + [idx];
      outcome := Done;
    }

    /** Queue a mother for today's births. */
    method PrepareToGiveBirth(day: int, idx: nat) returns (outcome: Outcome)
      requires Valid()
      modifies this
      ensures Valid()
      ensures outcome.Aborted? <==> !(idx < |valid| && valid[idx])
      ensures outcome.Aborted? ==> unchanged(this)
      ensures outcome == Done ==> maternityList == old(maternityList) + [idx]
      ensures valid == old(valid) && people == old(people) && masks == old(masks) && popSize == old(popSize)
      ensures deathList == old(deathList) && nextId == old(nextId)
      ensures birthdayVecs == old(birthdayVecs) && birthdayMap == old(birthdayMap)
    {
      if !(idx < |valid| && valid[idx]) {
        return Aborted("null person");
      }
      maternityList := maternityList + [idx];
      outcome := Done;
    }

    /** Free everyone on the death list, in order, and clear the list.
        Completes exactly when the list names living people, none twice. */
    method RemoveDeadFromPopulation() returns (outcome: Outcome)
      requires Valid()
      modifies this
      ensures Valid()
      ensures outcome == Done <==> DistinctLiving(old(deathList), old(valid))
      ensures outcome.Aborted? ==> unchanged(this)
      ensures outcome == Done ==>
                deathList == []
                && valid == AfterDeaths(old(valid), old(deathList))
                && ValidSet(valid) == old(ValidSet(valid)) - Elements(old(deathList))
                && popSize == old(popSize) - |old(deathList)|
      ensures people == old(people) && masks == old(masks) && nextId == old(nextId)
      ensures maternityList == old(maternityList)
    {
      var live, count, vecs, bmap;
      outcome, live, count, vecs, bmap := RemoveAll(populationDynamics, valid, people, masks, popSize, issuedIds, nextId,
                                                    birthdayVecs, birthdayMap, deathList);
      if outcome == Done {
        valid, popSize, birthdayVecs, birthdayMap, deathList := live, count, vecs, bmap, [];
      }
    }

    /** One day of the population's update. The lists of the day are
        cleared; with population dynamics the people in today's birthday
        buckets have their birthday, and the natural deaths the
        demographic pass queues are removed; after the health pass the
        disease deaths it queues are removed; the remaining passes are made
        in order. The deaths each pass queues are given as parameters.
        Completes exactly when each removal list names living people, none
        twice. */
    method Update(day: int, dayOfYear: int, leap: bool, julyFirst: bool, interventions: bool,
                  naturalDeaths: seq<nat>, diseaseDeaths: seq<nat>)
      returns (outcome: Outcome, log: seq<Pass>, celebrants: seq<nat>)
      requires Valid() && 1 <= dayOfYear <= DaysInYear(leap)
      modifies this
      ensures Valid()
      ensures celebrants == if populationDynamics then Celebrants(old(birthdayVecs), Dispatch(dayOfYear, leap)) else []
      ensures outcome == Done <==>
                DistinctLiving(NaturalDeaths(populationDynamics, naturalDeaths), old(valid))
                && DistinctLiving(diseaseDeaths, AfterDeaths(old(valid), NaturalDeaths(populationDynamics, naturalDeaths)))
      ensures outcome == Done ==>
                log == DailyPasses(day, populationDynamics, interventions, julyFirst)
                && valid == AfterDeaths(AfterDeaths(old(valid), NaturalDeaths(populationDynamics, naturalDeaths)), diseaseDeaths)
                && popSize == old(popSize) - |NaturalDeaths(populationDynamics, naturalDeaths)| - |diseaseDeaths|
                && deathList == [] && maternityList == []
      ensures people == old(people) && masks == old(masks) && nextId == old(nextId)
    {
      deathList, maternityList := [], [];
      log, celebrants := [], [];
      if populationDynamics {
        celebrants := Celebrants(birthdayVecs, Dispatch(dayOfYear, leap));
        deathList := naturalDeaths;
        outcome := RemoveDeadFromPopulation();
        if outcome.Aborted? {
          return;
        }
      } else {
        assert AfterDeaths(valid, []) == valid;
      }
      log := DemographicPasses(populationDynamics);
      assert valid == AfterDeaths(old(valid), NaturalDeaths(populationDynamics, naturalDeaths));
      deathList := diseaseDeaths;
      outcome := RemoveDeadFromPopulation();
      if outcome.Aborted? {
        return;
      }
      log := log + HealthPasses(interventions);
      log := log + ClosingPasses(day, populationDynamics && julyFirst);
      JoinAssociates(DemographicPasses(populationDynamics), HealthPasses(interventions),
                     ClosingPasses(day, populationDynamics && julyFirst));
    }

    /** Count the living by sex and age bucket into the two arrays (ages
        above MAX_AGE share the last bucket). */
    method GetAgeDistribution(countMales: array<int>, countFemales: array<int>)
      requires StoreValid() && countMales != countFemales
      requires countMales.Length > maxAge && countFemales.Length > maxAge
      modifies countMales, countFemales
      ensures countMales[..maxAge + 1] == Tally(valid, people, maxAge, |valid|).0
      ensures countFemales[..maxAge + 1] == Tally(valid, people, maxAge, |valid|).1
      ensures countMales[maxAge + 1..] == old(countMales[maxAge + 1..])
      ensures countFemales[maxAge + 1..] == old(countFemales[maxAge + 1..])
    {
      for i := 0 to maxAge + 1
        invariant forall j :: 0 <= j < i ==> countMales[j] == 0 && countFemales[j] == 0
        invariant countMales[maxAge + 1..] == old(countMales[maxAge + 1..])
        invariant countFemales[maxAge + 1..] == old(countFemales[maxAge + 1..])
      {
        countMales[i] := 0;
        countFemales[i] := 0;
      }
      assert countMales[..maxAge + 1] == Tally(valid, people, maxAge, 0).0;
      assert countFemales[..maxAge + 1] == Tally(valid, people, maxAge, 0).1;
      for p := 0 to |valid|
        invariant countMales[..maxAge + 1] == Tally(valid, people, maxAge, p).0
        invariant countFemales[..maxAge + 1] == Tally(valid, people, maxAge, p).1
        invariant countMales[maxAge + 1..] == old(countMales[maxAge + 1..])
        invariant countFemales[maxAge + 1..] == old(countFemales[maxAge + 1..])
      {
        var person := GetPersonByIndex(p);
        if person.None? {
          continue;
        }
        var age := person.value.age;
        if age > maxAge {
          age := maxAge;
        }
        if person.value.female {
          countFemales[age] := countFemales[age] + 1;
        } else {
          countMales[age] := countMales[age] + 1;
        }
      }
    }

    predicate InAgeRange(i: int, minAge: int, maxWanted: int)
      requires StoreValid()
      reads this
    {
      0 <= i < |valid| && valid[i] && minAge <= people[i].age <= maxWanted
    }

    /** select_random_person_by_age: NULL when the range is empty or starts
        above MAX_AGE; otherwise the first drawn index that holds a person
        in the range. */
    method SelectRandomPersonByAge(minAge: int, maxWanted: int, draws: seq<int>) returns (r: Selection)
      requires StoreValid()
      ensures r == NoPerson <==> maxWanted < minAge || maxAge < minAge
      ensures r.Chosen? ==>
                InAgeRange(r.index, minAge, maxWanted)
                && exists k :: 0 <= k < |draws| && draws[k] == r.index
                               && forall j :: 0 <= j < k ==> !InAgeRange(draws[j], minAge, maxWanted)
      ensures r == OutOfDraws ==> forall j :: 0 <= j < |draws| ==> !InAgeRange(draws[j], minAge, maxWanted)
    {
      if maxWanted < minAge {
        return NoPerson;
      }
      if maxAge < minAge {
        return NoPerson;
      }
      var k := 0;
      while k < |draws|
        invariant 0 <= k <= |draws|
        invariant forall j :: 0 <= j < k ==> !InAgeRange(draws[j], minAge, maxWanted)
      {
        var person := GetPersonByIndex(draws[k]);
        if person.Some? && minAge <= person.value.age <= maxWanted {
          return Chosen(draws[k]);
        }
        k := k + 1;
      }
      return OutOfDraws;
    }
  }
}

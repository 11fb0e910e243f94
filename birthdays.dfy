/** The birthday index of the population (Population.cc): people are kept
    in 367 buckets by day of birth, numbered as in a leap year, and a map
    gives each person's position inside its bucket. This module states the
    bucket rule, the daily dispatch and the swap-with-last removal as
    functions on values. */
module Birthdays {

  const BucketCount: nat := 367

  /** The Gregorian leap-year rule. */
  predicate IsLeapYear(y: int) {
    (y % 4 == 0 && y % 100 != 0) || y % 400 == 0
  }

  function DaysInYear(leap: bool): int {
    if leap then 366 else 365
  }

  /** The bucket of someone born on day `birthDayOfYear` of `birthYear`:
      the day of year, moved up by one from 1 March on in a non-leap year so
      that every date has the number it has in a leap year. */
  function BucketOf(birthDayOfYear: int, birthYear: int): int {
    if birthDayOfYear > 59 && !IsLeapYear(birthYear) then birthDayOfYear + 1 else birthDayOfYear
  }

  /** Every day of every year has a bucket in 1..366; bucket 60 holds only
      people born on 29 February; within one year different days get
      different buckets. */
  lemma BucketOfRange(doy: int, doy2: int, year: int)
    requires 1 <= doy <= DaysInYear(IsLeapYear(year)) && 1 <= doy2 <= DaysInYear(IsLeapYear(year))
    ensures 1 <= BucketOf(doy, year) <= 366 && BucketOf(doy, year) < BucketCount
    ensures BucketOf(doy, year) == 60 ==> IsLeapYear(year) && doy == 60
    ensures BucketOf(doy, year) == BucketOf(doy2, year) ==> doy == doy2
  {
  }

  /** The buckets the daily update runs on day `doy` of the current year,
      as written: bucket doy unless it is 60 in a non-leap year, and in a
      non-leap year bucket 60 again on day 61. */
  function DispatchAsWritten(doy: int, leap: bool): seq<int> {
    (if doy != 60 || leap then [doy] else []) + (if !leap && doy == 61 then [60] else [])
  }

  lemma DispatchAsWrittenBucket60(doy: int, leap: bool)
    ensures 60 in DispatchAsWritten(doy, leap) <==> (leap && doy == 60) || (!leap && doy == 61)
    ensures leap ==> DispatchAsWritten(doy, leap) == [doy]
  {
  }

  /** As written, in a non-leap year no day runs bucket 366: people born on
      31 December are never given their birthday in such a year. */
  lemma DispatchAsWrittenSkipsLastBucket(doy: int)
    requires 1 <= doy <= DaysInYear(false)
    ensures 366 !in DispatchAsWritten(doy, false)
    ensures BucketOf(365, 2001) == 366
  {
  }

  /** As written, in a non-leap year someone born on 1 March or later is
      dispatched one day after their own day of year. */
  lemma DispatchAsWrittenLate(birthDayOfYear: int)
    requires 60 <= birthDayOfYear <= 364
    ensures BucketOf(birthDayOfYear, 2001) == birthDayOfYear + 1
    ensures BucketOf(birthDayOfYear, 2001) !in DispatchAsWritten(birthDayOfYear, false)
    ensures BucketOf(birthDayOfYear, 2001) in DispatchAsWritten(birthDayOfYear + 1, false)
  {
  }

  /** The dispatch the bucket rule calls for: in a leap year bucket doy; in
      a non-leap year the bucket numbered as in a leap year, with the
      29 February bucket run together with 1 March. */
  function Dispatch(doy: int, leap: bool): seq<int> {
    if leap || doy < 60 then [doy]
    else if doy == 60 then [60, 61]
    else [doy + 1]
  }

  /** The one day of the year on which bucket b is run. */
  function BucketDay(b: int, leap: bool): int {
    if leap || b < 60 then b else if b <= 61 then 60 else b - 1
  }

  /** Every bucket is run on exactly one day of every year. */
  lemma DispatchRunsEachBucketOnce(b: int, doy: int, leap: bool)
    requires 1 <= b <= 366 && 1 <= doy <= DaysInYear(leap)
    ensures 1 <= BucketDay(b, leap) <= DaysInYear(leap)
    ensures b in Dispatch(doy, leap) <==> doy == BucketDay(b, leap)
  {
  }

  /** Someone born in a year of the same kind as the current one is run on
      their own day of year. */
  lemma DispatchOnBirthDay(birthDayOfYear: int, birthYear: int, leap: bool)
    requires IsLeapYear(birthYear) == leap && 1 <= birthDayOfYear <= DaysInYear(leap)
    ensures BucketDay(BucketOf(birthDayOfYear, birthYear), leap) == birthDayOfYear
    ensures BucketOf(birthDayOfYear, birthYear) in Dispatch(birthDayOfYear, leap)
  {
  }

  // -----------------------------------------------------------------------
  // The index: buckets of store indices and each member's position.

  /** Each bucket member is in the map at its own position and lies in the
      bucket its birth date selects; each key of the map is a member, found
      at the position the map gives. `bucketOf[x]` is the bucket of the
      person at store index x. */
  ghost predicate Indexed(vecs: seq<seq<nat>>, m: map<nat, int>, bucketOf: seq<int>, members: set<nat>) {
    |vecs| == BucketCount
    && m.Keys == members
    && (forall x :: x in m ==>
          x < |bucketOf| && 0 <= bucketOf[x] < BucketCount
          && 0 <= m[x] < |vecs[bucketOf[x]]| && vecs[bucketOf[x]][m[x]] == x)
    && (forall b, k :: 0 <= b < |vecs| && 0 <= k < |vecs[b]| ==>
          vecs[b][k] in m && m[vecs[b][k]] == k && bucketOf[vecs[b][k]] == b)
  }

  /** The index only depends on the buckets of its members. */
  lemma IndexedIgnoresOthers(vecs: seq<seq<nat>>, m: map<nat, int>, bucketOf: seq<int>, members: set<nat>,
                             bucketOf': seq<int>)
    requires Indexed(vecs, m, bucketOf, members)
    requires forall x :: x in members ==> x < |bucketOf'| && bucketOf'[x] == bucketOf[x]
    ensures Indexed(vecs, m, bucketOf', members)
  {
  }

  /** Adding x at the end of its bucket. */
  function Insert(vecs: seq<seq<nat>>, m: map<nat, int>, b: int, x: nat): (seq<seq<nat>>, map<nat, int>)
    requires 0 <= b < |vecs|
  {
    (vecs[b := vecs[b] + [x]], m[x := |vecs[b]|])
  }

  lemma InsertKeepsIndexed(vecs: seq<seq<nat>>, m: map<nat, int>, bucketOf: seq<int>, members: set<nat>, x: nat)
    requires Indexed(vecs, m, bucketOf, members) && x !in members
    requires x < |bucketOf| && 0 <= bucketOf[x] < BucketCount
    ensures var r := Insert(vecs, m, bucketOf[x], x); Indexed(r.0, r.1, bucketOf, members + {x})
  {
    var r := Insert(vecs, m, bucketOf[x], x);
    forall b, k | 0 <= b < |r.0| && 0 <= k < |r.0[b]|
      ensures r.0[b][k] in r.1 && r.1[r.0[b][k]] == k && bucketOf[r.0[b][k]] == b
    {
      if b == bucketOf[x] && k == |vecs[b]| {
        assert r.0[b][k] == x;
      } else {
        assert r.0[b][k] == vecs[b][k];
      }
    }
  }

  /** Removing x by moving the last member of its bucket into x's place,
      then dropping the last position; the map gives the moved member x's
      old position and forgets x. */
  function SwapRemove(vecs: seq<seq<nat>>, m: map<nat, int>, b: int, x: nat): (seq<seq<nat>>, map<nat, int>)
    requires 0 <= b < |vecs| && x in m && 0 <= m[x] < |vecs[b]|
  {
    var v := vecs[b];
    var last := v[|v| - 1];
    (vecs[b := v[m[x] := last][..|v| - 1]], m[last := m[x]] - {x})
  }

  /** remove_dead_from_population's map update as written: forget x, then
      give the moved member x's old position. When x is itself the last
      member the second step puts x back. */
  function SwapRemoveAsWritten(vecs: seq<seq<nat>>, m: map<nat, int>, b: int, x: nat): (seq<seq<nat>>, map<nat, int>)
    requires 0 <= b < |vecs| && x in m && 0 <= m[x] < |vecs[b]|
  {
    var v := vecs[b];
    var last := v[|v| - 1];
    (vecs[b := v[m[x] := last][..|v| - 1]], (m - {x})[last := m[x]])
  }

  lemma {:induction false} SwapRemoveKeepsIndexed(vecs: seq<seq<nat>>, m: map<nat, int>, bucketOf: seq<int>,
                                                  members: set<nat>, x: nat)
    requires Indexed(vecs, m, bucketOf, members) && x in members
    ensures var r := SwapRemove(vecs, m, bucketOf[x], x); Indexed(r.0, r.1, bucketOf, members - {x})
  {
    var b0 := bucketOf[x];
    var v := vecs[b0];
    var pos := m[x];
    var last := v[|v| - 1];
    assert m[last] == |v| - 1;
    var r := SwapRemove(vecs, m, b0, x);
    var nv := v[pos := last][..|v| - 1];
    assert r.0[b0] == nv;
    forall y | y in r.1
      ensures y < |bucketOf| && 0 <= bucketOf[y] < BucketCount
              && 0 <= r.1[y] < |r.0[bucketOf[y]]| && r.0[bucketOf[y]][r.1[y]] == y
    {
      if y == last {
        assert pos < |v| - 1;
      } else {
        assert y in m && r.1[y] == m[y];
        if bucketOf[y] == b0 {
          assert m[y] != pos && m[y] != |v| - 1;
        }
      }
    }
    forall b, k | 0 <= b < |r.0| && 0 <= k < |r.0[b]|
      ensures r.0[b][k] in r.1 && r.1[r.0[b][k]] == k && bucketOf[r.0[b][k]] == b
    {
      if b == b0 {
        if k == pos {
          assert r.0[b][k] == last;
        } else {
          assert r.0[b][k] == v[k];
          assert v[k] != x && v[k] != last;
        }
      } else {
        assert r.0[b][k] == vecs[b][k];
        assert vecs[b][k] != x;
      }
    }
  }

  /** As written, removing the last member of a bucket leaves it in the map
      although it is in no bucket any more, so the index is broken. */
  lemma SwapRemoveAsWrittenKeepsDeadKey(vecs: seq<seq<nat>>, m: map<nat, int>, bucketOf: seq<int>,
                                        members: set<nat>, x: nat)
    requires Indexed(vecs, m, bucketOf, members) && x in members
    requires m[x] == |vecs[bucketOf[x]]| - 1
    ensures var r := SwapRemoveAsWritten(vecs, m, bucketOf[x], x);
      x in r.1 && !Indexed(r.0, r.1, bucketOf, members - {x})
  {
  }

  /** The people in the given buckets, bucket by bucket. */
  function Celebrants(vecs: seq<seq<nat>>, buckets: seq<int>): seq<nat>
    requires forall k :: 0 <= k < |buckets| ==> 0 <= buckets[k] < |vecs|
    decreases |buckets|
  {
    if buckets == [] then [] else vecs[buckets[0]] + Celebrants(vecs, buckets[1..])
  }

  /** With the birthday index kept, the people run for a list of buckets are
      exactly the indexed people whose bucket is in the list. */
  lemma {:induction false} CelebrantsAreInBuckets(vecs: seq<seq<nat>>, m: map<nat, int>, bucketOf: seq<int>,
                                                  members: set<nat>, buckets: seq<int>, x: nat)
    requires Indexed(vecs, m, bucketOf, members)
    requires forall k :: 0 <= k < |buckets| ==> 0 <= buckets[k] < |vecs|
    ensures x in Celebrants(vecs, buckets) <==> x in members && bucketOf[x] in buckets
    decreases |buckets|
  {
    if buckets != [] {
      CelebrantsAreInBuckets(vecs, m, bucketOf, members, buckets[1..], x);
      var b := buckets[0];
      if x in members && bucketOf[x] == b {
        assert vecs[b][m[x]] == x;
      }
      if x in vecs[b] {
        var k :| 0 <= k < |vecs[b]| && vecs[b][k] == x;
        assert bucketOf[vecs[b][k]] == b;
      }
      assert buckets == [b] + buckets[1..];
    }
  }

  /** Each living person is run on the one day of the year their bucket
      belongs to, and on no other. */
  lemma BirthdayOnItsDay(vecs: seq<seq<nat>>, m: map<nat, int>, bucketOf: seq<int>, members: set<nat>,
                         x: nat, doy: int, leap: bool)
    requires Indexed(vecs, m, bucketOf, members) && x in members
    requires 1 <= bucketOf[x] <= 366 && 1 <= doy <= DaysInYear(leap)
    ensures x in Celebrants(vecs, Dispatch(doy, leap)) <==> doy == BucketDay(bucketOf[x], leap)
  {
    CelebrantsAreInBuckets(vecs, m, bucketOf, members, Dispatch(doy, leap), x);
    DispatchRunsEachBucketOnce(bucketOf[x], doy, leap);
  }
}

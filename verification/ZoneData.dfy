/** The time-zone table of `base/time_zone.cpp` and the search over it. */
module ZoneData {
  import opened UtcTime

  /** A change of local time: when it happens in UTC, what the wall clock then shows, and the
      local time type in force from there on. */
  datatype Transition = Transition(gmttime: int, localtime: int, localtimeIdx: int)

  /** The comparator: one table, two orders. */
  datatype Comp = Comp(compareGmt: bool) {
    function Key(t: Transition): int {
      if compareGmt then t.gmttime else t.localtime
    }

    predicate Less(lhs: Transition, rhs: Transition) {
      if compareGmt then lhs.gmttime < rhs.gmttime else lhs.localtime < rhs.localtime
    }

    predicate Equal(lhs: Transition, rhs: Transition) {
      if compareGmt then lhs.gmttime == rhs.gmttime else lhs.localtime == rhs.localtime
    }
  }

  datatype Localtime = Localtime(gmtOffset: int, isDst: bool, arrbIdx: int)

  /** The value of a `TimeZone::Data`. */
  datatype Zone = Zone(transitions: seq<Transition>, localtimes: seq<Localtime>, abbreviation: seq<Byte>)

  class Data {
    var transitions: seq<Transition>
    var localtimes: seq<Localtime>
    var abbreviation: seq<Byte>

    constructor ()
      ensures Value() == Zone([], [], [])
    {
      transitions, localtimes, abbreviation := [], [], [];
    }

    function Value(): Zone
      reads this
    {
      Zone(transitions, localtimes, abbreviation)
    }
  }

  /** What the indexing in `findLocaltime` and `to_local_time` takes for granted. */
  predicate Usable(z: Zone) {
    && |z.localtimes| > 0
    && (forall i :: 0 <= i < |z.transitions| ==> 0 <= z.transitions[i].localtimeIdx < |z.localtimes|)
    && (forall i :: 0 <= i < |z.localtimes| ==> 0 <= z.localtimes[i].arrbIdx <= |z.abbreviation|)
  }

  predicate Sorted(ts: seq<Transition>, comp: Comp) {
    forall i, j :: 0 <= i < j < |ts| ==> comp.Key(ts[i]) <= comp.Key(ts[j])
  }

  predicate StrictlyIncreasing(ts: seq<Transition>, comp: Comp) {
    forall i, j :: 0 <= i < j < |ts| ==> comp.Key(ts[i]) < comp.Key(ts[j])
  }

  // ---- The linear scan that the search refines ----

  /** The last transition whose key is at most `key`, looked for from the end; -1 for none. */
  function LastAtOrBefore(ts: seq<Transition>, comp: Comp, key: int): (i: int)
    ensures -1 <= i < |ts|
    ensures i >= 0 ==> comp.Key(ts[i]) <= key
    ensures forall j :: i < j < |ts| ==> key < comp.Key(ts[j])
  {
    if ts == [] then -1
    else if comp.Key(ts[|ts| - 1]) <= key then |ts| - 1
    else LastAtOrBefore(ts[..|ts| - 1], comp, key)
  }

  /** What the search finds in a table that may repeat a key: the first transition with that
      key, or else the last one with a smaller key, or else -1. */
  function Found(ts: seq<Transition>, comp: Comp, key: int): (i: int)
    ensures -1 <= i < |ts|
  {
    var last := LastAtOrBefore(ts, comp, key);
    if last >= 0 && comp.Key(ts[last]) == key then LastAtOrBefore(ts, comp, key - 1) + 1 else last
  }

  /** In a sorted table, the transition that answers for `key`: the first that has this key, or
      the last with a smaller one where none has it. */
  predicate IsAnswer(ts: seq<Transition>, comp: Comp, key: int, i: int)
    requires 0 <= i < |ts|
  {
    if comp.Key(ts[i]) == key then i > 0 ==> comp.Key(ts[i - 1]) < key
    else comp.Key(ts[i]) < key && (i + 1 < |ts| ==> key < comp.Key(ts[i + 1]))
  }

  lemma AnswerIsFound(ts: seq<Transition>, comp: Comp, key: int, i: int)
    requires Sorted(ts, comp) && 0 <= i < |ts| && IsAnswer(ts, comp, key, i)
    ensures Found(ts, comp, key) == i
  {
    var last, below := LastAtOrBefore(ts, comp, key), LastAtOrBefore(ts, comp, key - 1);
    assert i <= last && comp.Key(ts[i]) <= comp.Key(ts[last]);
    if comp.Key(ts[i]) == key {
      assert below < i;
      assert i > 0 ==> comp.Key(ts[i - 1]) <= key - 1;
    }
  }

  lemma FoundInStrictTable(ts: seq<Transition>, comp: Comp, key: int)
    requires StrictlyIncreasing(ts, comp)
    ensures Found(ts, comp, key) == LastAtOrBefore(ts, comp, key)
  {
    var last := LastAtOrBefore(ts, comp, key);
    assert last > 0 ==> comp.Key(ts[last - 1]) < comp.Key(ts[last]);
  }

  /** In a sorted table the search is the linear scan, for every key, exactly when no two
      transitions share a key. */
  lemma FoundIsLinearScan(ts: seq<Transition>, comp: Comp)
    requires Sorted(ts, comp)
    ensures (forall key :: Found(ts, comp, key) == LastAtOrBefore(ts, comp, key))
       <==> StrictlyIncreasing(ts, comp)
  {
    if StrictlyIncreasing(ts, comp) {
      forall key ensures Found(ts, comp, key) == LastAtOrBefore(ts, comp, key) {
        FoundInStrictTable(ts, comp, key);
      }
    } else {
      var i, j :| 0 <= i < j < |ts| && !(comp.Key(ts[i]) < comp.Key(ts[j]));
      var key := comp.Key(ts[i]);
      assert Found(ts, comp, key) <= i;
      assert LastAtOrBefore(ts, comp, key) >= j;
    }
  }

  // ---- The binary search ----

  /** `std::lower_bound`: the first transition that is not less than `sentry`. */
  method LowerBound(ts: seq<Transition>, sentry: Transition, comp: Comp) returns (first: int)
    requires Sorted(ts, comp)
    ensures 0 <= first <= |ts|
    ensures forall i :: 0 <= i < first ==> comp.Less(ts[i], sentry)
    ensures forall i :: first <= i < |ts| ==> !comp.Less(ts[i], sentry)
  {
    first := 0;
    var len := |ts|;
    while len > 0
      invariant 0 <= first && 0 <= len && first + len <= |ts|
      invariant forall i :: 0 <= i < first ==> comp.Less(ts[i], sentry)
      invariant forall i :: first + len <= i < |ts| ==> !comp.Less(ts[i], sentry)
    {
      var half := len / 2;
      var middle := first + half;
      if comp.Less(ts[middle], sentry) {
        forall i | 0 <= i <= middle ensures comp.Less(ts[i], sentry) {
          assert comp.Key(ts[i]) <= comp.Key(ts[middle]);
        }
        first := middle + 1;
        len := len - half - 1;
      } else {
        forall i | middle <= i < |ts| ensures !comp.Less(ts[i], sentry) {
          assert comp.Key(ts[middle]) <= comp.Key(ts[i]);
        }
        len := half;
      }
    }
  }

  /** The local time type in force in segment `s`; segment -1 precedes every transition. */
  function TypeOf(z: Zone, s: int): Localtime
    requires Usable(z) && -1 <= s < |z.transitions|
  {
    if s < 0 then z.localtimes[0] else z.localtimes[z.transitions[s].localtimeIdx]
  }

  method FindLocaltime(data: Data, sentry: Transition, comp: Comp) returns (local: Localtime)
    requires Usable(data.Value()) && Sorted(data.transitions, comp)
    ensures local == TypeOf(data.Value(), Found(data.transitions, comp, comp.Key(sentry)))
    ensures StrictlyIncreasing(data.transitions, comp)
        ==> local == TypeOf(data.Value(), LastAtOrBefore(data.transitions, comp, comp.Key(sentry)))
    ensures (forall i :: 0 <= i < |data.transitions| ==> comp.Key(sentry) < comp.Key(data.transitions[i]))
        ==> local == data.localtimes[0]
    ensures forall i :: 0 <= i < |data.transitions| && IsAnswer(data.transitions, comp, comp.Key(sentry), i) ==>
              local == data.localtimes[data.transitions[i].localtimeIdx]
  {
    ghost var ts, key := data.transitions, comp.Key(sentry);
    forall i | 0 <= i < |ts| && IsAnswer(ts, comp, key, i) ensures Found(ts, comp, key) == i {
      AnswerIsFound(ts, comp, key, i);
    }
    if StrictlyIncreasing(ts, comp) {
      FoundInStrictTable(ts, comp, key);
    }
    if |data.transitions| == 0 || comp.Less(sentry, data.transitions[0]) {
      local := data.localtimes[0];
    } else {
      var transI := LowerBound(data.transitions, sentry, comp);
      SearchPosition(ts, comp, sentry, transI);
      if transI != |data.transitions| {
        if !comp.Equal(sentry, data.transitions[transI]) {
          assert transI != 0;
          transI := transI - 1;
        }
        local := data.localtimes[data.transitions[transI].localtimeIdx];
      } else {
        local := data.localtimes[data.transitions[|data.transitions| - 1].localtimeIdx];
      }
    }
  }

  /** Where a lower bound lies, in terms of the linear scan. */
  lemma SearchPosition(ts: seq<Transition>, comp: Comp, sentry: Transition, first: int)
    requires Sorted(ts, comp) && 0 <= first <= |ts|
    requires forall i :: 0 <= i < first ==> comp.Less(ts[i], sentry)
    requires forall i :: first <= i < |ts| ==> !comp.Less(ts[i], sentry)
    ensures Found(ts, comp, comp.Key(sentry))
         == if first < |ts| && comp.Equal(sentry, ts[first]) then first else first - 1
  {
    var key := comp.Key(sentry);
    var last := LastAtOrBefore(ts, comp, key);
    var below := LastAtOrBefore(ts, comp, key - 1);
    assert forall i :: 0 <= i < first ==> comp.Less(ts[i], sentry) && comp.Key(ts[i]) <= key - 1;
    assert forall i :: first <= i < |ts| ==> !comp.Less(ts[i], sentry) && key <= comp.Key(ts[i]);
    assert first > 0 ==> comp.Key(ts[first - 1]) <= key - 1;
    assert below == first - 1;
    if first < |ts| && comp.Equal(sentry, ts[first]) {
      assert first <= last && comp.Key(ts[first]) <= comp.Key(ts[last]);
    }
  }
}

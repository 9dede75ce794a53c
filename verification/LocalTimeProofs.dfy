/** What `to_local_time` and `from_local_time` are for, over every table whose transitions are
    further apart than its offsets differ: which instants come back, which wall clocks are shown
    again, and what the wall clocks that never occur turn into. */
module LocalTimeProofs {
  import opened CxxInt
  import opened Gregorian
  import opened Date
  import opened UtcTime
  import opened UtcTimeProofs
  import opened ZoneData
  import opened LocalTime

  // ---- Tables ----

  /** Each local key is what the wall clock shows when the transition takes effect. */
  predicate Consistent(z: Zone)
    requires Usable(z)
  {
    forall i :: 0 <= i < |z.transitions| ==>
      z.transitions[i].localtime == z.transitions[i].gmttime + TypeOf(z, i).gmtOffset
  }

  /** Consecutive transitions are further apart than any two offsets of the table. */
  predicate WellSpaced(z: Zone) {
    forall i, a, b :: 0 < i < |z.transitions| && a in z.localtimes && b in z.localtimes ==>
      z.transitions[i].gmttime - z.transitions[i - 1].gmttime > a.gmtOffset - b.gmtOffset
  }

  predicate BothOrders(z: Zone) {
    StrictlyIncreasing(z.transitions, BY_GMT) && StrictlyIncreasing(z.transitions, BY_LOCAL)
  }

  function Offset(z: Zone, s: int): int
    requires Usable(z) && -1 <= s < |z.transitions|
  {
    TypeOf(z, s).gmtOffset
  }

  lemma KeysAt(z: Zone, i: int)
    requires Usable(z) && Consistent(z) && 0 <= i < |z.transitions|
    ensures z.transitions[i].localtime == z.transitions[i].gmttime + Offset(z, i)
    ensures BY_GMT.Key(z.transitions[i]) == z.transitions[i].gmttime
    ensures BY_LOCAL.Key(z.transitions[i]) == z.transitions[i].localtime
  {
  }

  lemma TypeInTable(z: Zone, s: int)
    requires Usable(z) && -1 <= s < |z.transitions|
    ensures TypeOf(z, s) in z.localtimes
  {
  }

  lemma Spacing(z: Zone, i: int, s: int, r: int)
    requires Usable(z) && WellSpaced(z) && 0 < i < |z.transitions|
    requires -1 <= s < |z.transitions| && -1 <= r < |z.transitions|
    ensures z.transitions[i].gmttime - z.transitions[i - 1].gmttime > Offset(z, s) - Offset(z, r)
  {
    TypeInTable(z, s);
    TypeInTable(z, r);
  }

  lemma {:induction false} NeighboursToAll(ts: seq<Transition>, comp: Comp, i: int, j: int)
    requires forall k :: 0 < k < |ts| ==> comp.Key(ts[k - 1]) < comp.Key(ts[k])
    requires 0 <= i < j < |ts|
    ensures comp.Key(ts[i]) < comp.Key(ts[j])
    decreases j
  {
    if i < j - 1 {
      NeighboursToAll(ts, comp, i, j - 1);
    }
  }

  /** Spacing gives the strict order that each of the two searches needs. */
  lemma WellSpacedIsOrdered(z: Zone)
    requires Usable(z) && Consistent(z) && WellSpaced(z)
    ensures BothOrders(z)
  {
    var ts := z.transitions;
    forall k | 0 < k < |ts|
      ensures BY_GMT.Key(ts[k - 1]) < BY_GMT.Key(ts[k])
      ensures BY_LOCAL.Key(ts[k - 1]) < BY_LOCAL.Key(ts[k])
    {
      Spacing(z, k, k, k);
      Spacing(z, k, k - 1, k);
    }
    forall i, j | 0 <= i < j < |ts|
      ensures BY_GMT.Key(ts[i]) < BY_GMT.Key(ts[j]) && BY_LOCAL.Key(ts[i]) < BY_LOCAL.Key(ts[j])
    {
      NeighboursToAll(ts, BY_GMT, i, j);
      NeighboursToAll(ts, BY_LOCAL, i, j);
    }
  }

  /** In a strict table a segment is known by its two ends. */
  lemma SegmentUnique(ts: seq<Transition>, comp: Comp, key: int, s: int)
    requires StrictlyIncreasing(ts, comp) && -1 <= s < |ts|
    requires s >= 0 ==> comp.Key(ts[s]) <= key
    requires s + 1 < |ts| ==> key < comp.Key(ts[s + 1])
    ensures Found(ts, comp, key) == s
  {
    FoundInStrictTable(ts, comp, key);
  }

  lemma SegmentEnds(ts: seq<Transition>, comp: Comp, key: int)
    requires StrictlyIncreasing(ts, comp)
    ensures var s := Found(ts, comp, key);
            (s >= 0 ==> comp.Key(ts[s]) <= key) && (s + 1 < |ts| ==> key < comp.Key(ts[s + 1]))
  {
    FoundInStrictTable(ts, comp, key);
  }

  // ---- What to_local_time shows ----

  /** `name` is the C string at index `at` of the designations. */
  predicate IsDesignation(name: seq<Byte>, designations: seq<Byte>, at: int) {
    && 0 <= at && at + |name| <= |designations|
    && name == designations[at..at + |name|] && 0 !in name
    && (at + |name| == |designations| || designations[at + |name|] == 0)
  }

  /** `f` is the local form of second `t` under one local time type. */
  predicate Shows(f: Tm, t: int, local: Localtime, designations: seq<Byte>) {
    && f.gmtoff == local.gmtOffset
    && f.isdst == (if local.isDst then 1 else 0)
    && IsDesignation(f.zone, designations, local.arrbIdx)
    && (JulianDayOf(t + local.gmtOffset) >= -32044 ==>
          Normalised(DateTimeOf(f)) && FromUtcTm(f) == t + local.gmtOffset)
  }

  lemma ShowsOf(z: Zone, t: int, s: int)
    requires Usable(z) && GmtSegment(z, t) == s
    ensures Shows(ToLocal(z, t), t, TypeOf(z, s), z.abbreviation)
  {
    hide BrokenDown, FromUtcTime, Normalised, Found;
    var wall := t + TypeOf(z, s).gmtOffset;
    if JulianDayOf(wall) >= -32044 {
      UtcRoundTrip(wall, true);
    }
  }

  /** From transition `i` to the next, or for ever after the last, local time has the offset,
      flag and designation of the type that the transition names. */
  lemma TypeInForce(z: Zone, t: int, i: int)
    requires Usable(z) && StrictlyIncreasing(z.transitions, BY_GMT) && 0 <= i < |z.transitions|
    requires z.transitions[i].gmttime <= t && (i + 1 < |z.transitions| ==> t < z.transitions[i + 1].gmttime)
    ensures Shows(ToLocal(z, t), t, z.localtimes[z.transitions[i].localtimeIdx], z.abbreviation)
  {
    hide Shows, ToLocal;
    SegmentUnique(z.transitions, BY_GMT, t, i);
    ShowsOf(z, t, i);
  }

  /** Before every transition, and in a table without any, it has those of the first type. */
  lemma TypeBeforeTransitions(z: Zone, t: int)
    requires Usable(z) && forall i :: 0 <= i < |z.transitions| ==> t < z.transitions[i].gmttime
    ensures Shows(ToLocal(z, t), t, z.localtimes[0], z.abbreviation)
  {
    hide Shows, ToLocal;
    assert GmtSegment(z, t) == -1;
    ShowsOf(z, t, -1);
  }

  /** `tm_yday` and `tm_wday` of a local time are those of its own date. */
  lemma LocalDayFields(z: Zone, t: int)
    requires Usable(z)
    ensures var f, wall := ToLocal(z, t), Wall(z, t);
            && (JulianDayOf(wall) >= -32044 ==>
                  && 1 <= f.mon + 1 <= 12
                  && f.yday == DaysBeforeMonth(f.year + 1900, f.mon + 1) + f.mday - 1
                               - (if f.year + 1900 == -4800 then 1 else 0))
            && var weekday := (wall / SECONDS_PER_DAY + 4) % 7;
               f.wday == weekday - if JulianDayOf(wall) < -1 && weekday != 0 then 7 else 0
  {
    hide BrokenDown, Found, DaysBeforeMonth;
    if JulianDayOf(Wall(z, t)) >= -32044 {
      DayOfYear(Wall(z, t));
    }
    DayOfWeek(Wall(z, t), true);
  }

  /** In every table the fields name the instant: their date and time less `tm_gmtoff`. */
  lemma GmtoffRecoversInstant(z: Zone, t: int)
    requires Usable(z) && JulianDayOf(Wall(z, t)) >= -32044
    ensures var f := ToLocal(z, t);
            && Normalised(DateTimeOf(f))
            && FromUtcTm(f) - f.gmtoff == t
            && f.isdst == (if LocaltimeAt(z, t).isDst then 1 else 0)
  {
    hide BrokenDown, FromUtcTime, Normalised;
    UtcRoundTrip(Wall(z, t), true);
  }

  // ---- The wall clock with tm_isdst zero: only the order of the two keys is needed ----

  /** `wall` lies in the stretch the clock jumps over at the next transition. */
  predicate InGap(z: Zone, wall: int)
    requires Usable(z)
  {
    var s := LocalSegment(z, wall);
    s + 1 < |z.transitions| && wall >= z.transitions[s + 1].gmttime + Offset(z, s)
  }

  lemma GmtSegmentAtLeast(z: Zone, t: int, s: int)
    requires BothOrders(z) && -1 <= s < |z.transitions|
    requires s >= 0 ==> z.transitions[s].gmttime <= t
    ensures GmtSegment(z, t) >= s
  {
    FoundInStrictTable(z.transitions, BY_GMT, t);
    assert s >= 0 ==> BY_GMT.Key(z.transitions[s]) <= t;
  }

  /** In a segment past the one that holds `wall` by local key, the clock shows more. */
  lemma LaterSegmentShowsMore(z: Zone, wall: int, t: int)
    requires Usable(z) && Consistent(z) && BothOrders(z)
    requires GmtSegment(z, t) > LocalSegment(z, wall)
    ensures Wall(z, t) > wall
  {
    var s, q := LocalSegment(z, wall), GmtSegment(z, t);
    SegmentEnds(z.transitions, BY_LOCAL, wall);
    SegmentEnds(z.transitions, BY_GMT, t);
    assert s + 1 < q ==> BY_LOCAL.Key(z.transitions[s + 1]) < BY_LOCAL.Key(z.transitions[q]);
  }

  lemma GuessOutsideGap(z: Zone, wall: int)
    requires Usable(z) && Consistent(z) && BothOrders(z) && !InGap(z, wall)
    ensures GmtSegment(z, Guess(z, wall)) == LocalSegment(z, wall)
    ensures Wall(z, Guess(z, wall)) == wall
    ensures forall t :: Wall(z, t) == wall ==> t <= Guess(z, wall)
  {
    var s, u := LocalSegment(z, wall), Guess(z, wall);
    SegmentEnds(z.transitions, BY_LOCAL, wall);
    SegmentUnique(z.transitions, BY_GMT, u, s);
    forall t | Wall(z, t) == wall ensures t <= u {
      if t > u {
        GmtSegmentAtLeast(z, t, s);
        if GmtSegment(z, t) > s {
          LaterSegmentShowsMore(z, wall, t);
        }
      }
    }
  }

  /** The guess never shows an earlier wall clock; it shows this one exactly when the wall clock
      is not in the gap before the next transition; and then it is the last instant to do so. */
  lemma GuessIsLatest(z: Zone, wall: int)
    requires Usable(z) && Consistent(z) && BothOrders(z)
    ensures Wall(z, Guess(z, wall)) >= wall
    ensures Wall(z, Guess(z, wall)) == wall <==> !InGap(z, wall)
    ensures Wall(z, Guess(z, wall)) == wall ==> forall t :: Wall(z, t) == wall ==> t <= Guess(z, wall)
  {
    if InGap(z, wall) {
      GmtSegmentAtLeast(z, Guess(z, wall), LocalSegment(z, wall) + 1);
      LaterSegmentShowsMore(z, wall, Guess(z, wall));
    } else {
      GuessOutsideGap(z, wall);
    }
  }

  /** Two transitions ten seconds apart, between offsets that differ by hours. */
  const TOO_CLOSE := Zone([Transition(10000, 10000, 1), Transition(10010, 17210, 2)],
                          [Localtime(3600, false, 0), Localtime(0, false, 0), Localtime(7200, false, 0)], [])

  lemma TooCloseIsOrdered()
    ensures Usable(TOO_CLOSE) && Consistent(TOO_CLOSE) && BothOrders(TOO_CLOSE)
  {
    hide Found;
  }

  /** Order of the two keys alone does not keep the promise: here 13599 is on the clock at 9999,
      and the guess for it shows two hours more. */
  lemma OrderAloneIsNotEnough()
    ensures Usable(TOO_CLOSE) && Consistent(TOO_CLOSE) && BothOrders(TOO_CLOSE)
    ensures Wall(TOO_CLOSE, 9999) == 13599 && Wall(TOO_CLOSE, Guess(TOO_CLOSE, 13599)) == 20799
  {
    hide Found, Consistent, StrictlyIncreasing;
    TooCloseIsOrdered();
    var ts := TOO_CLOSE.transitions;
    SegmentUnique(ts, BY_GMT, 9999, -1);
    SegmentUnique(ts, BY_LOCAL, 13599, 0);
    SegmentUnique(ts, BY_GMT, 13599, 1);
  }

  // ---- Well spaced tables ----

  predicate Table(z: Zone) {
    Usable(z) && Consistent(z) && WellSpaced(z)
  }

  /** The wall clock of `t` belongs, by local key, to the segment of `t`, or to the next one when
      that one puts the clock back over it. */
  lemma LocalSegmentOfWall(z: Zone, t: int)
    requires Table(z)
    ensures var s, r := GmtSegment(z, t), LocalSegment(z, Wall(z, t));
            r == s || (r == s + 1 && Offset(z, r) < Offset(z, s))
    ensures !InGap(z, Wall(z, t))
  {
    hide WellSpaced, StrictlyIncreasing, Consistent, TypeOf, Usable, Found;
    var s, ts := GmtSegment(z, t), z.transitions;
    var wall := Wall(z, t);
    WellSpacedIsOrdered(z);
    if s >= 0 { KeysAt(z, s); }
    if s + 1 < |ts| { KeysAt(z, s + 1); }
    if s + 2 < |ts| { KeysAt(z, s + 2); }
    SegmentEnds(ts, BY_GMT, t);
    if s + 1 < |ts| && ts[s + 1].localtime <= wall {
      if s + 2 < |ts| {
        Spacing(z, s + 2, s, s + 2);
        Spacing(z, s + 2, s, s + 1);
      }
      SegmentUnique(ts, BY_LOCAL, wall, s + 1);
    } else {
      SegmentUnique(ts, BY_LOCAL, wall, s);
    }
  }

  /** A wall clock occurs exactly when `from_local_time`, told it is standard time, finds an
      instant that shows it; and that instant is the last of them. */
  lemma WallClockFound(z: Zone, localTm: Tm)
    requires Table(z) && localTm.isdst == 0
    ensures var wall, u := FromUtcTm(localTm), FromLocal(z, localTm);
            && (Wall(z, u) == wall <==> exists t :: Wall(z, t) == wall)
            && (forall t :: Wall(z, t) == wall ==> t <= u)
  {
    var wall := FromUtcTm(localTm);
    WellSpacedIsOrdered(z);
    GuessIsLatest(z, wall);
    forall t | Wall(z, t) == wall ensures !InGap(z, wall) {
      LocalSegmentOfWall(z, t);
    }
  }

  /** The caller's own hour and minute fields, as they are, agree with the clock at `wall`. */
  predicate FieldsAgree(f: Tm, wall: int) {
    f.hour == wall % SECONDS_PER_DAY / 3600 && f.min == wall % 3600 / 60
  }

  lemma ClockOf(w: int)
    ensures BrokenDown(w, true).hour == w % SECONDS_PER_DAY / 3600
    ensures BrokenDown(w, true).min == w % 3600 / 60
  {
    hide GetYearMonthDay, GetJulianDayNumber;
    HourOfDay(w);
  }

  /** Two seconds that a clock without seconds shows alike, on any two days. */
  predicate SameMinuteOfDay(v: int, w: int) {
    (v / 60 - w / 60) % 1440 == 0
  }

  lemma HourOfDay(w: int)
    ensures w % SECONDS_PER_DAY % 3600 == w % 3600
  {
    var s := w % SECONDS_PER_DAY;
    Hours(24 * (w / SECONDS_PER_DAY) + s / 3600, s % 3600);
  }

  lemma MinutesOfDays(q: int, m: int)
    requires 0 <= m < 1440
    ensures (1440 * q + m) % 1440 == m
  {
  }

  lemma MinuteOfDay(w: int)
    ensures w % SECONDS_PER_DAY / 3600 * 60 + w % 3600 / 60 == w / 60 % 1440
    ensures 0 <= w % SECONDS_PER_DAY / 3600 < 24 && 0 <= w % 3600 / 60 < 60
  {
    HourOfDay(w);
    var q, h, r := w / SECONDS_PER_DAY, w % SECONDS_PER_DAY / 3600, w % 3600;
    assert w == 60 * (1440 * q + (60 * h + r / 60)) + r % 60;
    Sixtieths(1440 * q + (60 * h + r / 60), r % 60);
    MinutesOfDays(q, 60 * h + r / 60);
  }

  lemma SameRemainder(a: int, b: int)
    ensures (a - b) % 1440 == 0 <==> a % 1440 == b % 1440
  {
    assert a - b == 1440 * (a / 1440 - b / 1440) + (a % 1440 - b % 1440);
  }

  lemma AgreeIsSameMinute(f: Tm, v: int, w: int)
    requires FieldsAgree(f, w)
    ensures FieldsAgree(f, v) <==> SameMinuteOfDay(v, w)
  {
    MinuteOfDay(v);
    MinuteOfDay(w);
    SameRemainder(v / 60, w / 60);
  }

  /** Normalised fields agree with the second they stand for; others may not. */
  lemma NormalisedFieldsAgree(f: Tm)
    requires Normalised(DateTimeOf(f))
    ensures FieldsAgree(f, FromUtcTm(f))
  {
    hide BrokenDown, FromUtcTime, Normalised;
    SecondsOfTm(f);
    NormalisedSurvives(DateTimeOf(f), true);
    ClockOf(FromUtcTm(f));
  }

  lemma HackFiresAt(z: Zone, localTm: Tm)
    requires Usable(z)
    ensures var u := Guess(z, FromUtcTm(localTm));
            HackFires(z, localTm) <==>
            localTm.isdst != 0 && !LocaltimeAt(z, u).isDst && FieldsAgree(localTm, Wall(z, u))
  {
    hide BrokenDown, FromUtcTime;
    ClockOf(Wall(z, Guess(z, FromUtcTm(localTm))));
  }

  lemma GuessInGap(z: Zone, wall: int)
    requires Table(z) && InGap(z, wall)
    ensures var i, u := LocalSegment(z, wall) + 1, Guess(z, wall);
            && z.transitions[i].gmttime + Offset(z, i - 1) <= wall < z.transitions[i].gmttime + Offset(z, i)
            && GmtSegment(z, u) == i
            && Wall(z, u) == wall + (Offset(z, i) - Offset(z, i - 1))
  {
    hide WellSpaced, StrictlyIncreasing, Consistent, TypeOf, Usable, Found;
    WellSpacedIsOrdered(z);
    var i, u := LocalSegment(z, wall) + 1, Guess(z, wall);
    SegmentEnds(z.transitions, BY_LOCAL, wall);
    KeysAt(z, i);
    if i + 1 < |z.transitions| {
      KeysAt(z, i + 1);
      Spacing(z, i + 1, i, i - 1);
    }
    SegmentUnique(z.transitions, BY_GMT, u, i);
  }

  /** A wall clock that never occurs lies in a forward gap and is moved on by exactly its size;
      and one hour back from there if the flag says daylight saving, the gap leads to standard
      time, and the caller's hour and minute agree with the clock beyond it. For normalised
      fields that means the clock shows the same hour and minute on both sides of the gap. */
  lemma SkippedWallClock(z: Zone, localTm: Tm)
    requires Table(z)
    requires forall t :: Wall(z, t) != FromUtcTm(localTm)
    ensures var wall := FromUtcTm(localTm);
            var i, u := LocalSegment(z, wall) + 1, Guess(z, wall);
            && i < |z.transitions|
            && z.transitions[i].gmttime + Offset(z, i - 1) <= wall < z.transitions[i].gmttime + Offset(z, i)
            && Wall(z, u) == wall + (Offset(z, i) - Offset(z, i - 1))
            && FromLocal(z, localTm) == u -
                 (if localTm.isdst != 0 && !TypeOf(z, i).isDst && FieldsAgree(localTm, Wall(z, u)) then 3600 else 0)
            && (Normalised(DateTimeOf(localTm)) ==>
                  (FieldsAgree(localTm, Wall(z, u)) <==> SameMinuteOfDay(Wall(z, u), wall)))
  {
    hide BrokenDown, FromUtcTime, Normalised, WellSpaced, StrictlyIncreasing, Consistent, Usable, Found;
    hide HackFires, FieldsAgree;
    var wall := FromUtcTm(localTm);
    WellSpacedIsOrdered(z);
    GuessIsLatest(z, wall);
    GuessInGap(z, wall);
    HackFiresAt(z, localTm);
    if Normalised(DateTimeOf(localTm)) {
      NormalisedFieldsAgree(localTm);
      AgreeIsSameMinute(localTm, Wall(z, Guess(z, wall)), wall);
    }
  }

  // ---- The round trip ----

  ghost predicate ShownAgain(z: Zone, t: int)
    requires Usable(z)
  {
    exists u :: u > t && Wall(z, u) == Wall(z, t)
  }

  lemma ShownAgainIsNextSegment(z: Zone, t: int)
    requires Table(z)
    ensures ShownAgain(z, t) <==> LocalSegment(z, Wall(z, t)) == GmtSegment(z, t) + 1
    ensures Wall(z, Guess(z, Wall(z, t))) == Wall(z, t)
  {
    WellSpacedIsOrdered(z);
    LocalSegmentOfWall(z, t);
    GuessIsLatest(z, Wall(z, t));
    if LocalSegment(z, Wall(z, t)) == GmtSegment(z, t) {
      assert Guess(z, Wall(z, t)) == t;
    } else {
      assert Guess(z, Wall(z, t)) > t;
    }
  }

  /** Transition `i` puts the clock back one hour, from daylight saving to standard time. */
  predicate EndsDstHour(z: Zone, i: int)
    requires Usable(z) && 0 <= i < |z.transitions|
  {
    TypeOf(z, i - 1).isDst && !TypeOf(z, i).isDst && Offset(z, i - 1) - Offset(z, i) == 3600
  }

  lemma WallOfLocalTm(z: Zone, t: int, isdst: int)
    requires Usable(z) && JulianDayOf(Wall(z, t)) >= -32044
    ensures FromUtcTm(ToLocal(z, t).(isdst := isdst)) == Wall(z, t)
  {
    hide BrokenDown, FromUtcTime;
    UtcRoundTrip(Wall(z, t), true);
  }

  /** The branch fires, for a time that `to_local_time` produced, exactly when its wall clock is
      shown again and the clock goes from daylight saving to standard time in between. */
  lemma HackFiresExactly(z: Zone, t: int)
    requires Table(z) && JulianDayOf(Wall(z, t)) >= -32044
    ensures ShownAgain(z, t) ==> GmtSegment(z, t) + 1 < |z.transitions|
    ensures HackFires(z, ToLocal(z, t)) <==>
            ShownAgain(z, t) && TypeOf(z, GmtSegment(z, t)).isDst && !TypeOf(z, GmtSegment(z, t) + 1).isDst
  {
    hide BrokenDown, FromUtcTime, ShownAgain, WellSpaced, Consistent, StrictlyIncreasing, Found, Usable;
    var tm := ToLocal(z, t);
    WallOfLocalTm(z, t, tm.isdst);
    assert tm == tm.(isdst := tm.isdst);
    ShownAgainIsNextSegment(z, t);
    LocalSegmentOfWall(z, t);
    WellSpacedIsOrdered(z);
    GuessOutsideGap(z, Wall(z, t));
  }

  /** Which instants survive local time, exactly: those whose wall clock is not shown again, and
      those in the hour that ends daylight saving. */
  lemma LocalRoundTrip(z: Zone, t: int)
    requires Table(z) && JulianDayOf(Wall(z, t)) >= -32044
    ensures ShownAgain(z, t) ==> GmtSegment(z, t) + 1 < |z.transitions|
    ensures FromLocal(z, ToLocal(z, t)) == t <==>
            (ShownAgain(z, t) ==> EndsDstHour(z, GmtSegment(z, t) + 1))
  {
    hide BrokenDown, FromUtcTime, ToLocal, HackFires, ShownAgain, WellSpaced, Consistent, Found, Usable;
    HackFiresExactly(z, t);
    var tm := ToLocal(z, t);
    WallOfLocalTm(z, t, tm.isdst);
    assert tm == tm.(isdst := tm.isdst);
    ShownAgainIsNextSegment(z, t);
    LocalSegmentOfWall(z, t);
  }

  /** The times and offsets of a version 1 block are 32-bit, so its wall clocks are dates. */
  predicate Int32Table(z: Zone) {
    && (forall tr :: tr in z.transitions ==> FitsInt(tr.gmttime))
    && (forall lt :: lt in z.localtimes ==> FitsInt(lt.gmtOffset))
  }

  lemma JustBefore(z: Zone, i: int)
    requires Table(z) && Int32Table(z) && 0 <= i < |z.transitions|
    requires Offset(z, i) < Offset(z, i - 1)
    ensures var t := z.transitions[i].gmttime - 1;
            GmtSegment(z, t) == i - 1 && ShownAgain(z, t) && JulianDayOf(Wall(z, t)) >= -32044
  {
    hide WellSpaced, StrictlyIncreasing, Consistent, Found, ShownAgain;
    var t, ts := z.transitions[i].gmttime - 1, z.transitions;
    WellSpacedIsOrdered(z);
    KeysAt(z, i);
    if i > 0 {
      Spacing(z, i, i, i);
      KeysAt(z, i - 1);
    }
    SegmentUnique(ts, BY_GMT, t, i - 1);
    LocalSegmentOfWall(z, t);
    ShownAgainIsNextSegment(z, t);
    SegmentEnds(ts, BY_LOCAL, Wall(z, t));
    assert ts[i] in ts;
    TypeInTable(z, i - 1);
    EpochDay();
  }

  /** Every instant survives local time exactly when every transition that puts the clock back
      does so by one hour from daylight saving to standard time. */
  lemma EveryInstantRoundTrips(z: Zone)
    requires Table(z) && Int32Table(z)
    ensures (forall t :: JulianDayOf(Wall(z, t)) >= -32044 ==> FromLocal(z, ToLocal(z, t)) == t)
       <==> (forall i :: 0 <= i < |z.transitions| && Offset(z, i) < Offset(z, i - 1) ==> EndsDstHour(z, i))
  {
    hide FromLocal, ToLocal, WellSpaced, Consistent, Int32Table, Found, ShownAgain, EndsDstHour, JulianDayOf, TypeOf;
    if forall i :: 0 <= i < |z.transitions| && Offset(z, i) < Offset(z, i - 1) ==> EndsDstHour(z, i) {
      forall t | JulianDayOf(Wall(z, t)) >= -32044 ensures FromLocal(z, ToLocal(z, t)) == t {
        LocalRoundTrip(z, t);
        ShownAgainIsNextSegment(z, t);
        LocalSegmentOfWall(z, t);
      }
    }
    if forall t :: JulianDayOf(Wall(z, t)) >= -32044 ==> FromLocal(z, ToLocal(z, t)) == t {
      forall i | 0 <= i < |z.transitions| && Offset(z, i) < Offset(z, i - 1) ensures EndsDstHour(z, i) {
        JustBefore(z, i);
        LocalRoundTrip(z, z.transitions[i].gmttime - 1);
      }
    }
  }

  /** An instant whose wall clock is not shown again comes back under any flag, save one: a
      standard time declared daylight saving comes back an hour early. */
  lemma FlagOnUnrepeatedTime(z: Zone, t: int, isdst: int)
    requires Table(z) && JulianDayOf(Wall(z, t)) >= -32044 && !ShownAgain(z, t)
    ensures FromLocal(z, ToLocal(z, t).(isdst := isdst))
         == if isdst != 0 && !LocaltimeAt(z, t).isDst then t - 3600 else t
  {
    hide BrokenDown, FromUtcTime, ShownAgain, WellSpaced, Consistent, Found, Usable;
    WallOfLocalTm(z, t, isdst);
    ShownAgainIsNextSegment(z, t);
    LocalSegmentOfWall(z, t);
  }

  /** Both showings of a repeated hour come back: the flag tells them apart. */
  lemma RepeatedHour(z: Zone, t: int)
    requires Table(z) && JulianDayOf(Wall(z, t)) >= -32044
    ensures ShownAgain(z, t) ==> GmtSegment(z, t) + 1 < |z.transitions|
    ensures ShownAgain(z, t) && EndsDstHour(z, GmtSegment(z, t) + 1) ==>
            && FromLocal(z, ToLocal(z, t)) == t
            && FromLocal(z, ToLocal(z, t).(isdst := 0)) == t + 3600
            && Wall(z, t + 3600) == Wall(z, t)
            && !LocaltimeAt(z, t + 3600).isDst
  {
    hide BrokenDown, FromUtcTime, ShownAgain, WellSpaced, Consistent, StrictlyIncreasing, Found, Usable;
    LocalRoundTrip(z, t);
    WallOfLocalTm(z, t, 0);
    ShownAgainIsNextSegment(z, t);
    LocalSegmentOfWall(z, t);
    WellSpacedIsOrdered(z);
    GuessOutsideGap(z, Wall(z, t));
  }

  /** What becomes of any wall clock that occurs, under any flag and however its fields are
      written: the last instant that shows it, or an hour before that if the flag says daylight
      saving, that instant is in standard time, and the caller's hour and minute agree with the
      clock. Normalised fields do; an hour or minute beyond its range never does. */
  lemma FlaggedWallClock(z: Zone, localTm: Tm, t: int)
    requires Table(z) && Wall(z, t) == FromUtcTm(localTm)
    ensures var wall := FromUtcTm(localTm);
            var u := Guess(z, wall);
            && Wall(z, u) == wall
            && (forall v :: Wall(z, v) == wall ==> v <= u)
            && FromLocal(z, localTm) == u -
                 (if localTm.isdst != 0 && !LocaltimeAt(z, u).isDst && FieldsAgree(localTm, wall) then 3600 else 0)
            && (Normalised(DateTimeOf(localTm)) ==> FieldsAgree(localTm, wall))
            && (!(0 <= localTm.hour < 24 && 0 <= localTm.min < 60) ==> FromLocal(z, localTm) == u)
  {
    hide BrokenDown, FromUtcTime, Normalised, WellSpaced, Consistent, StrictlyIncreasing, Found, Usable, HackFires;
    LocalSegmentOfWall(z, t);
    WellSpacedIsOrdered(z);
    GuessIsLatest(z, Wall(z, t));
    HackFiresAt(z, localTm);
    MinuteOfDay(Wall(z, t));
    if Normalised(DateTimeOf(localTm)) {
      NormalisedFieldsAgree(localTm);
    }
  }
}

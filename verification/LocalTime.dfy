/** The class `TimeZone` of `base/time_zone.h`: UTC to local time and back over one table. */
module LocalTime {
  import opened UtcTime
  import opened ZoneData
  import TzFile

  // ---- The conversions as functions of a table ----

  const BY_GMT := Comp(true)
  const BY_LOCAL := Comp(false)

  function GmtSegment(z: Zone, t: int): int {
    Found(z.transitions, BY_GMT, t)
  }

  function LocalSegment(z: Zone, wall: int): int {
    Found(z.transitions, BY_LOCAL, wall)
  }

  function LocaltimeAt(z: Zone, t: int): Localtime
    requires Usable(z)
  {
    TypeOf(z, GmtSegment(z, t))
  }

  /** What the wall clock shows at `t`, as the second that `gmtime_r` is given. */
  function Wall(z: Zone, t: int): int
    requires Usable(z)
  {
    t + LocaltimeAt(z, t).gmtOffset
  }

  /** The C string that starts at `&s[i]`: the bytes up to the first null, or to the end. */
  function CString(s: seq<Byte>, i: int): (r: seq<Byte>)
    requires 0 <= i <= |s|
    ensures i + |r| <= |s| && r == s[i..i + |r|] && 0 !in r
    ensures i + |r| == |s| || s[i + |r|] == 0
    decreases |s| - i
  {
    if i == |s| || s[i] == 0 then [] else [s[i]] + CString(s, i + 1)
  }

  function ToLocal(z: Zone, t: int): Tm
    requires Usable(z)
  {
    var local := LocaltimeAt(z, t);
    BrokenDown(Wall(z, t), true).(
      isdst := if local.isDst then 1 else 0,
      gmtoff := local.gmtOffset,
      zone := CString(z.abbreviation, local.arrbIdx))
  }

  /** The second whose local form the search by local key guesses first. */
  function Guess(z: Zone, wall: int): int
    requires Usable(z)
  {
    wall - TypeOf(z, LocalSegment(z, wall)).gmtOffset
  }

  /** The "HACK" branch: the field says daylight saving, the guess is standard time, and both
      show the same hour and minute. */
  predicate HackFires(z: Zone, localTm: Tm)
    requires Usable(z)
  {
    localTm.isdst != 0 &&
    var tryTm := ToLocal(z, Guess(z, FromUtcTm(localTm)));
    tryTm.isdst == 0 && tryTm.hour == localTm.hour && tryTm.min == localTm.min
  }

  function FromLocal(z: Zone, localTm: Tm): int
    requires Usable(z)
  {
    Guess(z, FromUtcTm(localTm)) - if HackFires(z, localTm) then 3600 else 0
  }

  // ---- The class ----

  class TimeZone {
    /** `m_data`; null in an invalid time zone. */
    var data: Data?

    /** `TimeZone() = default` */
    constructor Invalid()
      ensures data == null
    {
      data := null;
    }

    /** The zone of a zoneinfo file; `contents` is None when the file cannot be opened. The
        time zone is valid even then. */
    constructor FromFile(contents: TzFile.Option<seq<Byte>>)
      requires contents.Some? ==> TzFile.IndicesInRange(contents.value)
      ensures data != null && fresh(data)
      ensures data.Value() == if contents.None? then Zone([], [], []) else TzFile.Loaded(contents.value)
    {
      data := new Data();
      new;
      var ok := TzFile.ReadTimeZoneFile(contents, data);
      assert ok;  // so the data is never reset
    }

    /** A fixed time zone. */
    constructor Fixed(eastOfUtc: int, name: seq<Byte>)
      ensures data != null && fresh(data)
      ensures data.Value() == Zone([], [Localtime(eastOfUtc, false, 0)], name)
    {
      data := new Data();
      new;
      data.localtimes := data.localtimes + [Localtime(eastOfUtc, false, 0)];
      data.abbreviation := name;
    }

    method ToLocalTime(seconds: int) returns (localTime: Tm)
      requires data != null && Usable(data.Value()) && Sorted(data.transitions, BY_GMT)
      requires NoOverflow(Wall(data.Value(), seconds))
      ensures localTime == ToLocal(data.Value(), seconds)
    {
      hide BrokenDown, Found, CString;
      var sentry := Transition(seconds, 0, 0);
      var local := FindLocaltime(data, sentry, Comp(true));
      var localSeconds := seconds + local.gmtOffset;
      localTime := ToUtcTime(localSeconds, true);
      localTime := localTime.(isdst := if local.isDst then 1 else 0);
      localTime := localTime.(gmtoff := local.gmtOffset);
      localTime := localTime.(zone := CString(data.abbreviation, local.arrbIdx));
    }

    method FromLocalTime(localTm: Tm) returns (t: int)
      requires data != null && Usable(data.Value())
      requires Sorted(data.transitions, BY_GMT) && Sorted(data.transitions, BY_LOCAL)
      requires localTm.isdst != 0
           ==> NoOverflow(Wall(data.Value(), Guess(data.Value(), FromUtcTm(localTm))))
      ensures t == FromLocal(data.Value(), localTm)
    {
      hide BrokenDown, FromUtcTime, Found;
      var seconds := FromUtcTm(localTm);
      var sentry := Transition(0, seconds, 0);
      var local := FindLocaltime(data, sentry, Comp(false));
      if localTm.isdst != 0 {
        var tryTm := ToLocalTime(seconds - local.gmtOffset);
        if tryTm.isdst == 0 && tryTm.hour == localTm.hour && tryTm.min == localTm.min {
          seconds := seconds - 3600;
        }
      }
      t := seconds - local.gmtOffset;
    }
  }
}

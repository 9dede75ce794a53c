/** What the zoneinfo reader is for: it recovers a version 1 block exactly, whatever follows it;
    and cut short at any byte, it leaves a table that is whole or has no transitions. */
module TzFileProofs {
  import opened CxxInt
  import opened UtcTime
  import opened UtcTimeProofs
  import opened ZoneData
  import opened LocalTime
  import opened LocalTimeProofs
  import opened TzFile

  /** The header is recognised by its four octets, those of section 3.1 of RFC 8536. */
  lemma MagicOctets(b: seq<Byte>)
    ensures HasHeader(b) <==>
            |b| >= 44 && b[0] == 0x54 && b[1] == 0x5A && b[2] == 0x69 && b[3] == 0x66
  {
    if |b| >= 44 {
      assert b[..4] == [b[0], b[1], b[2], b[3]];
    }
  }

  // ---- Any bytes at all ----

  /** Whatever the bytes, either no transition is loaded or all of them are, with all their
      types, and each has the local key that its type gives it. */
  lemma AllTransitionsOrNone(b: seq<Byte>)
    requires IndicesInRange(b)
    ensures var z := Loaded(b);
            z.transitions == [] ||
            (&& HasHeader(b) && |z.transitions| == Int32At(b, 32) && |z.localtimes| == Int32At(b, 36)
             && forall i :: 0 <= i < |z.transitions| ==>
                  && 0 <= z.transitions[i].localtimeIdx < |z.localtimes|
                  && z.transitions[i].localtime
                     == z.transitions[i].gmttime + z.localtimes[z.transitions[i].localtimeIdx].gmtOffset)
  {
    hide Int32Of;
    if Loaded(b).transitions != [] {
      assert forall i :: 0 <= i < TimeCount(b) ==> TypeIndexAt(b, i) < TypeCount(b);
      assert TypeIndexAt(b, 0) < TypeCount(b);
    }
  }

  lemma CutInt32(b: seq<Byte>, n: nat, i: int)
    requires 0 <= i && i + 4 <= n <= |b|
    ensures Int32At(b[..n], i) == Int32At(b, i)
  {
    assert b[..n][i..i + 4] == b[i..i + 4];
  }

  lemma CutHeader(b: seq<Byte>, n: nat)
    requires n <= |b| && HasHeader(b[..n])
    ensures HasHeader(b)
    ensures TimeCount(b[..n]) == TimeCount(b) && TypeCount(b[..n]) == TypeCount(b) && CharCount(b[..n]) == CharCount(b)
  {
    hide Int32At;
    assert b[..n][..4] == b[..4];
    CutInt32(b, n, 32);
    CutInt32(b, n, 36);
    CutInt32(b, n, 40);
  }

  lemma CutIndicesInRange(b: seq<Byte>, n: nat)
    requires IndicesInRange(b) && n <= |b|
    ensures IndicesInRange(b[..n])
  {
    hide TimeCount, TypeCount, CharCount, HasHeader;
    if HasHeader(b[..n]) {
      CutHeader(b, n);
      if TimeCount(b) >= 0 && TypesAt(b) <= n && DesignationsAt(b) <= n {
        assert forall i :: 0 <= i < TimeCount(b) ==> TypeIndexAt(b[..n], i) == TypeIndexAt(b, i);
      }
    }
  }

  lemma CutLocaltimes(b: seq<Byte>, n: nat, m: nat)
    requires n <= |b| && HasHeader(b[..n]) && TimeCount(b[..n]) >= 0 && TypesAt(b[..n]) + 6 * m <= n
    ensures HasHeader(b) && TimeCount(b) >= 0 && TypesAt(b) == TypesAt(b[..n])
    ensures LocaltimesOf(b[..n], m) == LocaltimesOf(b, m)
  {
    hide TimeCount, TypeCount, CharCount, HasHeader, Int32At;
    CutHeader(b, n);
    forall i | 0 <= i < m ensures RecordAt(b[..n], TypesAt(b) + 6 * i) == RecordAt(b, TypesAt(b) + 6 * i) {
      CutInt32(b, n, TypesAt(b) + 6 * i);
    }
  }

  lemma CutTransitions(b: seq<Byte>, n: nat)
    requires IndicesInRange(b) && n <= |b| && IndicesInRange(b[..n])
    requires HasHeader(b[..n]) && TimeCount(b[..n]) >= 0 && TypesAt(b[..n]) <= n && DesignationsAt(b[..n]) <= n
    ensures HasHeader(b) && TimeCount(b) == TimeCount(b[..n])
    ensures TypesAt(b) == TypesAt(b[..n]) && DesignationsAt(b) == DesignationsAt(b[..n])
    ensures TransitionsOf(b[..n], TimeCount(b)) == TransitionsOf(b, TimeCount(b))
  {
    hide TimeCount, TypeCount, CharCount, HasHeader, Int32At;
    CutHeader(b, n);
    forall i | 0 <= i < TimeCount(b)
      ensures TransitionsOf(b[..n], TimeCount(b))[i] == TransitionsOf(b, TimeCount(b))[i]
    {
      CutInt32(b, n, HEADER_SIZE + 4 * i);
      assert TypeIndexAt(b[..n], i) == TypeIndexAt(b, i);
      CutInt32(b, n, TypesAt(b) + 6 * TypeIndexAt(b, i));
    }
  }

  /** Cutting the file at byte `n` loses only what is read after it: the transitions all stay or
      all go, the types keep a prefix, the designations stay with everything else or go. */
  lemma CutFile(b: seq<Byte>, n: nat)
    requires IndicesInRange(b) && n <= |b|
    ensures IndicesInRange(b[..n])
    ensures var z, cut := Loaded(b), Loaded(b[..n]);
            && (cut.transitions == [] || cut.transitions == z.transitions)
            && cut.localtimes <= z.localtimes
            && (cut.abbreviation == [] || cut == z)
  {
    hide TimeCount, TypeCount, CharCount, HasHeader, TypeIndexAt, TransitionsOf, LocaltimesOf;
    CutIndicesInRange(b, n);
    var c := b[..n];
    if HasHeader(c) && TimeCount(c) >= 0 && TypesAt(c) <= n {
      CutHeader(b, n);
      if DesignationsAt(c) <= n {
        CutTransitions(b, n);
        CutLocaltimes(b, n, TypeCount(b));
        var end := DesignationsAt(b) + CharCount(b);
        if end <= n {
          assert c[DesignationsAt(b)..end] == b[DesignationsAt(b)..end];
        }
      } else {
        var m := (n - TypesAt(b)) / 6;
        CutLocaltimes(b, n, m);
        LocaltimesPrefix(b, m, if DesignationsAt(b) > |b| then (|b| - TypesAt(b)) / 6 else TypeCount(b));
      }
    }
  }

  /** What a cut at byte `n` keeps, exactly: the transitions if the cut is not before the
      designations, a type for every whole record before it, the designations if it is not before
      their end. */
  lemma CutKeepsExactly(b: seq<Byte>, n: nat)
    requires IndicesInRange(b) && n <= |b| && HasHeader(b) && TimeCount(b) >= 0
    ensures IndicesInRange(b[..n])
    ensures var z, cut := Loaded(b), Loaded(b[..n]);
            && cut.transitions == (if n >= DesignationsAt(b) then z.transitions else [])
            && cut.localtimes <= z.localtimes
            && |cut.localtimes| == (if n >= DesignationsAt(b) then TypeCount(b)
                                    else if n >= TypesAt(b) then (n - TypesAt(b)) / 6
                                    else 0)
            && cut.abbreviation == (if DesignationsAt(b) <= n && DesignationsAt(b) + CharCount(b) <= n
                                    then z.abbreviation else [])
  {
    hide TimeCount, TypeCount, CharCount, TransitionsOf, LocaltimesOf, TypeIndexAt, Int32At;
    CutIndicesInRange(b, n);
    var c := b[..n];
    if n >= HEADER_SIZE {
      assert c[..4] == b[..4];
      CutHeader(b, n);
      if TypesAt(b) <= n < DesignationsAt(b) {
        CutLocaltimes(b, n, (n - TypesAt(b)) / 6);
        LocaltimesPrefix(b, (n - TypesAt(b)) / 6,
                         if DesignationsAt(b) > |b| then (|b| - TypesAt(b)) / 6 else TypeCount(b));
      } else if n >= DesignationsAt(b) {
        CutTransitions(b, n);
        CutLocaltimes(b, n, TypeCount(b));
        var end := DesignationsAt(b) + CharCount(b);
        LocaltimesPrefix(b, TypeCount(b), TypeCount(b));
        assert end <= n ==> c[DesignationsAt(b)..end] == b[DesignationsAt(b)..end];
      }
    }
  }

  lemma LocaltimesPrefix(b: seq<Byte>, m: nat, n: nat)
    requires HasHeader(b) && TimeCount(b) >= 0 && m <= n && TypesAt(b) + 6 * n <= |b|
    ensures LocaltimesOf(b, m) <= LocaltimesOf(b, n)
    ensures |LocaltimesOf(b, m)| == m && |LocaltimesOf(b, n)| == n
  {
    hide HasHeader, Int32At;
  }

  /** The table has a type to fall back on exactly when the header is good and the first type
      record is there; the time zone counts as valid in any case. */
  lemma HasTypeExactly(b: seq<Byte>)
    requires IndicesInRange(b)
    ensures Loaded(b).localtimes != [] <==>
            && HasHeader(b) && Int32At(b, 32) >= 0 && Int32At(b, 36) > 0
            && 44 + 5 * Int32At(b, 32) + 6 <= |b|
  {
    hide Int32Of;
  }

  // ---- Writing a block: sections 3.1 and 3.2 of RFC 8536 ----

  /** A version 1 header and data block. `flags` are the daylight-saving octets, of which any but
      0 says yes; `rest` is the leap-second and indicator data and any later block. */
  datatype Block = Block(version: Byte, reserved: seq<Byte>, isutcnt: int, isstdcnt: int, leapcnt: int,
                         times: seq<int>, indices: seq<Byte>, types: seq<Localtime>, flags: seq<Byte>,
                         designations: seq<Byte>, rest: seq<Byte>)

  predicate WellFormed(k: Block) {
    && |k.reserved| == 15
    && FitsInt(k.isutcnt) && FitsInt(k.isstdcnt) && FitsInt(k.leapcnt)
    && |k.times| <= INT_MAX && |k.types| <= INT_MAX && |k.designations| <= INT_MAX
    && |k.indices| == |k.times|
    && (forall i :: 0 <= i < |k.times| ==> FitsInt(k.times[i]) && k.indices[i] < |k.types|)
    && |k.flags| == |k.types|
    && (forall i :: 0 <= i < |k.types| ==>
          && FitsInt(k.types[i].gmtOffset) && 0 <= k.types[i].arrbIdx < 256
          && (k.types[i].isDst <==> k.flags[i] != 0))
  }

  /** Big-endian two's complement. */
  function BigEndian(x: int): (b: seq<Byte>)
    ensures |b| == 4
  {
    var u := x % 0x1_0000_0000;
    [u / 0x100_0000, u / 0x1_0000 % 0x100, u / 0x100 % 0x100, u % 0x100]
  }

  function TypeRecord(lt: Localtime, flag: Byte): (b: seq<Byte>)
    requires 0 <= lt.arrbIdx < 256
    ensures |b| == 6
  {
    BigEndian(lt.gmtOffset) + [flag, lt.arrbIdx]
  }

  function TimesBytes(times: seq<int>): (b: seq<Byte>)
    ensures |b| == 4 * |times|
  {
    if times == [] then [] else TimesBytes(times[..|times| - 1]) + BigEndian(times[|times| - 1])
  }

  function TypesBytes(types: seq<Localtime>, flags: seq<Byte>): (b: seq<Byte>)
    requires |flags| == |types| && forall i :: 0 <= i < |types| ==> 0 <= types[i].arrbIdx < 256
    ensures |b| == 6 * |types|
  {
    if types == [] then []
    else
      var n := |types| - 1;
      TypesBytes(types[..n], flags[..n]) + TypeRecord(types[n], flags[n])
  }

  function Header(k: Block): (b: seq<Byte>)
    requires WellFormed(k)
    ensures |b| == HEADER_SIZE
  {
    [0x54, 0x5A, 0x69, 0x66] + [k.version] + k.reserved
    + BigEndian(k.isutcnt) + BigEndian(k.isstdcnt) + BigEndian(k.leapcnt)
    + BigEndian(|k.times|) + BigEndian(|k.types|) + BigEndian(|k.designations|)
  }

  function Serialise(k: Block): seq<Byte>
    requires WellFormed(k)
  {
    Header(k) + TimesBytes(k.times) + k.indices + TypesBytes(k.types, k.flags) + k.designations + k.rest
  }

  /** The table that a block describes. */
  function ZoneOf(k: Block): Zone
    requires WellFormed(k)
  {
    Zone(seq(|k.times|, i requires 0 <= i < |k.times| =>
           Transition(k.times[i], k.times[i] + k.types[k.indices[i]].gmtOffset, k.indices[i])),
         k.types, k.designations)
  }

  // ---- Reading it back ----

  lemma BytesOf(u: int)
    requires 0 <= u < 0x1_0000_0000
    ensures 0 <= u / 0x100_0000 < 0x100
    ensures 0x100_0000 * (u / 0x100_0000) + 0x1_0000 * (u / 0x1_0000 % 0x100)
          + 0x100 * (u / 0x100 % 0x100) + u % 0x100 == u
  {
    assert u / 0x1_0000 == 0x100 * (u / 0x100_0000) + u / 0x1_0000 % 0x100;
    assert u / 0x100 == 0x100 * (u / 0x1_0000) + u / 0x100 % 0x100;
  }

  lemma Int32OfBigEndian(x: int)
    requires FitsInt(x)
    ensures Int32Of(BigEndian(x)) == x
  {
    var u := x % 0x1_0000_0000;
    assert u == if x >= 0 then x else x + 0x1_0000_0000;
    BytesOf(u);
  }

  lemma {:induction false} TimesBytesAt(times: seq<int>, i: int)
    requires 0 <= i < |times|
    ensures TimesBytes(times)[4 * i..4 * i + 4] == BigEndian(times[i])
  {
    hide BigEndian;
    if i < |times| - 1 {
      TimesBytesAt(times[..|times| - 1], i);
    }
  }

  lemma SliceOfFirst<T>(s: seq<T>, t: seq<T>, i: nat, j: nat)
    requires i <= j <= |s|
    ensures (s + t)[i..j] == s[i..j]
  {
  }

  lemma {:induction false} TypesBytesAt(types: seq<Localtime>, flags: seq<Byte>, i: nat)
    requires |flags| == |types| && forall k :: 0 <= k < |types| ==> 0 <= types[k].arrbIdx < 256
    requires i < |types|
    ensures TypesBytes(types, flags)[6 * i..6 * i + 6] == TypeRecord(types[i], flags[i])
  {
    hide TypeRecord;
    var n := |types| - 1;
    if i < n {
      TypesBytesAt(types[..n], flags[..n], i);
      SliceOfFirst(TypesBytes(types[..n], flags[..n]), TypeRecord(types[n], flags[n]), 6 * i, 6 * i + 6);
    }
  }

  /** Where each part of a serialised block lies. */
  lemma Parts(k: Block)
    requires WellFormed(k)
    ensures var b, n, m := Serialise(k), |k.times|, |k.types|;
            && |b| >= HEADER_SIZE + 5 * n + 6 * m + |k.designations|
            && b[..HEADER_SIZE] == Header(k)
            && b[HEADER_SIZE..HEADER_SIZE + 4 * n] == TimesBytes(k.times)
            && b[HEADER_SIZE + 4 * n..HEADER_SIZE + 5 * n] == k.indices
            && b[HEADER_SIZE + 5 * n..HEADER_SIZE + 5 * n + 6 * m] == TypesBytes(k.types, k.flags)
            && b[HEADER_SIZE + 5 * n + 6 * m..HEADER_SIZE + 5 * n + 6 * m + |k.designations|] == k.designations
  {
    hide Header, TimesBytes, TypesBytes;
  }

  lemma HeaderParts(k: Block)
    requires WellFormed(k)
    ensures var h := Header(k);
            && h[..4] == MAGIC
            && h[32..36] == BigEndian(|k.times|)
            && h[36..40] == BigEndian(|k.types|)
            && h[40..44] == BigEndian(|k.designations|)
  {
    hide BigEndian;
  }

  lemma CountsOf(k: Block)
    requires WellFormed(k)
    ensures var b := Serialise(k);
            && HasHeader(b) && TimeCount(b) == |k.times| && TypeCount(b) == |k.types|
            && CharCount(b) == |k.designations|
  {
    hide BigEndian, Int32Of, Header, Serialise;
    var b := Serialise(k);
    Parts(k);
    HeaderParts(k);
    assert b[..4] == b[..HEADER_SIZE][..4];
    assert b[32..36] == b[..HEADER_SIZE][32..36];
    assert b[36..40] == b[..HEADER_SIZE][36..40];
    assert b[40..44] == b[..HEADER_SIZE][40..44];
    Int32OfBigEndian(|k.times|);
    Int32OfBigEndian(|k.types|);
    Int32OfBigEndian(|k.designations|);
  }

  lemma SliceOfSlice<T>(s: seq<T>, lo: nat, hi: nat, i: nat, j: nat)
    requires lo <= hi <= |s| && i <= j <= hi - lo
    ensures s[lo..hi][i..j] == s[lo + i..lo + j]
  {
    forall n | 0 <= n < j - i ensures s[lo..hi][i..j][n] == s[lo + i..lo + j][n] {
      assert s[lo..hi][i..j][n] == s[lo..hi][i + n] == s[lo + i + n];
    }
  }

  lemma TimeAt(k: Block, i: nat)
    requires WellFormed(k) && i < |k.times|
    ensures |Serialise(k)| >= HEADER_SIZE + 5 * |k.times|
    ensures Int32At(Serialise(k), HEADER_SIZE + 4 * i) == k.times[i]
    ensures Serialise(k)[HEADER_SIZE + 4 * |k.times| + i] == k.indices[i]
  {
    hide BigEndian, Int32Of, Header, Serialise, TimesBytes, TypesBytes;
    var b, n := Serialise(k), |k.times|;
    Parts(k);
    TimesBytesAt(k.times, i);
    SliceOfSlice(b, HEADER_SIZE, HEADER_SIZE + 4 * n, 4 * i, 4 * i + 4);
    assert b[HEADER_SIZE + 4 * n..HEADER_SIZE + 5 * n][i] == b[HEADER_SIZE + 4 * n + i];
    Int32OfBigEndian(k.times[i]);
  }

  lemma RecordOf(r: seq<Byte>, lt: Localtime, flag: Byte)
    requires FitsInt(lt.gmtOffset) && 0 <= lt.arrbIdx < 256 && (lt.isDst <==> flag != 0) && r == TypeRecord(lt, flag)
    ensures RecordAt(r, 0) == lt
  {
    hide BigEndian, Int32Of;
    assert r[0..4] == BigEndian(lt.gmtOffset);
    Int32OfBigEndian(lt.gmtOffset);
  }

  lemma RecordSlice(b: seq<Byte>, i: nat)
    requires i + 6 <= |b|
    ensures RecordAt(b, i) == RecordAt(b[i..i + 6], 0)
  {
    assert b[i..i + 6][0..4] == b[i..i + 4];
  }

  lemma TypeAt(k: Block, i: nat)
    requires WellFormed(k) && i < |k.types|
    ensures |Serialise(k)| >= HEADER_SIZE + 5 * |k.times| + 6 * |k.types|
    ensures RecordAt(Serialise(k), HEADER_SIZE + 5 * |k.times| + 6 * i) == k.types[i]
  {
    hide BigEndian, Int32Of, Header, Serialise, TimesBytes, TypesBytes, TypeRecord, RecordAt;
    var b, at, m := Serialise(k), HEADER_SIZE + 5 * |k.times|, |k.types|;
    Parts(k);
    TypesBytesAt(k.types, k.flags, i);
    SliceOfSlice(b, at, at + 6 * m, 6 * i, 6 * i + 6);
    RecordSlice(b, at + 6 * i);
    RecordOf(b[at + 6 * i..at + 6 * i + 6], k.types[i], k.flags[i]);
  }

  /** Reading what was written gives back the block's times, type indices, offsets, flags and
      designations, and nothing of what follows them. */
  lemma TzifRoundTrip(k: Block)
    requires WellFormed(k)
    ensures IndicesInRange(Serialise(k)) && Complete(Serialise(k))
    ensures Loaded(Serialise(k)) == ZoneOf(k)
  {
    hide BigEndian, Int32Of, Int32At, Header, Serialise, TimesBytes, TypesBytes, TypeRecord, RecordAt;
    hide HasHeader, TimeCount, TypeCount, CharCount;
    var b, n, m := Serialise(k), |k.times|, |k.types|;
    CountsOf(k);
    Parts(k);
    forall i | 0 <= i < n
      ensures Int32At(b, HEADER_SIZE + 4 * i) == k.times[i] && TypeIndexAt(b, i) == k.indices[i]
    {
      TimeAt(k, i);
    }
    forall i | 0 <= i < m ensures RecordAt(b, TypesAt(b) + 6 * i) == k.types[i] {
      TypeAt(k, i);
    }
    assert TransitionsOf(b, n) == ZoneOf(k).transitions;
    assert LocaltimesOf(b, m) == k.types;
  }

  // ---- From the file to the clock ----

  /** Times further apart than the offsets differ, as a block states them. */
  predicate WellSpacedBlock(k: Block) {
    forall i, a, b :: 0 < i < |k.times| && a in k.types && b in k.types ==>
      k.times[i] - k.times[i - 1] > a.gmtOffset - b.gmtOffset
  }

  /** Reading such a block establishes both orders that the two searches need, and every
      promise made for a table. */
  lemma ReadingGivesTable(k: Block)
    requires WellFormed(k) && WellSpacedBlock(k) && k.types != []
    requires forall i :: 0 <= i < |k.types| ==> k.types[i].arrbIdx <= |k.designations|
    ensures IndicesInRange(Serialise(k))
    ensures var z := Loaded(Serialise(k)); Table(z) && Int32Table(z) && BothOrders(z)
  {
    hide Serialise, Loaded;
    TzifRoundTrip(k);
    ZoneIsTable(k);
    WellSpacedIsOrdered(ZoneOf(k));
  }

  lemma ZoneIsTable(k: Block)
    requires WellFormed(k) && WellSpacedBlock(k) && k.types != []
    requires forall i :: 0 <= i < |k.types| ==> k.types[i].arrbIdx <= |k.designations|
    ensures Table(ZoneOf(k)) && Int32Table(ZoneOf(k))
  {
    var z := ZoneOf(k);
    assert Usable(z);
    forall i, a, b | 0 < i < |z.transitions| && a in z.localtimes && b in z.localtimes
      ensures z.transitions[i].gmttime - z.transitions[i - 1].gmttime > a.gmtOffset - b.gmtOffset
    {
      assert k.times[i] - k.times[i - 1] > a.gmtOffset - b.gmtOffset;
    }
  }

  lemma TimesAscend(k: Block)
    requires WellFormed(k) && WellSpacedBlock(k) && k.types != []
    requires forall i :: 0 <= i < |k.types| ==> k.types[i].arrbIdx <= |k.designations|
    ensures forall i, j :: 0 <= i < j < |k.times| ==> k.times[i] < k.times[j]
  {
    hide WellSpacedBlock;
    var z := ZoneOf(k);
    ZoneIsTable(k);
    WellSpacedIsOrdered(z);
    forall i, j | 0 <= i < j < |k.times| ensures k.times[i] < k.times[j] {
      assert BY_GMT.Key(z.transitions[i]) < BY_GMT.Key(z.transitions[j]);
    }
  }

  function TypeFrom(k: Block, i: int): Localtime
    requires WellFormed(k) && k.types != [] && -1 <= i < |k.times|
  {
    if i < 0 then k.types[0] else k.types[k.indices[i]]
  }

  /** Every transition that puts the clock back does so by an hour, out of daylight saving. */
  predicate DropsEndDst(k: Block)
    requires WellFormed(k) && k.types != []
  {
    forall i :: 0 <= i < |k.times| && TypeFrom(k, i).gmtOffset < TypeFrom(k, i - 1).gmtOffset ==>
      && TypeFrom(k, i - 1).isDst && !TypeFrom(k, i).isDst
      && TypeFrom(k, i - 1).gmtOffset - TypeFrom(k, i).gmtOffset == 3600
  }

  /** `f` is the local form of `t` under the type that the block puts in force at `t`. */
  predicate ShownByBlock(k: Block, f: Tm, t: int)
    requires WellFormed(k) && k.types != []
  {
    && ((forall i :: 0 <= i < |k.times| ==> t < k.times[i]) ==> Shows(f, t, k.types[0], k.designations))
    && (forall i :: 0 <= i < |k.times| && k.times[i] <= t && (i + 1 < |k.times| ==> t < k.times[i + 1]) ==>
          Shows(f, t, k.types[k.indices[i]], k.designations))
  }

  /** End to end: a time zone read from a file shows, at every instant, the offset, flag and
      designation that the block names for it: those of the type of the last transition not after
      the instant, and those of the first type before them all. Times need only ascend. */
  lemma FileShowsType(k: Block, t: int)
    requires WellFormed(k) && k.types != []
    requires forall i :: 0 <= i < |k.types| ==> k.types[i].arrbIdx <= |k.designations|
    requires forall i, j :: 0 <= i < j < |k.times| ==> k.times[i] < k.times[j]
    ensures IndicesInRange(Serialise(k)) && Usable(Loaded(Serialise(k)))
    ensures ShownByBlock(k, ToLocal(Loaded(Serialise(k)), t), t)
  {
    hide Serialise, Loaded, Shows, ToLocal, Found;
    TzifRoundTrip(k);
    var z := ZoneOf(k);
    assert Usable(z) && StrictlyIncreasing(z.transitions, BY_GMT);
    if forall i :: 0 <= i < |k.times| ==> t < k.times[i] {
      TypeBeforeTransitions(z, t);
    }
    forall i | 0 <= i < |k.times| && k.times[i] <= t && (i + 1 < |k.times| ==> t < k.times[i + 1])
      ensures Shows(ToLocal(z, t), t, k.types[k.indices[i]], k.designations)
    {
      TypeInForce(z, t, i);
    }
  }

  lemma DropsInZone(k: Block)
    requires WellFormed(k) && k.types != [] && DropsEndDst(k) && Usable(ZoneOf(k))
    ensures var z := ZoneOf(k);
            forall i :: 0 <= i < |z.transitions| && Offset(z, i) < Offset(z, i - 1) ==> EndsDstHour(z, i)
  {
    var z := ZoneOf(k);
    forall i | 0 <= i < |z.transitions| && Offset(z, i) < Offset(z, i - 1) ensures EndsDstHour(z, i) {
      assert TypeOf(z, i) == TypeFrom(k, i) && TypeOf(z, i - 1) == TypeFrom(k, i - 1);
    }
  }

  /** End to end: a time zone read from a file whose every backward step ends daylight saving by
      an hour shows every instant as the block has it, and takes it to local time and back
      unchanged. */
  lemma FileRoundTrip(k: Block, t: int)
    requires WellFormed(k) && WellSpacedBlock(k) && k.types != []
    requires forall i :: 0 <= i < |k.types| ==> k.types[i].arrbIdx <= |k.designations|
    requires DropsEndDst(k)
    ensures IndicesInRange(Serialise(k))
    ensures var z := Loaded(Serialise(k));
            && Usable(z) && ShownByBlock(k, ToLocal(z, t), t)
            && (JulianDayOf(Wall(z, t)) >= -32044 ==> FromLocal(z, ToLocal(z, t)) == t)
  {
    hide Serialise, Loaded, Wall, FromLocal, ToLocal, JulianDayOf, ShownByBlock, ZoneOf, DropsEndDst, EndsDstHour;
    hide WellSpacedBlock, IndicesInRange;
    TimesAscend(k);
    FileShowsType(k, t);
    TzifRoundTrip(k);
    ZoneIsTable(k);
    DropsInZone(k);
    EveryInstantRoundTrips(ZoneOf(k));
  }
}

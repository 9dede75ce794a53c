/** Reading a zoneinfo file: `File` and `readTimeZoneFile` of `base/time_zone.cpp`. */
module TzFile {
  import opened UtcTime
  import opened ZoneData

  /** The outcome of a read: a `logic_error` carries its message. */
  datatype Result<+T> = Ok(value: T) | LogicError(what: string) {
    predicate IsFailure() {
      LogicError?
    }

    function PropagateFailure<U>(): Result<U>
      requires LogicError?
    {
      LogicError(what)
    }

    function Extract(): T
      requires Ok?
    {
      value
    }
  }

  /** `be32toh` and the conversion to `int32_t`: big-endian two's complement. */
  function Int32Of(b: seq<Byte>): int
    requires |b| == 4
  {
    var b0: int, b1: int, b2: int, b3: int := b[0], b[1], b[2], b[3];
    var x := 0x100_0000 * b0 + 0x1_0000 * b1 + 0x100 * b2 + b3;
    if x < 0x8000_0000 then x else x - 0x1_0000_0000
  }

  /** An open file: its bytes and the read position. */
  class File {
    const bytes: seq<Byte>
    var pos: nat

    constructor (bytes: seq<Byte>)
      ensures this.bytes == bytes && pos == 0
    {
      this.bytes := bytes;
      pos := 0;
    }

    predicate Valid()
      reads this
    {
      pos <= |bytes|
    }

    /** `fread` of `n` bytes; a short read leaves the position at the end of the file. */
    method ReadBytes(n: nat) returns (r: Result<seq<Byte>>)
      requires Valid()
      modifies this`pos
      ensures Valid()
      ensures old(pos) + n <= |bytes| ==>
              r == Ok(bytes[old(pos)..old(pos) + n]) && pos == old(pos) + n
      ensures old(pos) + n > |bytes| ==> r.LogicError?
    {
      if |bytes| - pos < n {
        pos := |bytes|;
        return LogicError("no enough data");
      }
      r := Ok(bytes[pos..pos + n]);
      pos := pos + n;
    }

    method ReadInt32() returns (r: Result<int>)
      requires Valid()
      modifies this`pos
      ensures Valid()
      ensures old(pos) + 4 <= |bytes| ==>
              r == Ok(Int32Of(bytes[old(pos)..old(pos) + 4])) && pos == old(pos) + 4
      ensures old(pos) + 4 > |bytes| ==> r.LogicError?
    {
      var x :- ReadBytes(4);
      r := Ok(Int32Of(x));
    }

    method ReadUInt8() returns (r: Result<Byte>)
      requires Valid()
      modifies this`pos
      ensures Valid()
      ensures old(pos) + 1 <= |bytes| ==> r == Ok(bytes[old(pos)]) && pos == old(pos) + 1
      ensures old(pos) + 1 > |bytes| ==> r.LogicError?
    {
      var x :- ReadBytes(1);
      r := Ok(x[0]);
    }
  }

  // ---- The layout, by position ----

  /** "TZif" */
  const MAGIC: seq<Byte> := [84, 90, 105, 102]
  const HEADER_SIZE := 44

  function Int32At(b: seq<Byte>, i: int): int
    requires 0 <= i && i + 4 <= |b|
  {
    Int32Of(b[i..i + 4])
  }

  predicate HasHeader(b: seq<Byte>) {
    |b| >= HEADER_SIZE && b[..4] == MAGIC
  }

  function TimeCount(b: seq<Byte>): int requires HasHeader(b) { Int32At(b, 32) }
  function CharCount(b: seq<Byte>): int requires HasHeader(b) { Int32At(b, 40) }

  /** A negative count runs the loop over the local time types no times. */
  function TypeCount(b: seq<Byte>): nat
    requires HasHeader(b)
  {
    if Int32At(b, 36) < 0 then 0 else Int32At(b, 36)
  }

  /** Where the local time type records start. */
  function TypesAt(b: seq<Byte>): int
    requires HasHeader(b)
  {
    HEADER_SIZE + 5 * TimeCount(b)
  }

  function DesignationsAt(b: seq<Byte>): int
    requires HasHeader(b)
  {
    TypesAt(b) + 6 * TypeCount(b)
  }

  function RecordAt(b: seq<Byte>, i: int): Localtime
    requires 0 <= i && i + 6 <= |b|
  {
    Localtime(Int32At(b, i), b[i + 4] != 0, b[i + 5])
  }

  /** The first `n` local time type records. */
  function LocaltimesOf(b: seq<Byte>, n: nat): seq<Localtime>
    requires HasHeader(b) && TimeCount(b) >= 0 && TypesAt(b) + 6 * n <= |b|
  {
    seq(n, i requires 0 <= i < n => RecordAt(b, TypesAt(b) + 6 * i))
  }

  function TypeIndexAt(b: seq<Byte>, i: int): Byte
    requires HasHeader(b) && 0 <= i < TimeCount(b) && TypesAt(b) <= |b|
  {
    b[HEADER_SIZE + 4 * TimeCount(b) + i]
  }

  /** The type indices that the reader follows without looking are in range, and the number of
      designation characters, when it gets so far, is not negative. */
  predicate IndicesInRange(b: seq<Byte>) {
    HasHeader(b) && TimeCount(b) >= 0 && TypesAt(b) <= |b| && DesignationsAt(b) <= |b| ==>
      && CharCount(b) >= 0
      && forall i :: 0 <= i < TimeCount(b) ==> TypeIndexAt(b, i) < TypeCount(b)
  }

  function TransitionsOf(b: seq<Byte>, n: nat): seq<Transition>
    requires HasHeader(b) && n <= TimeCount(b) && TypesAt(b) <= |b| && DesignationsAt(b) <= |b|
    requires IndicesInRange(b)
  {
    seq(n, i requires 0 <= i < n =>
      var time, index := Int32At(b, HEADER_SIZE + 4 * i), TypeIndexAt(b, i);
      Transition(time, time + RecordAt(b, TypesAt(b) + 6 * index).gmtOffset, index))
  }

  /** What the reader leaves in a fresh `Data`, by position and for any bytes at all. */
  function Loaded(b: seq<Byte>): Zone
    requires IndicesInRange(b)
  {
    if !HasHeader(b) || TimeCount(b) < 0 || TypesAt(b) > |b| then Zone([], [], [])
    else if DesignationsAt(b) > |b| then Zone([], LocaltimesOf(b, (|b| - TypesAt(b)) / 6), [])
    else
      var end := DesignationsAt(b) + CharCount(b);
      Zone(TransitionsOf(b, TimeCount(b)),
           LocaltimesOf(b, TypeCount(b)),
           if end <= |b| then b[DesignationsAt(b)..end] else [])
  }

  /** The bytes hold every field that the reader asks for. */
  predicate Complete(b: seq<Byte>)
    requires IndicesInRange(b)
  {
    && HasHeader(b) && TimeCount(b) >= 0 && TypesAt(b) <= |b| && DesignationsAt(b) <= |b|
    && DesignationsAt(b) + CharCount(b) <= |b|
  }

  // ---- The reader ----

  datatype Counts = Counts(timecnt: int, typecnt: int, charcnt: int)

  method ReadHeader(f: File) returns (r: Result<Counts>)
    requires f.pos == 0
    modifies f`pos
    ensures f.Valid()
    ensures r.Ok? <==> HasHeader(f.bytes)
    ensures r.Ok? ==>
      && f.pos == HEADER_SIZE
      && r.value == Counts(Int32At(f.bytes, 32), Int32At(f.bytes, 36), Int32At(f.bytes, 40))
  {
    hide Int32Of;
    var head :- f.ReadBytes(4);
    if head != MAGIC {
      return LogicError("bad head");
    }
    var version :- f.ReadBytes(1);
    var reserved :- f.ReadBytes(15);
    var isgmtcnt :- f.ReadInt32();
    var isstdcnt :- f.ReadInt32();
    var leapcnt :- f.ReadInt32();
    var timecnt :- f.ReadInt32();
    var typecnt :- f.ReadInt32();
    var charcnt :- f.ReadInt32();
    r := Ok(Counts(timecnt, typecnt, charcnt));
  }

  method ReadTimes(f: File, n: nat) returns (r: Result<seq<int>>)
    requires f.Valid()
    modifies f`pos
    ensures f.Valid()
    ensures r.Ok? <==> old(f.pos) + 4 * n <= |f.bytes|
    ensures r.Ok? ==>
      && f.pos == old(f.pos) + 4 * n
      && |r.value| == n
      && forall k :: 0 <= k < n ==> r.value[k] == Int32At(f.bytes, old(f.pos) + 4 * k)
  {
    hide Int32Of;
    var trans: seq<int> := [];
    for i := 0 to n
      invariant f.pos == old(f.pos) + 4 * i <= |f.bytes|
      invariant |trans| == i
      invariant forall k :: 0 <= k < i ==> trans[k] == Int32At(f.bytes, old(f.pos) + 4 * k)
    {
      var time :- f.ReadInt32();
      trans := trans + [time];
    }
    r := Ok(trans);
  }

  method ReadIndices(f: File, n: nat) returns (r: Result<seq<Byte>>)
    requires f.Valid()
    modifies f`pos
    ensures f.Valid()
    ensures r.Ok? <==> old(f.pos) + n <= |f.bytes|
    ensures r.Ok? ==> f.pos == old(f.pos) + n && r.value == f.bytes[old(f.pos)..old(f.pos) + n]
  {
    var localtimes: seq<Byte> := [];
    for i := 0 to n
      invariant f.pos == old(f.pos) + i <= |f.bytes|
      invariant localtimes == f.bytes[old(f.pos)..old(f.pos) + i]
    {
      var local :- f.ReadUInt8();
      localtimes := localtimes + [local];
    }
    r := Ok(localtimes);
  }

  /** Each record read is pushed at once, so a short file leaves the records before the cut. */
  method ReadLocaltimes(f: File, n: nat, data: Data) returns (r: Result<()>)
    requires HasHeader(f.bytes) && TimeCount(f.bytes) >= 0
    requires f.Valid() && f.pos == TypesAt(f.bytes) && data.Value() == Zone([], [], [])
    modifies f`pos, data`localtimes
    ensures f.Valid()
    ensures r.Ok? <==> TypesAt(f.bytes) + 6 * n <= |f.bytes|
    ensures r.Ok? ==> f.pos == TypesAt(f.bytes) + 6 * n
    ensures data.Value() == Zone([], LocaltimesOf(f.bytes, if r.Ok? then n else (|f.bytes| - TypesAt(f.bytes)) / 6), [])
  {
    hide Int32Of;
    ghost var b := f.bytes;
    for i := 0 to n
      invariant f.pos == TypesAt(b) + 6 * i <= |b|
      invariant data.Value() == Zone([], LocaltimesOf(b, i), [])
    {
      var gmtoff :- f.ReadInt32();
      var isdst :- f.ReadUInt8();
      var abbrind :- f.ReadUInt8();
      data.localtimes := data.localtimes + [Localtime(gmtoff, isdst != 0, abbrind)];
    }
    r := Ok(());
  }

  method AddTransitions(ghost b: seq<Byte>, trans: seq<int>, localtimes: seq<Byte>, data: Data)
    requires HasHeader(b) && TimeCount(b) >= 0 && TypesAt(b) <= |b| && DesignationsAt(b) <= |b| && IndicesInRange(b)
    requires |trans| == |localtimes| == TimeCount(b)
    requires forall k :: 0 <= k < |trans| ==> trans[k] == Int32At(b, HEADER_SIZE + 4 * k)
    requires forall k :: 0 <= k < |trans| ==> localtimes[k] == TypeIndexAt(b, k)
    requires data.Value() == Zone([], LocaltimesOf(b, TypeCount(b)), [])
    modifies data`transitions
    ensures data.Value() == Zone(TransitionsOf(b, TimeCount(b)), LocaltimesOf(b, TypeCount(b)), [])
  {
    hide Int32Of, Int32At, HasHeader;
    for i := 0 to |trans|
      invariant data.Value() == Zone(TransitionsOf(b, i), LocaltimesOf(b, TypeCount(b)), [])
    {
      var localIdx := localtimes[i];
      var localtime := trans[i] + data.localtimes[localIdx].gmtOffset;
      data.transitions := data.transitions + [Transition(trans[i], localtime, localIdx)];
    }
  }

  /** The body of the `try` block, reading in order and filling `data` as it goes. */
  method ReadBlock(f: File, data: Data) returns (r: Result<()>)
    requires f.pos == 0 && data.Value() == Zone([], [], [])
    requires IndicesInRange(f.bytes)
    modifies f`pos, data
    ensures data.Value() == Loaded(f.bytes)
    ensures r.Ok? <==> Complete(f.bytes)
  {
    hide Int32Of, Int32At;
    ghost var b := f.bytes;
    var counts :- ReadHeader(f);
    var timecnt := counts.timecnt;
    // vector::reserve throws length_error, a logic_error, on a negative count.
    if timecnt < 0 {
      return LogicError("vector::reserve");
    }
    var trans :- ReadTimes(f, timecnt);
    var localtimes :- ReadIndices(f, timecnt);
    var local :- ReadLocaltimes(f, if counts.typecnt < 0 then 0 else counts.typecnt, data);
    AddTransitions(b, trans, localtimes, data);
    var abbreviation :- f.ReadBytes(counts.charcnt);
    data.abbreviation := abbreviation;
    r := Ok(());
  }

  datatype Option<+T> = None | Some(value: T)

  /** `contents` is None when the file cannot be opened. The answer is always true. */
  method ReadTimeZoneFile(contents: Option<seq<Byte>>, data: Data) returns (ok: bool)
    requires data.Value() == Zone([], [], [])
    requires contents.Some? ==> IndicesInRange(contents.value)
    modifies data
    ensures ok
    ensures data.Value() == if contents.None? then Zone([], [], []) else Loaded(contents.value)
  {
    if contents.Some? {
      var f := new File(contents.value);
      var caught := ReadBlock(f, data);
    }
    return true;
  }
}

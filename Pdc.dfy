/** The Maya particle disk cache written by the converter: the struct
    format '>4sii2iii i8si{3N}d i10si{M}d', big-endian with no padding
    (Barnett-PointConverter.py, lines 225-263). A double is written as its
    64-bit pattern. */
module Pdc {
  import opened Util
  import opened Float64

  const MinInt32: int := -0x8000_0000
  const MaxInt32: int := 0x7FFF_FFFF
  const TwoTo32: int := 0x1_0000_0000

  /** The `dataType` table of lines 129-130. */
  datatype DataType = Integer | IntegerArray | Double | DoubleArray | Vector | VectorArray

  function Code(t: DataType): int
  {
    match t
    case Integer => 0
    case IntegerArray => 1
    case Double => 2
    case DoubleArray => 3
    case Vector => 4
    case VectorArray => 5
  }

  /** 'PDC ', 'position' and 'particleId' as ASCII bytes. */
  const Magic: seq<Byte> := [0x50, 0x44, 0x43, 0x20]
  const PositionName: seq<Byte> := [0x70, 0x6f, 0x73, 0x69, 0x74, 0x69, 0x6f, 0x6e]
  const ParticleIdName: seq<Byte> := [0x70, 0x61, 0x72, 0x74, 0x69, 0x63, 0x6c, 0x65, 0x49, 0x64]

  /** struct 'i': a signed 32-bit integer in two's complement. */
  function Int32(x: int): (r: seq<Byte>)
    requires MinInt32 <= x <= MaxInt32
    ensures |r| == 4
  {
    BigEndian(if x < 0 then x + TwoTo32 else x, 4)
  }

  /** Reads four bytes back as a signed 32-bit integer. */
  function ReadInt32(b: seq<Byte>): (r: int)
    requires |b| == 4
    ensures MinInt32 <= r <= MaxInt32
  {
    FromBigEndianBound(b);
    Pow256Values();
    var u := FromBigEndian(b);
    if u > MaxInt32 then u - TwoTo32 else u
  }

  lemma {:induction false} Pow256Values()
    ensures Pow256(4) == TwoTo32 && Pow256(8) == TwoTo64
  {
    assert Pow256(4) == 256 * 256 * 256 * 256;
    assert Pow256(8) == 256 * 256 * 256 * 256 * Pow256(4);
  }

  lemma {:induction false} FromBigEndianBound(b: seq<Byte>)
    ensures FromBigEndian(b) < Pow256(|b|)
  {
    if b != [] {
      FromBigEndianBound(b[..|b| - 1]);
    }
  }

  /** Reading an 'i' field gives back the integer written. */
  lemma {:induction false} Int32RoundTrip(x: int)
    requires MinInt32 <= x <= MaxInt32
    ensures ReadInt32(Int32(x)) == x
  {
    Pow256Values();
    BigEndianRoundTrip(if x < 0 then x + TwoTo32 else x, 4);
  }

  /** struct 'd': the eight bytes of a double, most significant first. */
  function Double64(d: Bits64): (r: seq<Byte>)
    ensures |r| == 8
  {
    BigEndian(d, 8)
  }

  function Doubles(ds: seq<Bits64>): (r: seq<Byte>)
    ensures |r| == 8 * |ds|
  {
    if ds == [] then [] else Double64(ds[0]) + Doubles(ds[1..])
  }

  function ReadDoubles(b: seq<Byte>): (r: seq<Bits64>)
    requires |b| % 8 == 0
    ensures |r| == |b| / 8
  {
    if b == [] then []
    else
      var x := FromBigEndian(b[..8]);
      FromBigEndianBound(b[..8]);
      Pow256Values();
      [x] + ReadDoubles(b[8..])
  }

  /** Reading the 'd' fields gives back the doubles written. */
  lemma {:induction false} DoublesRoundTrip(ds: seq<Bits64>)
    ensures ReadDoubles(Doubles(ds)) == ds
  {
    if ds != [] {
      var b := Doubles(ds);
      assert b[..8] == Double64(ds[0]);
      assert b[8..] == Doubles(ds[1..]);
      Pow256Values();
      BigEndianRoundTrip(ds[0], 8);
      DoublesRoundTrip(ds[1..]);
    }
  }

  /** A run of 'i' fields. */
  function Int32s(xs: seq<int>): (r: seq<Byte>)
    requires forall i | 0 <= i < |xs| :: MinInt32 <= xs[i] <= MaxInt32
    ensures |r| == 4 * |xs|
  {
    if xs == [] then [] else Int32(xs[0]) + Int32s(xs[1..])
  }

  function ReadInt32s(b: seq<Byte>): (r: seq<int>)
    requires |b| % 4 == 0
    ensures |r| == |b| / 4
    ensures forall i | 0 <= i < |r| :: MinInt32 <= r[i] <= MaxInt32
  {
    if b == [] then [] else [ReadInt32(b[..4])] + ReadInt32s(b[4..])
  }

  lemma {:induction false} Int32sRoundTrip(xs: seq<int>)
    requires forall i | 0 <= i < |xs| :: MinInt32 <= xs[i] <= MaxInt32
    ensures ReadInt32s(Int32s(xs)) == xs
  {
    if xs != [] {
      var b := Int32s(xs);
      assert b[..4] == Int32(xs[0]);
      assert b[4..] == Int32s(xs[1..]);
      Int32RoundTrip(xs[0]);
      Int32sRoundTrip(xs[1..]);
    }
  }

  /** The values of the '>4sii2iii' header after the magic word:
      format version, byte order, two reserved words, particle count and
      attribute count. */
  function HeaderValues(n: int): seq<int>
  {
    [1, 1, 0, 0, n, 2]
  }

  /** `headerValues` under '>4sii2iii'. */
  function Header(n: int): (r: seq<Byte>)
    requires 0 <= n <= MaxInt32
    ensures |r| == 28
  {
    Magic + Int32s(HeaderValues(n))
  }

  /** One record under 'i{len}si{count}d': name length, name, type code,
      values. */
  function Record(name: seq<Byte>, t: DataType, values: seq<Bits64>): (r: seq<Byte>)
    requires |name| <= MaxInt32
    ensures |r| == 8 + |name| + 8 * |values|
  {
    Int32(|name|) + name + Int32(Code(t)) + Doubles(values)
  }

  /** `form.pack(*allValues)`: fails with struct.error when the particle
      count does not fit an 'i' field or the coordinates do not come in
      threes. The id count is whatever `ids` holds; nothing ties it to the
      particle count. */
  function Pack(coords: seq<Bits64>, ids: seq<Bits64>): Result<seq<Byte>>
  {
    var n := |coords| / 3;
    if |coords| % 3 != 0 || n > MaxInt32 then Err(StructError)
    else Success(Header(n) + Record(PositionName, VectorArray, coords)
                           + Record(ParticleIdName, DoubleArray, ids))
  }

  /** What a reader of the file recovers. */
  datatype Cache = Cache(particles: nat, positions: seq<Bits64>, ids: seq<Bits64>)

  /** Reads one record whose name, type and value count are known, giving
      the values and the bytes after the record. */
  function UnpackRecord(b: seq<Byte>, name: seq<Byte>, t: DataType, count: nat)
    : Option<(seq<Bits64>, seq<Byte>)>
  {
    var k := 8 + |name|;
    if |b| < k + 8 * count || ReadInt32(b[..4]) != |name| || b[4..4 + |name|] != name
       || ReadInt32(b[4 + |name|..k]) != Code(t)
    then None
    else Some((ReadDoubles(b[k..k + 8 * count]), b[k + 8 * count..]))
  }

  /** Reads the 28-byte header: checks every constant field and gives the
      particle count. */
  function UnpackHeader(h: seq<Byte>): Option<nat>
    requires |h| == 28
  {
    var xs := ReadInt32s(h[4..]);
    if h[..4] != Magic || |xs| != 6 || xs[0] != 1 || xs[1] != 1 || xs[2] != 0 || xs[3] != 0
       || xs[4] < 0 || xs[5] != 2
    then None
    else Some(xs[4])
  }

  /** A reader for the layout: the header, then the position record with
      three values per particle, then an id record that runs to the end. */
  function Unpack(b: seq<Byte>): Option<Cache>
  {
    if |b| < 28 then None
    else
      var n := UnpackHeader(b[..28]);
      if n.None? then None
      else
        var r1 := UnpackRecord(b[28..], PositionName, VectorArray, 3 * n.value);
        if r1.None? then None
        else
          var rest := r1.value.1;
          var m := if |rest| < 18 then 0 else (|rest| - 18) / 8;
          var r2 := UnpackRecord(rest, ParticleIdName, DoubleArray, m);
          if r2.None? || r2.value.1 != [] then None
          else Some(Cache(n.value, r1.value.0, r2.value.0))
  }

  lemma {:induction false} UnpackRecordOf(name: seq<Byte>, t: DataType, values: seq<Bits64>, tail: seq<Byte>)
    requires |name| <= MaxInt32
    ensures UnpackRecord(Record(name, t, values) + tail, name, t, |values|) == Some((values, tail))
  {
    var b := Record(name, t, values) + tail;
    var k := 8 + |name|;
    assert b[..4] == Int32(|name|);
    assert b[4..4 + |name|] == name;
    assert b[4 + |name|..k] == Int32(Code(t));
    assert b[k..k + 8 * |values|] == Doubles(values);
    assert b[k + 8 * |values|..] == tail;
    Int32RoundTrip(|name|);
    Int32RoundTrip(Code(t));
    DoublesRoundTrip(values);
  }

  lemma {:induction false} HeaderFields(n: int)
    requires 0 <= n <= MaxInt32
    ensures UnpackHeader(Header(n)) == Some(n)
  {
    var h := Header(n);
    assert h[..4] == Magic;
    assert h[4..] == Int32s(HeaderValues(n));
    Int32sRoundTrip(HeaderValues(n));
  }

  /** The file is `62 + 24*N + 8*len(ids)` bytes: a 28-byte header, a
      position record of `16 + 24*N` bytes and an id record of
      `18 + 8*len(ids)` bytes. */
  lemma {:induction false} PackLength(coords: seq<Bits64>, ids: seq<Bits64>)
    requires Pack(coords, ids).Success?
    ensures |Pack(coords, ids).value| == 62 + 24 * (|coords| / 3) + 8 * |ids|
  {
  }

  /** When packing fails, and with which exception. */
  lemma {:induction false} PackGuard(coords: seq<Bits64>, ids: seq<Bits64>)
    ensures Pack(coords, ids).Err? <==> |coords| % 3 != 0 || |coords| / 3 > MaxInt32
    ensures Pack(coords, ids).Err? ==> Pack(coords, ids).error == StructError
  {
  }

  /** Whatever a reader decodes has three coordinates per particle and a
      particle count that fits an 'i' field. */
  lemma {:induction false} UnpackShape(b: seq<Byte>)
    requires Unpack(b).Some?
    ensures |Unpack(b).value.positions| == 3 * Unpack(b).value.particles
    ensures Unpack(b).value.particles <= MaxInt32
  {
    var xs := ReadInt32s(b[..28][4..]);
    assert Unpack(b).value.particles == xs[4];
  }

  /** Packing fails, with struct.error, exactly when no cache file a reader
      can decode holds these coordinates for `len(coords) // 3` particles:
      the values do not fit the layout. */
  lemma {:induction false} PackFails(coords: seq<Bits64>, ids: seq<Bits64>)
    ensures Pack(coords, ids).Err? <==>
      forall b :: Unpack(b) != Some(Cache(|coords| / 3, coords, ids))
    ensures Pack(coords, ids).Err? ==> Pack(coords, ids).error == StructError
  {
    PackGuard(coords, ids);
    if Pack(coords, ids).Success? {
      PackRoundTrip(coords, ids);
    } else {
      forall b ensures Unpack(b) != Some(Cache(|coords| / 3, coords, ids)) {
        if Unpack(b) == Some(Cache(|coords| / 3, coords, ids)) {
          UnpackShape(b);
        }
      }
    }
  }

  lemma {:induction false} UnpackParts(h: seq<Byte>, r1: seq<Byte>, r2: seq<Byte>,
                                      n: nat, coords: seq<Bits64>, ids: seq<Bits64>)
    requires |h| == 28 && UnpackHeader(h) == Some(n)
    requires UnpackRecord(r1 + r2, PositionName, VectorArray, 3 * n) == Some((coords, r2))
    requires |r2| >= 18 && UnpackRecord(r2, ParticleIdName, DoubleArray, (|r2| - 18) / 8) == Some((ids, []))
    ensures Unpack(h + r1 + r2) == Some(Cache(n, coords, ids))
  {
    var b := h + r1 + r2;
    assert b[..28] == h;
    assert b[28..] == r1 + r2;
  }

  /** A reader of the layout recovers the particle count, every coordinate
      and every id, in order. */
  lemma {:induction false} PackRoundTrip(coords: seq<Bits64>, ids: seq<Bits64>)
    requires Pack(coords, ids).Success?
    ensures Unpack(Pack(coords, ids).value) == Some(Cache(|coords| / 3, coords, ids))
  {
    var n := |coords| / 3;
    var h := Header(n);
    var r1 := Record(PositionName, VectorArray, coords);
    var r2 := Record(ParticleIdName, DoubleArray, ids);
    HeaderFields(n);
    UnpackRecordOf(PositionName, VectorArray, coords, r2);
    assert r2 == r2 + [];
    UnpackRecordOf(ParticleIdName, DoubleArray, ids, []);
    assert (|r2| - 18) / 8 == |ids|;
    UnpackParts(h, r1, r2, n, coords, ids);
  }

  /** Different contents never give the same bytes. */
  lemma {:induction false} PackInjective(c1: seq<Bits64>, i1: seq<Bits64>, c2: seq<Bits64>, i2: seq<Bits64>)
    requires Pack(c1, i1).Success? && Pack(c2, i2).Success?
    requires Pack(c1, i1).value == Pack(c2, i2).value
    ensures c1 == c2 && i1 == i2
  {
    PackRoundTrip(c1, i1);
    PackRoundTrip(c2, i2);
  }
}

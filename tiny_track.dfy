// The compact trajectory codec (TinyTrack in libs/tracking/tract_model.cpp), on
// the integer layer: a streamline is its coordinates already multiplied by 32
// and rounded, three ints per point.

module TinyTrack {
  import opened Common

  // ---------------------------------------------------------------------------
  // Points and flat coordinate streams
  // ---------------------------------------------------------------------------

  /** A quantised point (x, y, z in 1/32 voxel). */
  datatype P3 = P3(x: int, y: int, z: int)

  const Origin := P3(0, 0, 0)

  function Add(p: P3, q: P3): P3 { P3(p.x + q.x, p.y + q.y, p.z + q.z) }

  function Sub(p: P3, q: P3): P3 { P3(p.x - q.x, p.y - q.y, p.z - q.z) }

  function Coord(p: P3, a: nat): int
    requires a < 3
  {
    if a == 0 then p.x else if a == 1 then p.y else p.z
  }

  /** The flat layout x0 y0 z0 x1 y1 z1 ... used by every buffer of the codec. */
  function Flatten(ps: seq<P3>): (f: seq<int>)
    ensures |f| == 3 * |ps|
  {
    seq(3 * |ps|, i requires 0 <= i < 3 * |ps| => Coord(ps[i / 3], i % 3))
  }

  function ToPoints(f: seq<int>): (ps: seq<P3>)
    requires |f| % 3 == 0
    ensures 3 * |ps| == |f|
  {
    seq(|f| / 3, k requires 0 <= k < |f| / 3 => P3(f[3 * k], f[3 * k + 1], f[3 * k + 2]))
  }

  lemma {:induction false} FlattenToPoints(f: seq<int>)
    requires |f| % 3 == 0
    ensures Flatten(ToPoints(f)) == f
  {
    var ps := ToPoints(f);
    forall i | 0 <= i < |f|
      ensures Flatten(ps)[i] == f[i]
    {
      assert i == 3 * (i / 3) + i % 3;
    }
  }

  lemma {:induction false} ToPointsFlatten(ps: seq<P3>)
    ensures ToPoints(Flatten(ps)) == ps
  {
    var f := Flatten(ps);
    assert |ToPoints(f)| == |ps|;
    forall k | 0 <= k < |ps|
      ensures ToPoints(f)[k] == ps[k]
    {
      Thirds(k);
      assert f[3 * k] == ps[k].x && f[3 * k + 1] == ps[k].y && f[3 * k + 2] == ps[k].z;
    }
  }

  lemma {:induction false} Thirds(k: nat)
    ensures (3 * k) / 3 == k && (3 * k) % 3 == 0
    ensures (3 * k + 1) / 3 == k && (3 * k + 1) % 3 == 1
    ensures (3 * k + 2) / 3 == k && (3 * k + 2) % 3 == 2
  {
  }

  lemma {:induction false} FlattenOne(p: P3)
    ensures Flatten([p]) == [p.x, p.y, p.z]
  {
    var f := Flatten([p]);
    assert f[0] == p.x && f[1] == p.y && f[2] == p.z;
  }

  lemma {:induction false} FlattenAppend(a: seq<P3>, b: seq<P3>)
    ensures Flatten(a + b) == Flatten(a) + Flatten(b)
  {
    var l, r := Flatten(a + b), Flatten(a) + Flatten(b);
    forall i | 0 <= i < |l|
      ensures l[i] == r[i]
    {
      if i >= 3 * |a| {
        var j := i - 3 * |a|;
        assert j / 3 == i / 3 - |a| && j % 3 == i % 3;
      }
    }
  }

  // ---------------------------------------------------------------------------
  // Sums of displacements and their running totals (the decoder's prefix sums)
  // ---------------------------------------------------------------------------

  function SumP(xs: seq<P3>): P3
  {
    if xs == [] then Origin else Add(SumP(xs[..|xs| - 1]), xs[|xs| - 1])
  }

  lemma {:induction false} SumPAppend(a: seq<P3>, b: seq<P3>)
    ensures SumP(a + b) == Add(SumP(a), SumP(b))
  {
    if b == [] {
      assert a + b == a;
    } else {
      assert (a + b)[..|a + b| - 1] == a + b[..|b| - 1];
      SumPAppend(a, b[..|b| - 1]);
    }
  }

  /** Point k of a decoded streamline: the sum of the first k+1 stored displacements. */
  function Running(xs: seq<P3>): (r: seq<P3>)
    ensures |r| == |xs|
  {
    seq(|xs|, i requires 0 <= i < |xs| => SumP(xs[..i + 1]))
  }

  lemma {:induction false} RunningStep(xs: seq<P3>, i: nat)
    requires 0 < i < |xs|
    ensures Running(xs)[i] == Add(Running(xs)[i - 1], xs[i])
  {
    assert xs[..i + 1][..i] == xs[..i];
  }

  // ---------------------------------------------------------------------------
  // Delta encoding
  // ---------------------------------------------------------------------------

  /** The first point, then the displacement from each point to the next. */
  function Deltas(ps: seq<P3>): (ds: seq<P3>)
    ensures |ds| == |ps|
  {
    seq(|ps|, k requires 0 <= k < |ps| => if k == 0 then ps[0] else Sub(ps[k], ps[k - 1]))
  }

  /** Summing the displacements up to point k gives back point k. */
  lemma {:induction false} SumDeltas(ps: seq<P3>)
    requires |ps| > 0
    ensures SumP(Deltas(ps)) == ps[|ps| - 1]
  {
    var n := |ps|;
    if n > 1 {
      assert Deltas(ps)[..n - 1] == Deltas(ps[..n - 1]);
      SumDeltas(ps[..n - 1]);
    } else {
      assert Deltas(ps)[..0] == [];
    }
  }

  /** Decoding plain deltas reproduces the streamline exactly. */
  lemma {:induction false} RunningDeltas(ps: seq<P3>)
    ensures Running(Deltas(ps)) == ps
  {
    forall k | 0 <= k < |ps|
      ensures Running(Deltas(ps))[k] == ps[k]
    {
      assert Deltas(ps)[..k + 1] == Deltas(ps[..k + 1]);
      SumDeltas(ps[..k + 1]);
    }
  }

  // ---------------------------------------------------------------------------
  // Leap splitting
  // ---------------------------------------------------------------------------

  /** A component that fits in one signed byte of the record. */
  predicate Fits(v: int) { -127 <= v <= 127 }

  predicate FitsP(p: P3) { Fits(p.x) && Fits(p.y) && Fits(p.z) }

  function Abs(v: int): nat { if v < 0 then -v else v }

  function Size(p: P3): nat { Abs(p.x) + Abs(p.y) + Abs(p.z) }

  /** `v /= 2` on a C++ int: the quotient truncated toward zero. */
  function HalfTrunc(v: int): int
  {
    if v >= 0 then v / 2 else -((-v) / 2)
  }

  function HalfP(p: P3): P3 { P3(HalfTrunc(p.x), HalfTrunc(p.y), HalfTrunc(p.z)) }

  /** h lies between 0 and v, on v's side. */
  predicate Within(h: int, v: int)
  {
    if v >= 0 then 0 <= h <= v else v <= h <= 0
  }

  predicate WithinP(h: P3, p: P3) { Within(h.x, p.x) && Within(h.y, p.y) && Within(h.z, p.z) }

  lemma {:induction false} HalfTruncFacts(v: int)
    ensures Within(HalfTrunc(v), v)
    ensures Abs(HalfTrunc(v)) <= Abs(v)
    ensures !Fits(v) ==> Abs(HalfTrunc(v)) < Abs(v) && Abs(HalfTrunc(v)) >= 64
  {
  }

  lemma {:induction false} HalfPFacts(p: P3)
    requires !FitsP(p)
    ensures WithinP(HalfP(p), p)
    ensures Size(HalfP(p)) < Size(p)
    ensures Size(HalfP(p)) >= 64
  {
    HalfTruncFacts(p.x);
    HalfTruncFacts(p.y);
    HalfTruncFacts(p.z);
  }

  lemma {:induction false} WithinTrans(h: P3, m: P3, p: P3)
    requires WithinP(h, m) && WithinP(m, p)
    ensures WithinP(h, p)
  {
  }

  /**
   * The halving loop of the encoder: all three axes are halved together
   * until every one fits in a byte.
   */
  function Halve(p: P3): (h: P3)
    ensures FitsP(h)
    ensures WithinP(h, p)
    ensures !FitsP(p) ==> Size(h) >= 64
    ensures FitsP(p) ==> h == p
    decreases Size(p)
  {
    if FitsP(p) then p
    else
      HalfPFacts(p);
      var h := Halve(HalfP(p));
      WithinTrans(h, HalfP(p), p);
      h
  }

  /** What is left of a leaping displacement after its halved step is smaller. */
  lemma {:induction false} ResidualShrinks(d: P3)
    requires !FitsP(d)
    ensures Size(Sub(d, Halve(d))) < Size(d)
  {
    var h := Halve(d);
    WithinSub(h.x, d.x);
    WithinSub(h.y, d.y);
    WithinSub(h.z, d.z);
  }

  lemma {:induction false} WithinSub(h: int, v: int)
    requires Within(h, v)
    ensures Abs(v - h) == Abs(v) - Abs(h)
  {
  }

  /**
   * The pieces one displacement is split into: the halved step, then the
   * pieces of whatever remains of the displacement.
   */
  function Pieces(d: P3): (r: seq<P3>)
    ensures |r| >= 1
    decreases Size(d)
  {
    if FitsP(d) then [d]
    else
      ResidualShrinks(d);
      [Halve(d)] + Pieces(Sub(d, Halve(d)))
  }

  /** Every piece fits a byte, and a displacement that fits is its only piece. */
  lemma {:induction false} PiecesFit(d: P3)
    ensures forall i :: 0 <= i < |Pieces(d)| ==> FitsP(Pieces(d)[i])
    ensures FitsP(d) <==> Pieces(d) == [d]
    decreases Size(d)
  {
    if !FitsP(d) {
      var h := Halve(d);
      PiecesFit(Sub(d, h));
      assert Pieces(d)[0] == h;
    }
  }

  /** The pieces of a displacement add up to exactly that displacement. */
  lemma {:induction false} PiecesSum(d: P3)
    ensures SumP(Pieces(d)) == d
    decreases Size(d)
  {
    if FitsP(d) {
      assert SumP([d]) == Add(SumP([]), d);
    } else {
      var h := Halve(d);
      PiecesSum(Sub(d, h));
      SumPAppend([h], Pieces(Sub(d, h)));
      assert SumP([h]) == Add(SumP([]), h);
    }
  }

  /** Every displacement after the first, replaced by its pieces. */
  function SplitTail(ds: seq<P3>): (r: seq<P3>)
    ensures |r| >= |ds|
  {
    if ds == [] then [] else Pieces(ds[0]) + SplitTail(ds[1..])
  }

  lemma {:induction false} SplitTailFits(ds: seq<P3>)
    ensures forall i :: 0 <= i < |SplitTail(ds)| ==> FitsP(SplitTail(ds)[i])
  {
    if ds != [] {
      PiecesFit(ds[0]);
      SplitTailFits(ds[1..]);
    }
  }

  lemma {:induction false} SplitTailAppend(a: seq<P3>, b: seq<P3>)
    ensures SplitTail(a + b) == SplitTail(a) + SplitTail(b)
  {
    if a == [] {
      assert a + b == b;
    } else {
      assert (a + b)[1..] == a[1..] + b;
      SplitTailAppend(a[1..], b);
    }
  }

  lemma {:induction false} SplitTailSum(ds: seq<P3>)
    ensures SumP(SplitTail(ds)) == SumP(ds)
  {
    if ds != [] {
      SplitTailSum(ds[1..]);
      PiecesSum(ds[0]);
      SumPAppend(Pieces(ds[0]), SplitTail(ds[1..]));
      assert ds == [ds[0]] + ds[1..];
      SumPAppend([ds[0]], ds[1..]);
      assert SumP([ds[0]]) == Add(SumP([]), ds[0]);
    }
  }

  /** Every displacement fits in a byte: the encoder's `has_leap` is false. */
  predicate NoLeap(ds: seq<P3>)
  {
    forall k :: 1 <= k < |ds| ==> FitsP(ds[k])
  }

  /** The leap-splitting pass over a delta stream; the first point is never split. */
  function Split(ds: seq<P3>): (r: seq<P3>)
    requires |ds| >= 1
  {
    [ds[0]] + SplitTail(ds[1..])
  }

  lemma {:induction false} SplitTailWithoutLeap(ds: seq<P3>)
    requires forall k :: 0 <= k < |ds| ==> FitsP(ds[k])
    ensures SplitTail(ds) == ds
  {
    if ds != [] {
      PiecesFit(ds[0]);
      SplitTailWithoutLeap(ds[1..]);
    }
  }

  /** When no displacement leaps, splitting leaves the delta stream unchanged. */
  lemma {:induction false} SplitWithoutLeap(ds: seq<P3>)
    requires |ds| >= 1 && NoLeap(ds)
    ensures Split(ds) == ds
  {
    SplitTailWithoutLeap(ds[1..]);
  }

  /** The displacement stream stored for a streamline. */
  function Encode(ps: seq<P3>): (e: seq<P3>)
    requires |ps| >= 1
  {
    Split(Deltas(ps))
  }

  /** What the encoder promises about the stored stream, all inputs. */
  lemma {:induction false} EncodeShape(ps: seq<P3>)
    requires |ps| >= 1
    ensures var e := Encode(ps);
      |e| >= |ps| && e[0] == ps[0] && (forall i :: 1 <= i < |e| ==> FitsP(e[i]))
    ensures NoLeap(Deltas(ps)) ==> Encode(ps) == Deltas(ps)
  {
    var ds := Deltas(ps);
    SplitTailFits(ds[1..]);
    assert forall i :: 1 <= i < |Encode(ps)| ==> Encode(ps)[i] == SplitTail(ds[1..])[i - 1];
    if NoLeap(Deltas(ps)) {
      SplitWithoutLeap(Deltas(ps));
    }
  }

  /** Encoding a prefix of a streamline gives a prefix of its encoding. */
  lemma {:induction false} EncodePrefix(ps: seq<P3>, k: nat)
    requires k < |ps|
    ensures Encode(ps) == Encode(ps[..k + 1]) + SplitTail(Deltas(ps)[k + 1..])
  {
    var ds := Deltas(ps);
    assert Deltas(ps[..k + 1]) == ds[..k + 1];
    assert ds[1..] == ds[..k + 1][1..] + ds[k + 1..];
    SplitTailAppend(ds[..k + 1][1..], ds[k + 1..]);
  }

  /** The stored displacements of a streamline add up to its last point. */
  lemma {:induction false} SumEncode(ps: seq<P3>)
    requires |ps| >= 1
    ensures SumP(Encode(ps)) == ps[|ps| - 1]
  {
    var ds := Deltas(ps);
    SplitTailSum(ds[1..]);
    SumPAppend([ds[0]], SplitTail(ds[1..]));
    SumPAppend([ds[0]], ds[1..]);
    assert ds == [ds[0]] + ds[1..];
    SumDeltas(ps);
  }

  /** The position, in the stored stream, of original point k. */
  function StoredIndex(ps: seq<P3>, k: nat): nat
    requires k < |ps|
  {
    |Encode(ps[..k + 1])| - 1
  }

  lemma {:induction false} StoredIndexGrows(ps: seq<P3>, k: nat)
    requires k + 1 < |ps|
    ensures StoredIndex(ps, k) < StoredIndex(ps, k + 1)
  {
    var ds := Deltas(ps[..k + 1]);
    var dk := Deltas(ps[..k + 2]);
    assert ps[..k + 2][..k + 1] == ps[..k + 1];
    assert dk[..k + 1] == ds;
    assert dk[1..] == ds[1..] + [dk[k + 1]];
    SplitTailAppend(ds[1..], [dk[k + 1]]);
  }

  /**
   * Decoding the stored stream passes through every original point, in order,
   * and ends at the last one: splitting only inserts intermediate points.
   */
  lemma {:induction false} PassesThroughOriginals(ps: seq<P3>, k: nat)
    requires k < |ps|
    ensures StoredIndex(ps, k) < |Encode(ps)|
    ensures Running(Encode(ps))[StoredIndex(ps, k)] == ps[k]
    ensures k + 1 < |ps| ==> StoredIndex(ps, k) < StoredIndex(ps, k + 1)
    ensures k + 1 == |ps| ==> StoredIndex(ps, k) == |Encode(ps)| - 1
  {
    var e := Encode(ps);
    var pre := Encode(ps[..k + 1]);
    EncodePrefix(ps, k);
    var i := |pre| - 1;
    assert StoredIndex(ps, k) == i;
    assert e[..i + 1] == pre;
    SumEncode(ps[..k + 1]);
    assert ps[..k + 1][k] == ps[k];
    assert Running(e)[i] == SumP(pre);
    if k + 1 < |ps| {
      StoredIndexGrows(ps, k);
    } else {
      assert ps[..k + 1] == ps;
    }
  }

  // ---------------------------------------------------------------------------
  // Bytes of a record
  // ---------------------------------------------------------------------------

  type Byte = b: int | 0 <= b < 256

  const TwoTo31: int := 0x8000_0000
  const TwoTo32: int := 0x1_0000_0000

  predicate IsInt32(v: int) { -TwoTo31 <= v < TwoTo31 }

  /** The n low bytes of v, least significant first. */
  function LittleEndian(v: nat, n: nat): (b: seq<Byte>)
    ensures |b| == n
  {
    if n == 0 then [] else [v % 256] + LittleEndian(v / 256, n - 1)
  }

  /** A uint32_t in memory, least significant byte first. */
  function LE32(v: int): (b: seq<Byte>)
    ensures |b| == 4
  {
    LittleEndian(v % TwoTo32, 4)
  }

  /** The uint32_t read at byte i. */
  function U32At(b: seq<Byte>, i: nat): nat
    requires i + 4 <= |b|
  {
    b[i] as int + 256 * (b[i + 1] as int) + 65536 * (b[i + 2] as int) + 16777216 * (b[i + 3] as int)
  }

  lemma {:induction false} LE32RoundTrip(v: nat)
    requires v < TwoTo32
    ensures U32At(LE32(v), 0) == v
  {
    assert v % TwoTo32 == v;
    var q1 := v / 256;
    var q2 := q1 / 256;
    var q3 := q2 / 256;
    assert LittleEndian(q3 / 256, 0) == [];
    assert LittleEndian(q3, 1) == [q3 % 256];
    assert LittleEndian(q2, 2) == [q2 % 256, q3 % 256];
    assert LittleEndian(q1, 3) == [q1 % 256, q2 % 256, q3 % 256];
    assert LE32(v) == [v % 256, q1 % 256, q2 % 256, q3 % 256];
    assert v == 256 * q1 + v % 256;
    assert q1 == 256 * q2 + q1 % 256;
    assert q2 == 256 * q3 + q2 % 256;
    assert q3 < 256;
  }

  /** An int32_t in memory: two's complement, least significant byte first. */
  function I32Bytes(v: int): (b: seq<Byte>)
    ensures |b| == 4
  {
    LE32(if v < 0 then v + TwoTo32 else v)
  }

  function I32At(b: seq<Byte>, i: nat): int
    requires i + 4 <= |b|
  {
    var u := U32At(b, i);
    if u >= TwoTo31 then u - TwoTo32 else u
  }

  lemma {:induction false} I32RoundTrip(v: int)
    requires IsInt32(v)
    ensures I32At(I32Bytes(v), 0) == v
  {
    LE32RoundTrip(if v < 0 then v + TwoTo32 else v);
  }

  /** `char(v)`: the low eight bits of v. */
  function ByteOf(v: int): Byte { v % 256 }

  /** A `char` read back as a (signed) number. */
  function SignedByte(b: Byte): int { if b < 128 then b else b - 256 }

  lemma {:induction false} SignedByteOf(v: int)
    requires -128 <= v < 128
    ensures SignedByte(ByteOf(v)) == v
  {
  }

  /** The 16-byte header: number of ints, then the first point as three int32. */
  function Header(f: seq<int>): (h: seq<Byte>)
    requires 3 <= |f|
    ensures |h| == 16
  {
    LE32(|f|) + I32Bytes(f[0]) + I32Bytes(f[1]) + I32Bytes(f[2])
  }

  /** A record is sizeof(tract_header) + size - 3 bytes: the header, then one byte per later int. */
  function RecordBytes(f: seq<int>): (r: seq<Byte>)
    requires 3 <= |f|
    ensures |r| == 13 + |f|
  {
    Header(f) + seq(|f| - 3, i requires 0 <= i < |f| - 3 => ByteOf(f[3 + i]))
  }

  // ---------------------------------------------------------------------------
  // Decoding one record
  // ---------------------------------------------------------------------------

  /** Why loading fails: no chunk named "track", or the chunk makes the loader read or write out of bounds. */
  datatype LoadError = NoTrack | Undefined

  /** Point by point running sums over a flat stream, three ints per point. */
  function PrefixAt(s: seq<int>, j: nat): int
    requires j < |s|
  {
    if j < 3 then s[j] else PrefixAt(s, j - 3) + s[j]
  }

  function UndeltaFlat(s: seq<int>): (r: seq<int>)
    ensures |r| == |s|
  {
    seq(|s|, j requires 0 <= j < |s| => PrefixAt(s, j))
  }

  lemma {:induction false} PrefixAtPoint(es: seq<P3>, k: nat, a: nat)
    requires k < |es| && a < 3
    ensures PrefixAt(Flatten(es), 3 * k + a) == Coord(SumP(es[..k + 1]), a)
  {
    assert (3 * k + a) / 3 == k && (3 * k + a) % 3 == a;
    assert es[..k + 1][..k] == es[..k];
    if k == 0 {
      assert es[..1][..0] == [];
    } else {
      PrefixAtPoint(es, k - 1, a);
      assert 3 * k + a - 3 == 3 * (k - 1) + a;
    }
  }

  /** The flat prefix sums of the decoder agree with the point-wise running sums. */
  lemma {:induction false} UndeltaFlatPoints(es: seq<P3>)
    ensures UndeltaFlat(Flatten(es)) == Flatten(Running(es))
  {
    forall i | 0 <= i < 3 * |es|
      ensures UndeltaFlat(Flatten(es))[i] == Flatten(Running(es))[i]
    {
      assert i == 3 * (i / 3) + i % 3;
      PrefixAtPoint(es, i / 3, i % 3);
    }
  }

  /** The ints a record stores: the first point, then each byte read as signed. */
  function StoredInts(buf: seq<Byte>, pos: nat, count: nat): (s: seq<int>)
    requires 3 <= count && pos + 13 + count <= |buf|
    ensures |s| == count
  {
    [I32At(buf, pos + 4), I32At(buf, pos + 8), I32At(buf, pos + 12)]
    + seq(count - 3, i requires 0 <= i < count - 3 => SignedByte(buf[pos + 16 + i]))
  }

  /**
   * One record of load_from_file. The only check is `count > buf_size`
   * against the whole chunk, which leaves that streamline empty; every other
   * malformed record makes the loader read or write out of bounds.
   */
  function DecodeRecordAt(buf: seq<Byte>, pos: nat): (r: Result<seq<int>, LoadError>)
  {
    if pos + 16 > |buf| then Err(Undefined)
    else
      var count := U32At(buf, pos);
      if count > |buf| then Ok([])
      else if count < 3 || pos + 13 + count > |buf| then Err(Undefined)
      else Ok(UndeltaFlat(StoredInts(buf, pos, count)))
  }

  /** The header scan: each record starts count + 13 bytes after the previous one. */
  function ScanFrom(buf: seq<Byte>, i: nat): Result<seq<nat>, LoadError>
    decreases |buf| - i
  {
    if i >= |buf| then Ok([])
    else if i + 4 > |buf| then Err(Undefined)
    else
      match ScanFrom(buf, i + U32At(buf, i) + 13)
      case Ok(rest) => Ok([i] + rest)
      case Err(e) => Err(e)
  }

  function DecodeAll(buf: seq<Byte>, pos: seq<nat>): Result<seq<seq<int>>, LoadError>
  {
    if pos == [] then Ok([])
    else
      match (DecodeAll(buf, pos[..|pos| - 1]), DecodeRecordAt(buf, pos[|pos| - 1]))
      case (Ok(ts), Ok(t)) => Ok(ts + [t])
      case (Err(e), _) => Err(e)
      case (_, Err(e)) => Err(e)
  }

  /** Every streamline of one chunk. */
  function DecodeChunk(buf: seq<Byte>): Result<seq<seq<int>>, LoadError>
  {
    match ScanFrom(buf, 0)
    case Err(e) => Err(e)
    case Ok(pos) => DecodeAll(buf, pos)
  }

  /** A flat stream a record can hold exactly: every int after the first point fits a signed byte. */
  predicate Recordable(f: seq<int>)
  {
    && 3 <= |f| < TwoTo32 && IsInt32(f[0]) && IsInt32(f[1]) && IsInt32(f[2])
    && forall i :: 3 <= i < |f| ==> -128 <= f[i] < 128
  }

  lemma {:induction false} WordAtSlice(b: seq<Byte>, i: nat, c: seq<Byte>)
    requires i + 4 <= |b| && |c| == 4 && b[i..i + 4] == c
    ensures U32At(b, i) == U32At(c, 0) && I32At(b, i) == I32At(c, 0)
  {
    assert b[i] == c[0] && b[i + 1] == c[1] && b[i + 2] == c[2] && b[i + 3] == c[3];
  }

  lemma {:induction false} RecordLayout(f: seq<int>)
    requires Recordable(f)
    ensures var r := RecordBytes(f);
      && r[0..4] == LE32(|f|) && r[4..8] == I32Bytes(f[0])
      && r[8..12] == I32Bytes(f[1]) && r[12..16] == I32Bytes(f[2])
      && forall i :: 16 <= i < |r| ==> r[i] == ByteOf(f[i - 13])
  {
    var r := RecordBytes(f);
    var a, b, c, d := LE32(|f|), I32Bytes(f[0]), I32Bytes(f[1]), I32Bytes(f[2]);
    assert r == a + b + c + d + r[16..];
  }

  /** The header of a record placed at pos reads back as the size and the first point. */
  lemma {:induction false} HeaderReads(buf: seq<Byte>, pos: nat, f: seq<int>)
    requires Recordable(f)
    requires pos + 13 + |f| <= |buf| && buf[pos..pos + 13 + |f|] == RecordBytes(f)
    ensures U32At(buf, pos) == |f| && I32At(buf, pos + 4) == f[0]
    ensures I32At(buf, pos + 8) == f[1] && I32At(buf, pos + 12) == f[2]
  {
    var r := RecordBytes(f);
    RecordLayout(f);
    SubSlice(buf, pos, r, 0, 4);
    SubSlice(buf, pos, r, 4, 8);
    SubSlice(buf, pos, r, 8, 12);
    SubSlice(buf, pos, r, 12, 16);
    WordAtSlice(buf, pos, LE32(|f|));
    LE32RoundTrip(|f|);
    WordAtSlice(buf, pos + 4, I32Bytes(f[0]));
    I32RoundTrip(f[0]);
    WordAtSlice(buf, pos + 8, I32Bytes(f[1]));
    I32RoundTrip(f[1]);
    WordAtSlice(buf, pos + 12, I32Bytes(f[2]));
    I32RoundTrip(f[2]);
  }

  /** A record placed anywhere in a chunk decodes to the prefix sums of what it stores. */
  lemma {:induction false} RecordDecodes(buf: seq<Byte>, pos: nat, f: seq<int>)
    requires Recordable(f)
    requires pos + 13 + |f| <= |buf| && buf[pos..pos + 13 + |f|] == RecordBytes(f)
    ensures DecodeRecordAt(buf, pos) == Ok(UndeltaFlat(f))
  {
    var r := RecordBytes(f);
    HeaderReads(buf, pos, f);
    RecordLayout(f);
    var st := StoredInts(buf, pos, |f|);
    forall i | 3 <= i < |f|
      ensures st[i] == f[i]
    {
      assert buf[pos + 16 + (i - 3)] == r[16 + (i - 3)];
      SignedByteOf(f[i]);
    }
    assert st == f;
  }

  predicate AllRecordable(fs: seq<seq<int>>)
  {
    forall j :: 0 <= j < |fs| ==> Recordable(fs[j])
  }

  /** The records of a chunk, one per stored stream. */
  function RecordsOf(fs: seq<seq<int>>): (rs: seq<seq<Byte>>)
    requires forall k :: 0 <= k < |fs| ==> Recordable(fs[k])
    ensures |rs| == |fs|
  {
    seq(|fs|, k requires 0 <= k < |fs| && Recordable(fs[k]) => RecordBytes(fs[k]))
  }

  lemma {:induction false} ConcatSnoc<T>(rs: seq<seq<T>>, k: nat)
    requires k < |rs|
    ensures Concat(rs[..k + 1]) == Concat(rs[..k]) + rs[k]
  {
    var p := rs[..k + 1];
    assert p[..|p| - 1] == rs[..k];
  }

  lemma {:induction false} ConcatTake<T>(rs: seq<seq<T>>, k: nat)
    requires k <= |rs|
    ensures Concat(rs) == Concat(rs[..k]) + Concat(rs[k..])
  {
    var a, b := rs[..k], rs[k..];
    ConcatAppend(a, b);
    assert a + b == rs;
  }

  lemma {:induction false} SubSlice<T>(b: seq<T>, p: nat, r: seq<T>, i: nat, j: nat)
    requires p + |r| <= |b| && b[p..p + |r|] == r && i <= j <= |r|
    ensures b[p + i..p + j] == r[i..j]
  {
    forall t | 0 <= t < j - i
      ensures b[p + i..p + j][t] == r[i..j][t]
    {
      assert b[p + i + t] == b[p..p + |r|][i + t];
    }
  }

  /** Record k of a chunk starts where the records before it end. */
  lemma {:induction false} RecordInChunk(fs: seq<seq<int>>, k: nat)
    requires forall j :: 0 <= j < |fs| ==> Recordable(fs[j])
    requires k < |fs|
    ensures var rs := RecordsOf(fs); var buf := Concat(rs); var p := |Concat(rs[..k])|;
      && p + 13 + |fs[k]| == |Concat(rs[..k + 1])| <= |buf|
      && buf[p..p + 13 + |fs[k]|] == RecordBytes(fs[k])
  {
    var rs := RecordsOf(fs);
    ConcatSnoc(rs, k);
    ConcatTake(rs, k + 1);
  }

  /** Where each record of a chunk starts. */
  function Starts(rs: seq<seq<Byte>>): (r: seq<nat>)
    ensures |r| == |rs|
  {
    seq(|rs|, j requires 0 <= j < |rs| => |Concat(rs[..j])|)
  }

  /** The header scan reads record k's count and moves to the start of record k+1. */
  lemma {:induction false} ScanStep(fs: seq<seq<int>>, k: nat)
    requires forall j :: 0 <= j < |fs| ==> Recordable(fs[j])
    requires k < |fs|
    ensures var rs := RecordsOf(fs); var buf := Concat(rs); var p := |Concat(rs[..k])|;
      && p + 16 <= |buf|
      && p + U32At(buf, p) + 13 == |Concat(rs[..k + 1])|
  {
    var rs := RecordsOf(fs);
    var buf := Concat(rs);
    var p := |Concat(rs[..k])|;
    var f := fs[k];
    RecordInChunk(fs, k);
    RecordLayout(f);
    SubSlice(buf, p, RecordBytes(f), 0, 4);
    WordAtSlice(buf, p, LE32(|f|));
    LE32RoundTrip(|f|);
  }

  lemma {:induction false} ScanRecords(fs: seq<seq<int>>, k: nat)
    requires forall j :: 0 <= j < |fs| ==> Recordable(fs[j])
    requires k <= |fs|
    ensures ScanFrom(Concat(RecordsOf(fs)), |Concat(RecordsOf(fs)[..k])|) == Ok(Starts(RecordsOf(fs))[k..])
    decreases |fs| - k
  {
    var rs := RecordsOf(fs);
    if k == |fs| {
      assert rs[..k] == rs;
      assert Starts(rs)[k..] == [];
    } else {
      ScanRecords(fs, k + 1);
      ScanRecordsStep(fs, k);
    }
  }

  /** One step of the induction above: the scan at record k reaches record k+1. */
  lemma {:induction false} ScanRecordsStep(fs: seq<seq<int>>, k: nat)
    requires forall j :: 0 <= j < |fs| ==> Recordable(fs[j])
    requires k < |fs|
    requires ScanFrom(Concat(RecordsOf(fs)), |Concat(RecordsOf(fs)[..k + 1])|) == Ok(Starts(RecordsOf(fs))[k + 1..])
    ensures ScanFrom(Concat(RecordsOf(fs)), |Concat(RecordsOf(fs)[..k])|) == Ok(Starts(RecordsOf(fs))[k..])
  {
    var rs := RecordsOf(fs);
    var st := Starts(rs);
    var buf, p, next := Concat(rs), |Concat(rs[..k])|, |Concat(rs[..k + 1])|;
    ScanStep(fs, k);
    ScanCons(buf, p, next, st[k + 1..]);
    SliceCons(st, k, p);
  }

  lemma {:induction false} SliceCons<T>(s: seq<T>, k: nat, x: T)
    requires k < |s| && s[k] == x
    ensures s[k..] == [x] + s[k + 1..]
  {
  }

  /** One step of the header scan, from a record start to the next. */
  lemma {:induction false} ScanCons(buf: seq<Byte>, i: nat, next: nat, rest: seq<nat>)
    requires i + 4 <= |buf| && next == i + U32At(buf, i) + 13 && ScanFrom(buf, next) == Ok(rest)
    ensures ScanFrom(buf, i) == Ok([i] + rest)
  {
  }

  /** What a chunk's streams decode to, one per record. */
  function Undeltas(fs: seq<seq<int>>): (ts: seq<seq<int>>)
    ensures |ts| == |fs|
  {
    seq(|fs|, j requires 0 <= j < |fs| => UndeltaFlat(fs[j]))
  }

  lemma {:induction false} DecodeLastRecord(fs: seq<seq<int>>, m: nat)
    requires forall j :: 0 <= j < |fs| ==> Recordable(fs[j])
    requires 0 < m <= |fs|
    ensures DecodeRecordAt(Concat(RecordsOf(fs)), Starts(RecordsOf(fs))[m - 1]) == Ok(UndeltaFlat(fs[m - 1]))
  {
    var rs := RecordsOf(fs);
    RecordInChunk(fs, m - 1);
    RecordDecodes(Concat(rs), Starts(rs)[m - 1], fs[m - 1]);
  }

  lemma {:induction false} UndeltasSnoc(fs: seq<seq<int>>, m: nat)
    requires 0 < m <= |fs|
    ensures Undeltas(fs[..m]) == Undeltas(fs[..m - 1]) + [UndeltaFlat(fs[m - 1])]
  {
  }

  lemma {:induction false} PrefixOfPrefix<T>(s: seq<T>, m: nat)
    requires 0 < m <= |s|
    ensures s[..m][..m - 1] == s[..m - 1]
  {
  }

  lemma {:induction false} DecodeRecords(fs: seq<seq<int>>, m: nat)
    requires forall j :: 0 <= j < |fs| ==> Recordable(fs[j])
    requires m <= |fs|
    ensures DecodeAll(Concat(RecordsOf(fs)), Starts(RecordsOf(fs))[..m]) == Ok(Undeltas(fs[..m]))
  {
    if m > 0 {
      DecodeRecords(fs, m - 1);
      DecodeLastRecord(fs, m);
      UndeltasSnoc(fs, m);
      PrefixOfPrefix(Starts(RecordsOf(fs)), m);
    }
  }

  /** A chunk written from records decodes, in order, to the prefix sums each record stores. */
  lemma {:induction false} ChunkRoundTrip(fs: seq<seq<int>>)
    requires forall j :: 0 <= j < |fs| ==> Recordable(fs[j])
    ensures DecodeChunk(Concat(RecordsOf(fs))) == Ok(Undeltas(fs))
  {
    var rs := RecordsOf(fs);
    ScanRecords(fs, 0);
    assert rs[..0] == [];
    assert Starts(rs)[0..] == Starts(rs)[..|fs|];
    DecodeRecords(fs, |fs|);
    assert fs[..|fs|] == fs;
  }

  // ---------------------------------------------------------------------------
  // Chunks and their names
  // ---------------------------------------------------------------------------

  /** A chunk is closed by the first record that takes it past 128 MB (134217728 bytes). */
  const ChunkLimit: nat := 134217728

  /**
   * How many records go into the chunk that starts at record `from`: records
   * are added until the running total exceeds the limit, the record that
   * crosses it included.
   */
  function TakeCount(sizes: seq<nat>, from: nat, total: nat): (n: nat)
    requires from <= |sizes|
    ensures from + n <= |sizes|
    ensures from < |sizes| ==> n >= 1
    decreases |sizes| - from
  {
    if from == |sizes| then 0
    else if total + sizes[from] > ChunkLimit then 1
    else 1 + TakeCount(sizes, from + 1, total + sizes[from])
  }

  function Sizes(rs: seq<seq<Byte>>): (z: seq<nat>)
    ensures |z| == |rs|
  {
    seq(|rs|, i requires 0 <= i < |rs| => |rs[i]|)
  }

  /** The chunks written for the records from `from` on, each the concatenation of its records. */
  function ChunksFrom(rs: seq<seq<Byte>>, from: nat): seq<seq<Byte>>
    requires from <= |rs|
    decreases |rs| - from
  {
    if from == |rs| then []
    else
      var n := TakeCount(Sizes(rs), from, 0);
      [Concat(rs[from..from + n])] + ChunksFrom(rs, from + n)
  }

  lemma {:induction false} ChunkHead(rs: seq<seq<Byte>>, from: nat, next: nat, rest: seq<seq<Byte>>)
    requires from <= next <= |rs|
    ensures Concat([Concat(rs[from..next])] + rest) == Concat(rs[from..next]) + Concat(rest)
    ensures Concat(rs[from..]) == Concat(rs[from..next]) + Concat(rs[next..])
  {
    var head := Concat(rs[from..next]);
    ConcatAppend([head], rest);
    assert Concat([head]) == Concat([head][..0]) + head;
    ConcatTake(rs[from..], next - from);
    assert rs[from..][..next - from] == rs[from..next] && rs[from..][next - from..] == rs[next..];
  }

  /** Chunking loses no byte and keeps the order. */
  lemma {:induction false} ChunksConcat(rs: seq<seq<Byte>>, from: nat)
    requires from <= |rs|
    ensures Concat(ChunksFrom(rs, from)) == Concat(rs[from..])
    decreases |rs| - from
  {
    if from == |rs| {
      assert rs[from..] == [];
    } else {
      var next := from + TakeCount(Sizes(rs), from, 0);
      ChunksConcat(rs, next);
      ChunkHead(rs, from, next, ChunksFrom(rs, next));
    }
  }

  /** The total size of records a .. b-1. */
  function SizeSum(sizes: seq<nat>, a: nat, b: nat): nat
    requires a <= b <= |sizes|
    decreases b
  {
    if a == b then 0 else SizeSum(sizes, a, b - 1) + sizes[b - 1]
  }

  lemma {:induction false} SizeSumCons(sizes: seq<nat>, a: nat, b: nat)
    requires a < b <= |sizes|
    ensures SizeSum(sizes, a, b) == sizes[a] + SizeSum(sizes, a + 1, b)
    decreases b
  {
    if a + 1 < b {
      SizeSumCons(sizes, a, b - 1);
    }
  }

  /**
   * Before its last record a chunk holds at most ChunkLimit bytes, and a chunk
   * that is not the last one holds more.
   */
  lemma {:induction false} TakeCountBound(sizes: seq<nat>, from: nat, total: nat)
    requires from < |sizes| && total <= ChunkLimit
    ensures var n := TakeCount(sizes, from, total);
      && total + SizeSum(sizes, from, from + n - 1) <= ChunkLimit
      && (from + n < |sizes| ==> total + SizeSum(sizes, from, from + n) > ChunkLimit)
    decreases |sizes| - from
  {
    var n := TakeCount(sizes, from, total);
    if total + sizes[from] <= ChunkLimit && from + 1 < |sizes| {
      TakeCountBound(sizes, from + 1, total + sizes[from]);
      SizeSumCons(sizes, from, from + n);
      if n > 1 {
        SizeSumCons(sizes, from, from + n - 1);
      }
    }
  }

  function Digit(d: nat): char
    requires d < 10
  {
    ('0' as int + d) as char
  }

  /** `std::to_string` of a non-negative number. */
  function NatToString(n: nat): (s: string)
    ensures |s| >= 1
    ensures n >= 10 ==> |s| >= 2
  {
    if n < 10 then [Digit(n)] else NatToString(n / 10) + [Digit(n % 10)]
  }

  lemma {:induction false} NatToStringInjective(a: nat, b: nat)
    requires NatToString(a) == NatToString(b)
    ensures a == b
  {
    if a >= 10 && b >= 10 {
      var sa, sb := NatToString(a), NatToString(b);
      assert sa[..|sa| - 1] == NatToString(a / 10) && sb[..|sb| - 1] == NatToString(b / 10);
      NatToStringInjective(a / 10, b / 10);
      assert sa[|sa| - 1] == Digit(a % 10) && sb[|sb| - 1] == Digit(b % 10);
    }
  }

  /** Chunk 0 is "track", chunk b > 0 is "track" followed by b in decimal. */
  function ChunkName(b: nat): string
  {
    if b == 0 then "track" else "track" + NatToString(b)
  }

  lemma {:induction false} ChunkNameInjective(a: nat, b: nat)
    requires ChunkName(a) == ChunkName(b)
    ensures a == b
  {
    if a != 0 && b != 0 {
      assert ChunkName(a)[5..] == NatToString(a) && ChunkName(b)[5..] == NatToString(b);
      NatToStringInjective(a, b);
    }
  }

  /** The entries the writer adds to the file for a list of chunks. */
  function SaveMap(chunks: seq<seq<Byte>>): map<string, seq<Byte>>
  {
    if chunks == [] then map[]
    else SaveMap(chunks[..|chunks| - 1])[ChunkName(|chunks| - 1) := chunks[|chunks| - 1]]
  }

  lemma {:induction false} SaveMapHas(chunks: seq<seq<Byte>>, b: nat)
    ensures ChunkName(b) in SaveMap(chunks) <==> b < |chunks|
    ensures b < |chunks| ==> SaveMap(chunks)[ChunkName(b)] == chunks[b]
  {
    if chunks != [] {
      var n := |chunks| - 1;
      SaveMapHas(chunks[..n], b);
      if ChunkName(b) == ChunkName(n) {
        ChunkNameInjective(b, n);
      }
    }
  }

  /** The names of chunks 0 .. b-1. */
  function NamesBelow(b: nat): set<string>
  {
    set i | 0 <= i < b :: ChunkName(i)
  }

  /** The chunk names of the file not yet read from block `b` on. */
  function Remaining(file: map<string, seq<Byte>>, b: nat): nat
  {
    |file.Keys - NamesBelow(b)|
  }

  lemma {:induction false} NamesBelowShrinks(file: map<string, seq<Byte>>, b: nat)
    requires ChunkName(b) in file
    ensures Remaining(file, b + 1) < Remaining(file, b)
  {
    var c := ChunkName(b);
    assert NamesBelow(b + 1) == NamesBelow(b) + {c};
    if c in NamesBelow(b) {
      var i :| 0 <= i < b && ChunkName(i) == c;
      ChunkNameInjective(i, b);
    }
    var rest := file.Keys - NamesBelow(b);
    assert file.Keys - NamesBelow(b + 1) == rest - {c};
    assert c in rest;
  }

  /** Every streamline stored in chunks b, b+1, ... of the file, as load_from_file reads them. */
  function LoadFrom(file: map<string, seq<Byte>>, b: nat): Result<seq<seq<int>>, LoadError>
    decreases Remaining(file, b)
  {
    if ChunkName(b) !in file then (if b == 0 then Err(NoTrack) else Ok([]))
    else
      NamesBelowShrinks(file, b);
      match DecodeChunk(file[ChunkName(b)])
      case Err(e) => Err(e)
      case Ok(ts) =>
        match LoadFrom(file, b + 1)
        case Err(e) => Err(e)
        case Ok(rest) => Ok(ts + rest)
  }

  // ---------------------------------------------------------------------------
  // Whole files
  // ---------------------------------------------------------------------------

  /** Quantised coordinates small enough that no displacement overflows an int32. */
  const CoordBound: int := 0x4000_0000

  /** A streamline save_to_file encodes without undefined behaviour: non-empty, whole points, bounded. */
  predicate Storable(t: seq<int>)
  {
    && |t| >= 3 && |t| % 3 == 0
    && (forall i :: 0 <= i < |t| ==> -CoordBound <= t[i] < CoordBound)
    && 3 * |Encode(ToPoints(t))| < TwoTo32
  }

  /** The ints stored for a streamline: its encoding, flattened. */
  function EncodeFlat(t: seq<int>): seq<int>
    requires |t| >= 3 && |t| % 3 == 0
  {
    Flatten(Encode(ToPoints(t)))
  }

  lemma {:induction false} EncodeRecordable(t: seq<int>)
    requires Storable(t)
    ensures Recordable(EncodeFlat(t))
  {
    var ps := ToPoints(t);
    var e := Encode(ps);
    var f := EncodeFlat(t);
    EncodeShape(ps);
    assert f[0] == e[0].x == t[0] && f[1] == e[0].y == t[1] && f[2] == e[0].z == t[2];
    forall i | 3 <= i < |f|
      ensures -128 <= f[i] < 128
    {
      assert FitsP(e[i / 3]);
    }
  }

  function StoredStreams(tracts: seq<seq<int>>): (fs: seq<seq<int>>)
    requires forall i :: 0 <= i < |tracts| ==> Storable(tracts[i])
    ensures |fs| == |tracts|
    ensures forall i :: 0 <= i < |fs| ==> Recordable(fs[i])
  {
    var fs := seq(|tracts|, i requires 0 <= i < |tracts| && Storable(tracts[i]) => EncodeFlat(tracts[i]));
    assert forall i :: 0 <= i < |fs| ==> Recordable(fs[i]) by {
      forall i | 0 <= i < |fs| { EncodeRecordable(tracts[i]); }
    }
    fs
  }

  /** The track chunks save_to_file writes for a list of streamlines. */
  function SaveFile(tracts: seq<seq<int>>): map<string, seq<Byte>>
    requires forall i :: 0 <= i < |tracts| ==> Storable(tracts[i])
  {
    SaveMap(ChunksFrom(RecordsOf(StoredStreams(tracts)), 0))
  }

  /** What a saved streamline loads back as: the prefix sums of its encoding. */
  function Reloaded(t: seq<int>): seq<int>
    requires |t| >= 3 && |t| % 3 == 0
  {
    Flatten(Running(Encode(ToPoints(t))))
  }

  lemma {:induction false} ChunkSlice(fs: seq<seq<int>>, from: nat, next: nat)
    requires forall j :: 0 <= j < |fs| ==> Recordable(fs[j])
    requires from <= next <= |fs|
    ensures AllRecordable(fs[from..next])
    ensures RecordsOf(fs)[from..next] == RecordsOf(fs[from..next])
    ensures Undeltas(fs[from..]) == Undeltas(fs[from..next]) + Undeltas(fs[next..])
  {
  }

  lemma {:induction false} LoadFromStep(file: map<string, seq<Byte>>, b: nat, c: seq<Byte>, ts: seq<seq<int>>, rest: seq<seq<int>>)
    requires ChunkName(b) in file && file[ChunkName(b)] == c
    requires DecodeChunk(c) == Ok(ts) && LoadFrom(file, b + 1) == Ok(rest)
    ensures LoadFrom(file, b) == Ok(ts + rest)
  {
  }

  /** Chunk b of the saved chunks holds the records from `from` on, up to the next chunk. */
  lemma {:induction false} ChunkAt(chunks: seq<seq<Byte>>, b: nat, rs: seq<seq<Byte>>, from: nat, next: nat)
    requires b < |chunks| && from <= |rs| && chunks[b..] == ChunksFrom(rs, from)
    requires next == from + TakeCount(Sizes(rs), from, 0)
    ensures from < next <= |rs|
    ensures chunks[b] == Concat(rs[from..next]) && chunks[b + 1..] == ChunksFrom(rs, next)
  {
    assert chunks[b + 1..] == chunks[b..][1..];
  }

  /** Chunk b decodes to the streams from `from` up to `next`, where the chunk after it starts. */
  lemma {:induction false} ChunkDecodes(chunks: seq<seq<Byte>>, b: nat, fs: seq<seq<int>>, from: nat) returns (next: nat)
    requires AllRecordable(fs) && b < |chunks| && from <= |fs|
    requires chunks[b..] == ChunksFrom(RecordsOf(fs), from)
    ensures from < next <= |fs| && chunks[b + 1..] == ChunksFrom(RecordsOf(fs), next)
    ensures DecodeChunk(chunks[b]) == Ok(Undeltas(fs[from..next]))
    ensures Undeltas(fs[from..]) == Undeltas(fs[from..next]) + Undeltas(fs[next..])
  {
    var rs := RecordsOf(fs);
    next := from + TakeCount(Sizes(rs), from, 0);
    ChunkAt(chunks, b, rs, from, next);
    ChunkSlice(fs, from, next);
    ChunkRoundTrip(fs[from..next]);
  }

  /** The file holds exactly the chunks, chunk k under ChunkName(k). */
  ghost predicate Holds(file: map<string, seq<Byte>>, chunks: seq<seq<Byte>>)
  {
    (forall k: nat :: ChunkName(k) in file <==> k < |chunks|) &&
    (forall k :: 0 <= k < |chunks| ==> file[ChunkName(k)] == chunks[k])
  }

  lemma {:induction false} SaveMapHolds(chunks: seq<seq<Byte>>)
    ensures Holds(SaveMap(chunks), chunks)
  {
    forall k: nat
      ensures ChunkName(k) in SaveMap(chunks) <==> k < |chunks|
      ensures k < |chunks| ==> SaveMap(chunks)[ChunkName(k)] == chunks[k]
    {
      SaveMapHas(chunks, k);
    }
  }

  lemma {:induction false} LoadChunks(file: map<string, seq<Byte>>, chunks: seq<seq<Byte>>, b: nat, fs: seq<seq<int>>, from: nat)
    requires Holds(file, chunks) && AllRecordable(fs)
    requires b <= |chunks| && from <= |fs|
    requires chunks[b..] == ChunksFrom(RecordsOf(fs), from)
    requires b > 0 || from < |fs|
    ensures LoadFrom(file, b) == Ok(Undeltas(fs[from..]))
    decreases |chunks| - b
  {
    if b == |chunks| {
      assert ChunkName(b) !in file;
      assert fs[from..] == [];
    } else {
      var next := ChunkDecodes(chunks, b, fs, from);
      LoadChunks(file, chunks, b + 1, fs, next);
      LoadFromStep(file, b, chunks[b], Undeltas(fs[from..next]), Undeltas(fs[next..]));
    }
  }

  lemma {:induction false} ReloadedStreams(tracts: seq<seq<int>>)
    requires forall i :: 0 <= i < |tracts| ==> Storable(tracts[i])
    ensures Undeltas(StoredStreams(tracts)) == seq(|tracts|, i requires 0 <= i < |tracts| => Reloaded(tracts[i]))
  {
    forall i | 0 <= i < |tracts|
      ensures Undeltas(StoredStreams(tracts))[i] == Reloaded(tracts[i])
    {
      UndeltaFlatPoints(Encode(ToPoints(tracts[i])));
    }
  }

  /**
   * Loading what save_to_file wrote gives back every streamline, in order,
   * as the prefix sums of its encoding; a file written for no streamline has
   * no "track" chunk and does not load.
   */
  lemma {:induction false} SaveLoadRoundTrip(tracts: seq<seq<int>>)
    requires forall i :: 0 <= i < |tracts| ==> Storable(tracts[i])
    ensures |tracts| == 0 ==> LoadFrom(SaveFile(tracts), 0) == Err(NoTrack)
    ensures |tracts| > 0 ==>
      LoadFrom(SaveFile(tracts), 0) == Ok(seq(|tracts|, i requires 0 <= i < |tracts| => Reloaded(tracts[i])))
  {
    var fs := StoredStreams(tracts);
    var chunks := ChunksFrom(RecordsOf(fs), 0);
    if |tracts| == 0 {
      SaveMapHas(chunks, 0);
    } else {
      assert chunks[0..] == chunks;
      SaveMapHolds(chunks);
      LoadChunks(SaveFile(tracts), chunks, 0, fs, 0);
      assert fs[0..] == fs;
      ReloadedStreams(tracts);
    }
  }

  /** A streamline with no leap between consecutive points loads back exactly. */
  lemma {:induction false} ReloadedExact(t: seq<int>)
    requires |t| >= 3 && |t| % 3 == 0 && NoLeap(Deltas(ToPoints(t)))
    ensures Reloaded(t) == t
  {
    var ps := ToPoints(t);
    EncodeShape(ps);
    RunningDeltas(ps);
    FlattenToPoints(t);
  }

  // ---------------------------------------------------------------------------
  // The encoder of save_to_file
  // ---------------------------------------------------------------------------

  lemma {:induction false} ToPointsAt(f: seq<int>, q: nat, a: nat)
    requires |f| % 3 == 0 && 3 * q + a < |f| && a < 3
    ensures q < |ToPoints(f)| && Coord(ToPoints(f)[q], a) == f[3 * q + a]
  {
  }

  /** The flat form of Deltas: each int minus the same axis of the previous point. */
  lemma {:induction false} DeltasFlat(o: seq<int>, t: seq<int>)
    requires |o| == |t| && |o| % 3 == 0
    requires forall i :: 0 <= i < |t| ==> t[i] == if i < 3 then o[i] else o[i] - o[i - 3]
    ensures t == Flatten(Deltas(ToPoints(o)))
  {
    var ps := ToPoints(o);
    forall k | 0 <= k < |ps|
      ensures ToPoints(t)[k] == Deltas(ps)[k]
    {
      assert t[3 * k] == if k == 0 then o[0] else o[3 * k] - o[3 * k - 3];
      assert t[3 * k + 1] == if k == 0 then o[1] else o[3 * k + 1] - o[3 * k - 2];
      assert t[3 * k + 2] == if k == 0 then o[2] else o[3 * k + 2] - o[3 * k - 1];
    }
    assert ToPoints(t) == Deltas(ps);
    FlattenToPoints(t);
  }

  /** Every int after the first point fits a byte: no point after the first leaps. */
  lemma {:induction false} NoLeapFlat(f: seq<int>)
    requires |f| % 3 == 0 && forall i :: 3 <= i < |f| ==> Fits(f[i])
    ensures NoLeap(ToPoints(f))
  {
    forall k | 1 <= k < |f| / 3
      ensures FitsP(ToPoints(f)[k])
    {
      ToPointsAt(f, k, 0);
      ToPointsAt(f, k, 1);
      ToPointsAt(f, k, 2);
    }
  }

  /** The displacement pass: from the last int back to the fourth, subtract the int three before. */
  method DeltaInPlace(t32: array<int>)
    requires t32.Length >= 3 && t32.Length % 3 == 0
    modifies t32
    ensures t32[..] == Flatten(Deltas(ToPoints(old(t32[..]))))
  {
    ghost var o := t32[..];
    var j := t32.Length - 1;
    while j >= 3
      invariant 2 <= j < t32.Length
      invariant forall i :: 0 <= i <= j ==> t32[i] == o[i]
      invariant forall i :: j < i < t32.Length ==> t32[i] == o[i] - o[i - 3]
    {
      t32[j] := t32[j] - t32[j - 3];
      j := j - 1;
    }
    DeltasFlat(o, t32[..]);
  }

  /** The point whose ints start at j, or the origin past the end. */
  function PointAt(t: seq<int>, j: int): P3
  {
    if 0 <= j && j + 3 <= |t| then P3(t[j], t[j + 1], t[j + 2]) else Origin
  }

  /** A whole point starts at every multiple of three inside a whole-point stream. */
  lemma {:induction false} Room(n: nat, j: nat)
    requires n % 3 == 0 && j % 3 == 0 && j < n
    ensures j + 3 <= n
  {
    assert n == 3 * (n / 3) && j == 3 * (j / 3);
  }

  lemma {:induction false} PointAtIsPoint(t: seq<int>, j: nat, k: nat)
    requires |t| % 3 == 0 && j == 3 * k && j < |t|
    ensures k < |ToPoints(t)| && PointAt(t, j) == ToPoints(t)[k]
  {
    Room(|t|, j);
  }

  /**
   * The ints the leap-splitting pass emits from position j of the displacement
   * stream o on, when the point at j currently holds r: a leaping point after
   * the first emits its halved step and is revisited holding the residual, any
   * other point is emitted as it is and the pass moves to the next one.
   */
  ghost function Emitted(o: seq<int>, j: nat, r: P3): seq<int>
    requires |o| % 3 == 0 && j % 3 == 0
    decreases |o| - j, Size(r)
  {
    if j >= |o| then []
    else if j != 0 && !FitsP(r) then
      ResidualShrinks(r);
      var h := Halve(r);
      [h.x, h.y, h.z] + Emitted(o, j, Sub(r, h))
    else [r.x, r.y, r.z] + Emitted(o, j + 3, PointAt(o, j + 3))
  }

  /** A point after the first that does not fit: its halved step is emitted and subtracted. */
  lemma {:induction false} EmitHalf(o: seq<int>, j: nat, r: P3)
    requires |o| % 3 == 0 && j % 3 == 0 && 0 < j < |o| && !FitsP(r)
    ensures Size(Sub(r, Halve(r))) < Size(r)
    ensures var h := Halve(r); Emitted(o, j, r) == [h.x, h.y, h.z] + Emitted(o, j, Sub(r, h))
  {
    ResidualShrinks(r);
  }

  /** A point that fits, or the first point, is emitted as it is and the pass moves on. */
  lemma {:induction false} EmitWhole(o: seq<int>, j: nat, next: nat, r: P3)
    requires |o| % 3 == 0 && j % 3 == 0 && j < |o| && next == j + 3 && (j == 0 || FitsP(r))
    ensures next % 3 == 0
    ensures Emitted(o, j, r) == [r.x, r.y, r.z] + Emitted(o, next, PointAt(o, next))
  {
    StepOfThree(j, next);
  }

  lemma {:induction false} StepOfThree(j: nat, next: nat)
    requires j % 3 == 0 && next == j + 3
    ensures next % 3 == 0
  {
  }

  lemma {:induction false} AppendShift<T>(front: seq<T>, piece: seq<T>, rest: seq<T>, all: seq<T>)
    requires front + (piece + rest) == all
    ensures (front + piece) + rest == all
  {
  }

  /** A displacement that fits is emitted as it is. */
  lemma {:induction false} FlatPiecesFit(r: P3)
    requires FitsP(r)
    ensures Flatten(Pieces(r)) == [r.x, r.y, r.z]
  {
    FlattenOne(r);
  }

  /** A displacement that does not fit is emitted as its halved step, then the pieces of the rest. */
  lemma {:induction false} FlatPiecesStep(r: P3)
    requires !FitsP(r)
    ensures Size(Sub(r, Halve(r))) < Size(r)
    ensures var h := Halve(r); Flatten(Pieces(r)) == [h.x, h.y, h.z] + Flatten(Pieces(Sub(r, h)))
  {
    var h := Halve(r);
    ResidualShrinks(r);
    FlattenAppend([h], Pieces(Sub(r, h)));
    FlattenOne(h);
  }

  /** At a point after the first, the pass emits the pieces of what it holds, then moves on. */
  lemma {:induction false} EmittedPieces(o: seq<int>, j: nat, r: P3)
    requires |o| % 3 == 0 && j % 3 == 0 && 0 < j < |o|
    ensures Emitted(o, j, r) == Flatten(Pieces(r)) + Emitted(o, j + 3, PointAt(o, j + 3))
    decreases Size(r)
  {
    var next := j + 3;
    if FitsP(r) {
      EmitWhole(o, j, next, r);
      FlatPiecesFit(r);
    } else {
      var h := Halve(r);
      EmitHalf(o, j, r);
      FlatPiecesStep(r);
      EmittedPieces(o, j, Sub(r, h));
      AppendShift([h.x, h.y, h.z], Flatten(Pieces(Sub(r, h))), Emitted(o, next, PointAt(o, next)),
                  Emitted(o, j, r));
    }
  }

  /** From a point after the first on, the pass emits the pieces of every remaining displacement. */
  lemma {:induction false} EmittedIsSplitTail(o: seq<int>, j: nat, k: nat)
    requires |o| % 3 == 0 && j % 3 == 0 && 0 < k && j == 3 * k && j <= |o|
    ensures k <= |ToPoints(o)|
    ensures Emitted(o, j, PointAt(o, j)) == Flatten(SplitTail(ToPoints(o)[k..]))
    decreases |o| - j
  {
    if j == |o| {
      assert ToPoints(o)[k..] == [];
    } else {
      EmittedIsSplitTail(o, j + 3, k + 1);
      EmittedSplitStep(o, j, k);
    }
  }

  /** One step of the induction above: the pieces of point k, then the rest. */
  lemma {:induction false} EmittedSplitStep(o: seq<int>, j: nat, k: nat)
    requires |o| % 3 == 0 && j % 3 == 0 && 0 < k && j == 3 * k && j < |o|
    requires Emitted(o, j + 3, PointAt(o, j + 3)) == Flatten(SplitTail(ToPoints(o)[k + 1..]))
    ensures Emitted(o, j, PointAt(o, j)) == Flatten(SplitTail(ToPoints(o)[k..]))
  {
    var ds := ToPoints(o);
    EmittedPieces(o, j, PointAt(o, j));
    PointAtIsPoint(o, j, k);
    SplitTailCons(ds, k);
    FlattenAppend(Pieces(ds[k]), SplitTail(ds[k + 1..]));
  }

  /** The whole pass emits the split stream. */
  lemma {:induction false} EmittedIsSplit(o: seq<int>)
    requires |o| >= 3 && |o| % 3 == 0
    ensures Emitted(o, 0, PointAt(o, 0)) == Flatten(Split(ToPoints(o)))
  {
    var ds := ToPoints(o);
    EmittedIsSplitTail(o, 3, 1);
    PointAtIsPoint(o, 0, 0);
    FlattenAppend([ds[0]], SplitTail(ds[1..]));
    FlattenOne(ds[0]);
  }

  lemma {:induction false} SplitTailCons(ds: seq<P3>, k: nat)
    requires k < |ds|
    ensures SplitTail(ds[k..]) == Pieces(ds[k]) + SplitTail(ds[k + 1..])
  {
    assert ds[k..][1..] == ds[k + 1..];
  }

  /**
   * The leap-splitting pass. A point after the first whose displacement does
   * not fit is halved on all axes until it does; the halved step is emitted,
   * subtracted from the stored displacement, and the same point is processed
   * again (`j -= 3`).
   */
  method SplitLeaps(t32: array<int>) returns (out: seq<int>)
    requires t32.Length >= 3 && t32.Length % 3 == 0
    modifies t32
    ensures out == Flatten(Split(ToPoints(old(t32[..]))))
  {
    ghost var o := t32[..];
    ghost var cur := PointAt(o, 0);
    out := [];
    var j := 0;
    while j < t32.Length
      invariant 0 <= j <= t32.Length && j % 3 == 0
      invariant forall i :: j + 3 <= i < t32.Length ==> t32[i] == o[i]
      invariant j < t32.Length ==> j + 3 <= t32.Length && cur == P3(t32[j], t32[j + 1], t32[j + 2])
      invariant out + Emitted(o, j, cur) == Emitted(o, 0, PointAt(o, 0))
      decreases t32.Length - j, Size(cur)
    {
      var x, y, z, interpolated := HalveToFit(t32[j], t32[j + 1], t32[j + 2], j);
      if interpolated {
        EmitHalf(o, j, cur);
        ResidualShrinks(cur);
        AppendShift(out, [x, y, z], Emitted(o, j, Sub(cur, P3(x, y, z))), Emitted(o, 0, PointAt(o, 0)));
        out := out + [x, y, z];
        SubtractAt(t32, j, P3(x, y, z));
        cur := Sub(cur, P3(x, y, z));
      } else {
        var next := j + 3;
        EmitWhole(o, j, next, cur);
        AppendShift(out, [x, y, z], Emitted(o, next, PointAt(o, next)), Emitted(o, 0, PointAt(o, 0)));
        out := out + [x, y, z];
        if next < t32.Length {
          Room(t32.Length, next);
        }
        j := next;
        cur := PointAt(o, next);
      }
    }
    EmittedIsSplit(o);
  }

  /** Subtracts the emitted step from the stored displacement at j. */
  method SubtractAt(t32: array<int>, j: nat, h: P3)
    requires j + 3 <= t32.Length
    modifies t32
    ensures P3(t32[j], t32[j + 1], t32[j + 2]) == Sub(old(P3(t32[j], t32[j + 1], t32[j + 2])), h)
    ensures forall i :: 0 <= i < t32.Length && (i < j || j + 3 <= i) ==> t32[i] == old(t32[i])
  {
    t32[j] := t32[j] - h.x;
    t32[j + 1] := t32[j + 1] - h.y;
    t32[j + 2] := t32[j + 2] - h.z;
  }

  /**
   * The inner halving loop of the leap-splitting pass; it never runs for the
   * first point (j == 0).
   */
  method HalveToFit(x0: int, y0: int, z0: int, j: int) returns (x: int, y: int, z: int, interpolated: bool)
    ensures interpolated <==> j != 0 && !FitsP(P3(x0, y0, z0))
    ensures P3(x, y, z) == if j != 0 then Halve(P3(x0, y0, z0)) else P3(x0, y0, z0)
  {
    x, y, z := x0, y0, z0;
    interpolated := false;
    while j != 0 && (x < -127 || x > 127 || y < -127 || y > 127 || z < -127 || z > 127)
      invariant j != 0 ==> Halve(P3(x, y, z)) == Halve(P3(x0, y0, z0))
      invariant interpolated ==> j != 0 && !FitsP(P3(x0, y0, z0))
      invariant !interpolated ==> P3(x, y, z) == P3(x0, y0, z0)
      decreases Size(P3(x, y, z))
    {
      HalfPFacts(P3(x, y, z));
      x, y, z := HalfTrunc(x), HalfTrunc(y), HalfTrunc(z);
      interpolated := true;
    }
  }

  /** The `has_leap` scan: some int after the first point does not fit a byte. */
  method HasLeap(t32: array<int>) returns (leap: bool)
    ensures !leap <==> forall i :: 3 <= i < t32.Length ==> Fits(t32[i])
  {
    leap := false;
    var j := 3;
    while j < t32.Length
      invariant 3 <= j
      invariant forall i :: 3 <= i < j && i < t32.Length ==> Fits(t32[i])
    {
      if t32[j] < -127 || t32[j] > 127 {
        leap := true;
        return;
      }
      j := j + 1;
    }
  }

  /** The integer encoding of one streamline, as save_to_file computes it. */
  method EncodeTrack(t: seq<int>) returns (e: seq<int>)
    requires |t| >= 3 && |t| % 3 == 0
    ensures e == EncodeFlat(t)
  {
    var t32 := new int[|t|](i requires 0 <= i < |t| => t[i]);
    assert t32[..] == t;
    DeltaInPlace(t32);
    var hasLeap := HasLeap(t32);
    ghost var ds := Deltas(ToPoints(t));
    ToPointsFlatten(ds);
    if hasLeap {
      e := SplitLeaps(t32);
    } else {
      NoLeapFlat(t32[..]);
      SplitWithoutLeap(ds);
      e := t32[..];
    }
  }

  // ---------------------------------------------------------------------------
  // The chunk writer of save_to_file
  // ---------------------------------------------------------------------------

  /** The header loop: the 16 header bytes are copied to byte p on. */
  method PutHeader(out: array<Byte>, p: nat, hr: seq<Byte>)
    requires |hr| == 16 && p + 16 <= out.Length
    modifies out
    ensures out[p..p + 16] == hr
    ensures forall i :: 0 <= i < out.Length && !(p <= i < p + 16) ==> out[i] == old(out[i])
  {
    for j := 0 to 16
      invariant forall i :: 0 <= i < out.Length && !(p <= i < p + j) ==> out[i] == old(out[i])
      invariant forall i :: 0 <= i < j ==> out[p + i] == hr[i]
    {
      out[p + j] := hr[j];
    }
  }

  /** The loop `out[j + shift] = char(t[j])` for j from 3 on, with `shift`
      the record start plus 13. */
  method PutChars(out: array<Byte>, q: nat, f: seq<int>)
    requires 3 <= |f| && q + |f| <= out.Length
    modifies out
    ensures out[q + 3..q + |f|] == seq(|f| - 3, i requires 0 <= i < |f| - 3 => ByteOf(f[3 + i]))
    ensures forall i :: 0 <= i < out.Length && !(q + 3 <= i < q + |f|) ==> out[i] == old(out[i])
  {
    for j := 3 to |f|
      invariant forall i :: 0 <= i < out.Length && !(q + 3 <= i < q + j) ==> out[i] == old(out[i])
      invariant forall i :: 3 <= i < j ==> out[q + i] == ByteOf(f[i])
    {
      out[q + j] := ByteOf(f[j]);
    }
  }

  /** Writes one record at byte p of a chunk buffer: the 16-byte header, then one char per later int. */
  method WriteRecord(out: array<Byte>, p: nat, f: seq<int>, ghost front: seq<Byte>)
    requires 3 <= |f|
    requires p + 13 + |f| <= out.Length && out[..p] == front
    modifies out
    ensures out[p..p + 13 + |f|] == RecordBytes(f)
    ensures out[..p + 13 + |f|] == front + RecordBytes(f)
    ensures forall i :: 0 <= i < out.Length && !(p <= i < p + 13 + |f|) ==> out[i] == old(out[i])
  {
    PutHeader(out, p, Header(f));
    ghost var h := out[p..p + 16];
    PutChars(out, p + 13, f);
    assert out[p..p + 16] == h by {
      forall i | p <= i < p + 16
        ensures out[i] == h[i - p]
      {
      }
    }
    assert out[p..p + 13 + |f|] == out[p..p + 16] + out[p + 16..p + 13 + |f|];
    assert out[..p] == old(out[..p]);
    assert out[..p + 13 + |f|] == out[..p] + out[p..p + 13 + |f|];
  }

  lemma {:induction false} ConcatRangeSnoc<T>(rs: seq<seq<T>>, a: nat, b: nat)
    requires a <= b < |rs|
    ensures Concat(rs[a..b + 1]) == Concat(rs[a..b]) + rs[b]
  {
    ConcatSnoc(rs[a..], b - a);
    assert rs[a..][..b - a + 1] == rs[a..b + 1] && rs[a..][..b - a] == rs[a..b];
  }

  /** The sequences rs[a] .. rs[b-1], laid end to end. */
  function ConcatRange<T>(rs: seq<seq<T>>, a: nat, b: nat): seq<T>
    requires a <= b <= |rs|
    decreases b
  {
    if a == b then [] else ConcatRange(rs, a, b - 1) + rs[b - 1]
  }

  lemma {:induction false} ConcatRangeIsConcat<T>(rs: seq<seq<T>>, a: nat, b: nat)
    requires a <= b <= |rs|
    ensures ConcatRange(rs, a, b) == Concat(rs[a..b])
    decreases b
  {
    if a < b {
      ConcatRangeIsConcat(rs, a, b - 1);
      ConcatRangeSnoc(rs, a, b - 1);
    } else {
      assert rs[a..b] == [];
    }
  }

  lemma {:induction false} SizeSumGrow(sizes: seq<nat>, a: nat, m: nat, b: nat)
    requires a <= m <= b <= |sizes|
    ensures SizeSum(sizes, a, m) <= SizeSum(sizes, a, b)
    decreases b
  {
    if m < b {
      SizeSumGrow(sizes, a, m, b - 1);
    }
  }

  lemma {:induction false} SizeSumBounded(sizes: seq<nat>, a: nat, b: nat)
    requires a <= b <= |sizes|
    ensures forall m :: a <= m <= b ==> SizeSum(sizes, a, m) <= SizeSum(sizes, a, b)
  {
    forall m | a <= m <= b
      ensures SizeSum(sizes, a, m) <= SizeSum(sizes, a, b)
    {
      SizeSumGrow(sizes, a, m, b);
    }
  }

  /**
   * Where each record of the chunk starting at record `cur` goes: offsets
   * are the running total of the record sizes, and the chunk ends with the
   * record that takes the total past 128 MiB, or with the last record.
   */
  method ChunkExtent(sizes: seq<nat>, cur: nat) returns (pos: seq<nat>, total: nat)
    requires cur < |sizes|
    ensures |pos| == TakeCount(sizes, cur, 0) && cur + |pos| <= |sizes|
    ensures forall k :: 0 <= k < |pos| ==> pos[k] == SizeSum(sizes, cur, cur + k)
    ensures total == SizeSum(sizes, cur, cur + |pos|)
  {
    total := 0;
    pos := [];
    var i := cur;
    while i < |sizes|
      invariant cur <= i <= |sizes| && |pos| == i - cur && total <= ChunkLimit
      invariant total == SizeSum(sizes, cur, i)
      invariant forall k :: 0 <= k < |pos| ==> pos[k] == SizeSum(sizes, cur, cur + k)
      invariant TakeCount(sizes, cur, 0) == |pos| + TakeCount(sizes, i, total)
    {
      pos := pos + [total];
      total := total + sizes[i];
      i := i + 1;
      if total > ChunkLimit {
        break;
      }
    }
  }

  /** Writes record cur+k right after records cur .. cur+k-1, which fill the first p bytes. */
  method PlaceRecord(out: array<Byte>, fs: seq<seq<int>>, ghost rs: seq<seq<Byte>>, sizes: seq<nat>,
                     cur: nat, k: nat, p: nat) returns (q: nat)
    requires |fs| == |rs| == |sizes| && cur + k < |fs|
    requires 3 <= |fs[cur + k]| && rs[cur + k] == RecordBytes(fs[cur + k])
    requires sizes[cur + k] == 16 + |fs[cur + k]| - 3
    requires p == SizeSum(sizes, cur, cur + k) && SizeSum(sizes, cur, cur + k + 1) <= out.Length
    requires out[..p] == ConcatRange(rs, cur, cur + k)
    modifies out
    ensures q == SizeSum(sizes, cur, cur + k + 1) <= out.Length
    ensures out[..q] == ConcatRange(rs, cur, cur + k + 1)
  {
    WriteRecord(out, p, fs[cur + k], ConcatRange(rs, cur, cur + k));
    q := p + sizes[cur + k];
  }

  /**
   * Writes the records cur .. cur+n-1 at their offsets into one buffer:
   * the chunk holds as many records as the 128 MiB rule admits, laid end to end.
   */
  method WriteChunk(fs: seq<seq<int>>, ghost rs: seq<seq<Byte>>, sizes: seq<nat>, cur: nat)
      returns (chunk: seq<Byte>, n: nat)
    requires |fs| == |rs| == |sizes| && cur < |fs|
    requires forall k :: 0 <= k < |fs| ==> 3 <= |fs[k]| && rs[k] == RecordBytes(fs[k])
    requires forall k :: 0 <= k < |fs| ==> sizes[k] == 16 + |fs[k]| - 3
    ensures n == TakeCount(sizes, cur, 0) && cur + n <= |fs|
    ensures chunk == ConcatRange(rs, cur, cur + n)
  {
    var pos, total := ChunkExtent(sizes, cur);
    n := |pos|;
    var out := new Byte[total];
    ghost var written := 0;
    SizeSumBounded(sizes, cur, cur + n);
    for k := 0 to n
      invariant written == SizeSum(sizes, cur, cur + k)
      invariant out[..written] == ConcatRange(rs, cur, cur + k)
    {
      written := PlaceRecord(out, fs, rs, sizes, cur, k, pos[k]);
    }
    chunk := out[..];
  }

  /** Encodes every streamline and notes the size of its record. */
  method EncodeAll(tracts: seq<seq<int>>) returns (track32: seq<seq<int>>, bufSize: seq<nat>)
    requires forall i :: 0 <= i < |tracts| ==> Storable(tracts[i])
    ensures track32 == StoredStreams(tracts) && |bufSize| == |tracts|
    ensures forall k :: 0 <= k < |tracts| ==> bufSize[k] == 16 + |track32[k]| - 3
  {
    ghost var stored := StoredStreams(tracts);
    track32 := [];
    bufSize := [];
    for i := 0 to |tracts|
      invariant track32 == stored[..i] && |bufSize| == i
      invariant forall k :: 0 <= k < i ==> bufSize[k] == 16 + |track32[k]| - 3
    {
      var e := EncodeTrack(tracts[i]);
      assert stored[..i + 1] == track32 + [e];
      track32 := track32 + [e];
      bufSize := bufSize + [16 + |e| - 3];
    }
    assert track32 == stored;
  }

  lemma {:induction false} SaveMapSnoc(chunks: seq<seq<Byte>>, c: seq<Byte>, n: nat)
    requires n == |chunks|
    ensures SaveMap(chunks + [c]) == SaveMap(chunks)[ChunkName(n) := c]
  {
    assert (chunks + [c])[..|chunks|] == chunks;
  }

  /** The chunk that starts at record cur holds records cur .. cur+n-1. */
  lemma {:induction false} ChunksFromStep(rs: seq<seq<Byte>>, sizes: seq<nat>, cur: nat, n: nat, chunk: seq<Byte>, next: nat)
    requires cur < |rs| && sizes == Sizes(rs) && n == TakeCount(sizes, cur, 0) && cur + n <= |rs|
    requires chunk == ConcatRange(rs, cur, cur + n) && next == cur + n
    ensures ChunksFrom(rs, cur) == [chunk] + ChunksFrom(rs, next)
  {
    ConcatRangeIsConcat(rs, cur, cur + n);
    ChunksFromUnfold(rs, cur, n, next);
  }

  lemma {:induction false} ChunksFromUnfold(rs: seq<seq<Byte>>, from: nat, n: nat, next: nat)
    requires from < |rs| && n == TakeCount(Sizes(rs), from, 0) && next == from + n
    ensures next <= |rs| && ChunksFrom(rs, from) == [Concat(rs[from..next])] + ChunksFrom(rs, next)
  {
  }

  /** Taking the head of what is left moves it to the end of what is taken. */
  lemma {:induction false} TakeHead<T>(all: seq<T>, front: seq<T>, x: T, rest: seq<T>)
    requires |front| <= |all| && front == all[..|front|] && all[|front|..] == [x] + rest
    ensures |front + [x]| <= |all| && front + [x] == all[..|front + [x]|] && all[|front + [x]|..] == rest
  {
    var i := |front|;
    assert all[i..][0] == x;
    assert all[i + 1..] == all[i..][1..];
  }

  /**
   * Writes the chunks "track", "track1", ... until every record is placed:
   * the chunks are collected in order, and chunk b is stored under ChunkName(b).
   */
  method WriteChunks(fs: seq<seq<int>>, ghost rs: seq<seq<Byte>>, sizes: seq<nat>)
      returns (file: map<string, seq<Byte>>)
    requires |fs| == |rs| == |sizes| && sizes == Sizes(rs)
    requires forall k :: 0 <= k < |fs| ==> 3 <= |fs[k]| && rs[k] == RecordBytes(fs[k])
    requires forall k :: 0 <= k < |fs| ==> sizes[k] == 16 + |fs[k]| - 3
    ensures file == SaveMap(ChunksFrom(rs, 0))
  {
    ghost var all := ChunksFrom(rs, 0);
    var chunks: seq<seq<Byte>> := [];
    var cur := 0;
    while cur < |fs|
      invariant cur <= |fs| && |chunks| <= |all|
      invariant chunks == all[..|chunks|] && all[|chunks|..] == ChunksFrom(rs, cur)
      decreases |fs| - cur
    {
      var chunk, n := WriteChunk(fs, rs, sizes, cur);
      var next := cur + n;
      ChunksFromStep(rs, sizes, cur, n, chunk, next);
      TakeHead(all, chunks, chunk, ChunksFrom(rs, next));
      chunks := chunks + [chunk];
      cur := next;
    }
    assert chunks == all;
    file := SaveMap(chunks);
  }

  /** The records of encoded streamlines, and the sizes save_to_file computes for them. */
  lemma {:induction false} RecordsOfFacts(fs: seq<seq<int>>, sizes: seq<nat>)
    requires |fs| == |sizes| && AllRecordable(fs)
    requires forall k :: 0 <= k < |fs| ==> sizes[k] == 16 + |fs[k]| - 3
    ensures sizes == Sizes(RecordsOf(fs))
    ensures forall k :: 0 <= k < |fs| ==> 3 <= |fs[k]| && RecordsOf(fs)[k] == RecordBytes(fs[k])
  {
  }

  /**
   * save_to_file's streamline part: encode every streamline, then write the
   * chunks "track", "track1", ... until every record is placed.
   */
  method SaveToFile(tracts: seq<seq<int>>) returns (file: map<string, seq<Byte>>)
    requires forall i :: 0 <= i < |tracts| ==> Storable(tracts[i])
    ensures file == SaveFile(tracts)
  {
    var track32, bufSize := EncodeAll(tracts);
    RecordsOfFacts(track32, bufSize);
    file := WriteChunks(track32, RecordsOf(track32), bufSize);
  }

  // ---------------------------------------------------------------------------
  // The decoder of load_from_file
  // ---------------------------------------------------------------------------

  /** Puts `front` before what a later step yields, or passes its error on. */
  function Then<T>(front: seq<T>, r: Result<seq<T>, LoadError>): Result<seq<T>, LoadError>
  {
    match r
    case Ok(rest) => Ok(front + rest)
    case Err(e) => Err(e)
  }

  lemma {:induction false} ThenNil<T>(r: Result<seq<T>, LoadError>)
    ensures Then([], r) == r
    ensures r.Ok? ==> Then(r.value, Ok([])) == r
  {
    if r.Ok? {
      assert [] + r.value == r.value + [] == r.value;
    }
  }

  lemma {:induction false} ThenThen<T>(a: seq<T>, b: seq<T>, r: Result<seq<T>, LoadError>)
    ensures Then(a, Then(b, r)) == Then(a + b, r)
  {
    if r.Ok? {
      assert a + (b + r.value) == (a + b) + r.value;
    }
  }

  /** Once a prefix of the records fails, decoding the whole chunk fails the same way. */
  lemma {:induction false} DecodeAllFails(buf: seq<Byte>, pos: seq<nat>, m: nat)
    requires m <= |pos| && DecodeAll(buf, pos[..m]).Err?
    ensures DecodeAll(buf, pos) == DecodeAll(buf, pos[..m])
    decreases |pos| - m
  {
    if m < |pos| {
      var n := |pos| - 1;
      assert pos[..n][..m] == pos[..m];
      DecodeAllFails(buf, pos[..n], m);
      assert pos[..|pos|] == pos;
    } else {
      assert pos[..m] == pos;
    }
  }

  /** The header scan of one chunk: where each record starts. */
  method ScanChunk(buf: seq<Byte>) returns (r: Result<seq<nat>, LoadError>)
    ensures r == ScanFrom(buf, 0)
  {
    var pos: seq<nat> := [];
    var i := 0;
    ThenNil(ScanFrom(buf, 0));
    while i < |buf|
      invariant ScanFrom(buf, 0) == Then(pos, ScanFrom(buf, i))
      decreases |buf| - i
    {
      if i + 4 > |buf| {
        return Err(Undefined);
      }
      assert ScanFrom(buf, i) == Then([i], ScanFrom(buf, i + U32At(buf, i) + 13));
      ThenThen(pos, [i], ScanFrom(buf, i + U32At(buf, i) + 13));
      pos := pos + [i];
      i := i + U32At(buf, i) + 13;
    }
    ThenNil(Ok(pos));
    return Ok(pos);
  }

  /** Decodes the record at `pos`: header, then the prefix sums of the stored bytes. */
  method DecodeRecord(buf: seq<Byte>, pos: nat) returns (r: Result<seq<int>, LoadError>)
    ensures r == DecodeRecordAt(buf, pos)
  {
    if pos + 16 > |buf| {
      return Err(Undefined);
    }
    var count := U32At(buf, pos);
    if count > |buf| {
      return Ok([]);
    }
    if count < 3 || pos + 13 + count > |buf| {
      return Err(Undefined);
    }
    ghost var s := StoredInts(buf, pos, count);
    var cur := new int[count];
    cur[0], cur[1], cur[2] := I32At(buf, pos + 4), I32At(buf, pos + 8), I32At(buf, pos + 12);
    var shift := pos + 13;
    var j := 3;
    while j < count
      invariant 3 <= j <= count
      invariant forall k :: 0 <= k < j ==> cur[k] == PrefixAt(s, k)
    {
      cur[j] := cur[j - 3] + SignedByte(buf[shift + j]);
      j := j + 1;
    }
    assert cur[..] == UndeltaFlat(s);
    return Ok(cur[..]);
  }

  /** Decodes every record of one chunk, in order. */
  method DecodeChunkRecords(buf: seq<Byte>) returns (r: Result<seq<seq<int>>, LoadError>)
    ensures r == DecodeChunk(buf)
  {
    var scan := ScanChunk(buf);
    if scan.Err? {
      return Err(scan.error);
    }
    var pos := scan.value;
    var ts: seq<seq<int>> := [];
    var i := 0;
    while i < |pos|
      invariant i <= |pos|
      invariant DecodeAll(buf, pos[..i]) == Ok(ts)
    {
      var t := DecodeRecord(buf, pos[i]);
      assert pos[..i + 1][..i] == pos[..i];
      if t.Err? {
        DecodeAllFails(buf, pos, i + 1);
        return Err(t.error);
      }
      ts := ts + [t.value];
      i := i + 1;
    }
    assert pos[..i] == pos;
    return Ok(ts);
  }

  /** One more chunk of load_from_file: its records follow those read so
      far, or its failure is the outcome of the whole load. */
  lemma {:induction false} LoadStep(file: map<string, seq<Byte>>, b: nat, tracts: seq<seq<int>>)
    requires ChunkName(b) in file && LoadFrom(file, 0) == Then(tracts, LoadFrom(file, b))
    ensures var d := DecodeChunk(file[ChunkName(b)]);
      && (d.Err? ==> LoadFrom(file, 0) == Err(d.error))
      && (d.Ok? ==> LoadFrom(file, 0) == Then(tracts + d.value, LoadFrom(file, b + 1)))
  {
    NamesBelowShrinks(file, b);
    var d := DecodeChunk(file[ChunkName(b)]);
    if d.Ok? {
      ThenThen(tracts, d.value, LoadFrom(file, b + 1));
    }
  }

  /** The body of the block loop: chunk `b` is decoded and its streamlines
      appended to those read so far. */
  method LoadBlock(file: map<string, seq<Byte>>, b: nat, tracts: seq<seq<int>>) returns (r: Result<seq<seq<int>>, LoadError>)
    requires ChunkName(b) in file && LoadFrom(file, 0) == Then(tracts, LoadFrom(file, b))
    ensures r.Err? ==> LoadFrom(file, 0) == r
    ensures r.Ok? ==> LoadFrom(file, 0) == Then(r.value, LoadFrom(file, b + 1))
  {
    var d := DecodeChunkRecords(file[ChunkName(b)]);
    LoadStep(file, b, tracts);
    if d.Err? {
      return Err(d.error);
    }
    return Ok(tracts + d.value);
  }

  /** The block loop of load_from_file: chunk "track", then "track1", "track2", ... until one is missing. */
  method LoadFromFile(file: map<string, seq<Byte>>) returns (r: Result<seq<seq<int>>, LoadError>)
    ensures r == LoadFrom(file, 0)
  {
    if ChunkName(0) !in file {
      return Err(NoTrack);
    }
    var tracts: seq<seq<int>> := [];
    var block := 0;
    ThenNil(LoadFrom(file, 0));
    while ChunkName(block) in file
      invariant ChunkName(0) in file
      invariant LoadFrom(file, 0) == Then(tracts, LoadFrom(file, block))
      decreases Remaining(file, block)
    {
      NamesBelowShrinks(file, block);
      var d := LoadBlock(file, block, tracts);
      if d.Err? {
        return d;
      }
      tracts := d.value;
      block := block + 1;
    }
    ThenNil(Ok(tracts));
    return Ok(tracts);
  }


}

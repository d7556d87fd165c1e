/** The boot configuration a kernel carries for its bootloader, and its 133-byte encoding. */
module BootConfig {
  import opened Common
  import opened LittleEndian

  type U16 = x: int | 0 <= x < 0x1_0000
  type U64 = x: int | 0 <= x < 0x1_0000_0000_0000_0000

  datatype Version = Version(major: U16, minor: U16, patch: U16, preRelease: bool)

  datatype Mapping = Dynamic | FixedAddress(address: U64)

  datatype Mappings = Mappings(
    kernelStack: Mapping, kernelBase: Mapping, bootInfo: Mapping, framebuffer: Mapping,
    physicalMemory: Option<Mapping>, pageTableRecursive: Option<Mapping>, aslr: bool,
    dynamicRangeStart: Option<U64>, dynamicRangeEnd: Option<U64>, ramdiskMemory: Mapping)

  datatype FrameBuffer = FrameBuffer(minimumHeight: Option<U64>, minimumWidth: Option<U64>)

  datatype Config = Config(version: Version, mappings: Mappings, kernelStackSize: U64, frameBuffer: FrameBuffer)

  const UUID: seq<Byte> :=
    [0x74, 0x3C, 0xA9, 0x61, 0x09, 0x36, 0x46, 0xA0, 0xBB, 0x55, 0x5C, 0x15, 0x89, 0x15, 0x25, 0x3D]
  const SERIALIZED_LEN: nat := 133

  /** Two arrays copied one behind the other. */
  method Concat(a: array<Byte>, b: array<Byte>) returns (r: array<Byte>)
    ensures fresh(r) && r[..] == a[..] + b[..]
  {
    r := new Byte[a.Length + b.Length];
    var i := 0;
    while i < a.Length
      invariant i <= a.Length && r[..i] == a[..i]
    {
      r[i] := a[i];
      i := i + 1;
    }
    var j := 0;
    while j < b.Length
      invariant j <= b.Length && r[..a.Length] == a[..] && r[a.Length..a.Length + j] == b[..j]
    {
      r[a.Length + j] := b[j];
      j := j + 1;
    }
    assert r[..] == r[..a.Length] + r[a.Length..a.Length + j];
  }

  // ---- the pieces of the encoding ----

  function Zeros(n: nat): (r: seq<Byte>)
    ensures |r| == n
  {
    seq(n, _ => 0)
  }

  function EncodeMapping(m: Mapping): (r: seq<Byte>)
    ensures |r| == 9
  {
    match m { case Dynamic => Zeros(9) case FixedAddress(a) => [1] + Encode(a, 8) }
  }

  function EncodeOptionMapping(m: Option<Mapping>): (r: seq<Byte>)
    ensures |r| == 10
  {
    match m { case None => Zeros(10) case Some(x) => [1] + EncodeMapping(x) }
  }

  function EncodeOption(v: Option<U64>): (r: seq<Byte>)
    ensures |r| == 9
  {
    match v { case None => Zeros(9) case Some(x) => [1] + Encode(x, 8) }
  }

  function EncodeBool(b: bool): seq<Byte> { if b then [1] else [0] }

  function DecodeMapping(b: seq<Byte>): Result<Mapping, string>
    requires |b| == 9
  {
    if b[0] == 0 && b[1..] == Zeros(8) then Ok(Dynamic)
    else if b[0] == 1 then Ok(FixedAddress(Number64(b[1..])))
    else Err("invalid mapping value")
  }

  function DecodeOptionMapping(b: seq<Byte>, error: string): Result<Option<Mapping>, string>
    requires |b| == 10
  {
    if b[0] == 0 && b[1..] == Zeros(9) then Ok(None)
    else if b[0] == 1 then
      match DecodeMapping(b[1..]) { case Ok(m) => Ok(Some(m)) case Err(e) => Err(e) }
    else Err(error)
  }

  function DecodeOption(b: seq<Byte>, error: string): Result<Option<U64>, string>
    requires |b| == 9
  {
    if b[0] == 0 && b[1..] == Zeros(8) then Ok(None)
    else if b[0] == 1 then Ok(Some(Number64(b[1..])))
    else Err(error)
  }

  function DecodeBool(b: seq<Byte>, error: string): Result<bool, string>
    requires |b| == 1
  {
    if b[0] == 0 then Ok(false) else if b[0] == 1 then Ok(true) else Err(error)
  }

  function Number64(b: seq<Byte>): U64
    requires |b| == 8
  {
    EncodeDecode(b);
    Limits();
    Decode(b)
  }

  function Number16(b: seq<Byte>): U16
    requires |b| == 2
  {
    EncodeDecode(b);
    Limits();
    Decode(b)
  }

  // ---- each piece decodes to what was encoded, and encodes to what was decoded ----

  lemma NumberRoundTrip(a: U64)
    ensures |Encode(a, 8)| == 8 && Number64(Encode(a, 8)) == a
  {
    Limits();
    DecodeEncode(a, 8);
  }

  lemma NumberBack(b: seq<Byte>)
    requires |b| == 8
    ensures Encode(Number64(b), 8) == b
  {
    EncodeDecode(b);
  }

  lemma MappingRoundTrip(m: Mapping)
    ensures DecodeMapping(EncodeMapping(m)) == Ok(m)
  {
    hide Number64;
    var b := EncodeMapping(m);
    match m {
      case Dynamic =>
        assert b[1..] == Zeros(8);
      case FixedAddress(a) =>
        NumberRoundTrip(a);
        assert b[1..] == Encode(a, 8);
    }
  }

  lemma MappingBack(b: seq<Byte>)
    requires |b| == 9 && DecodeMapping(b).Ok?
    ensures EncodeMapping(DecodeMapping(b).value) == b
  {
    hide Number64;
    assert b == [b[0]] + b[1..];
    if b[0] == 0 {
      assert Zeros(9) == [0] + Zeros(8);
    } else {
      NumberBack(b[1..]);
    }
  }

  lemma OptionMappingRoundTrip(m: Option<Mapping>, error: string)
    ensures DecodeOptionMapping(EncodeOptionMapping(m), error) == Ok(m)
  {
    hide DecodeMapping, EncodeMapping;
    var b := EncodeOptionMapping(m);
    if m.None? {
      assert b[1..] == Zeros(9);
    } else {
      assert b[1..] == EncodeMapping(m.value);
      MappingRoundTrip(m.value);
    }
  }

  lemma OptionMappingBack(b: seq<Byte>, error: string)
    requires |b| == 10 && DecodeOptionMapping(b, error).Ok?
    ensures EncodeOptionMapping(DecodeOptionMapping(b, error).value) == b
  {
    hide DecodeMapping, EncodeMapping;
    assert b == [b[0]] + b[1..];
    if b[0] == 0 {
      assert Zeros(10) == [0] + Zeros(9);
    } else {
      MappingBack(b[1..]);
    }
  }

  lemma OptionRoundTrip(v: Option<U64>, error: string)
    ensures DecodeOption(EncodeOption(v), error) == Ok(v)
  {
    hide Number64;
    var b := EncodeOption(v);
    if v.None? {
      assert b[1..] == Zeros(8);
    } else {
      NumberRoundTrip(v.value);
      assert b[1..] == Encode(v.value, 8);
    }
  }

  lemma OptionBack(b: seq<Byte>, error: string)
    requires |b| == 9 && DecodeOption(b, error).Ok?
    ensures EncodeOption(DecodeOption(b, error).value) == b
  {
    hide Number64;
    assert b == [b[0]] + b[1..];
    if b[0] == 0 {
      assert Zeros(9) == [0] + Zeros(8);
    } else {
      NumberBack(b[1..]);
    }
  }

  lemma BoolBack(b: seq<Byte>, error: string)
    requires |b| == 1 && DecodeBool(b, error).Ok?
    ensures EncodeBool(DecodeBool(b, error).value) == b
  {
  }

  // ---- pieces one behind the other ----

  function Joined(ps: seq<seq<Byte>>): seq<Byte> { if ps == [] then [] else ps[0] + Joined(ps[1..]) }

  function Sum(sizes: seq<nat>): nat { if sizes == [] then 0 else sizes[0] + Sum(sizes[1..]) }

  /** Pieces of the given sizes, split off from the front one after the other. */
  function Split(b: seq<Byte>, sizes: seq<nat>): (r: seq<seq<Byte>>)
    requires |b| == Sum(sizes)
    ensures Sized(r, sizes)
  {
    if sizes == [] then [] else [b[..sizes[0]]] + Split(b[sizes[0]..], sizes[1..])
  }

  predicate Sized(ps: seq<seq<Byte>>, sizes: seq<nat>) {
    |ps| == |sizes| && forall i | 0 <= i < |ps| :: |ps[i]| == sizes[i]
  }

  lemma {:induction false} JoinedSplit(b: seq<Byte>, sizes: seq<nat>)
    requires |b| == Sum(sizes)
    ensures Joined(Split(b, sizes)) == b
  {
    if sizes != [] {
      JoinedSplit(b[sizes[0]..], sizes[1..]);
      assert Split(b, sizes)[1..] == Split(b[sizes[0]..], sizes[1..]);
    }
  }

  lemma {:induction false} SplitJoined(ps: seq<seq<Byte>>, sizes: seq<nat>)
    requires Sized(ps, sizes)
    ensures |Joined(ps)| == Sum(sizes) && Split(Joined(ps), sizes) == ps
  {
    if sizes != [] {
      SplitJoined(ps[1..], sizes[1..]);
      assert Joined(ps)[..sizes[0]] == ps[0] && Joined(ps)[sizes[0]..] == Joined(ps[1..]);
      assert ps == [ps[0]] + ps[1..];
    }
  }

  // ---- the configuration ----

  const SIZES: seq<nat> := [16, 2, 2, 2, 1, 8, 9, 9, 9, 9, 10, 10, 1, 9, 9, 9, 9, 9]

  lemma SizesSum()
    ensures Sum(SIZES) == SERIALIZED_LEN
  {
    assert SIZES[9..] == [9, 10, 10, 1, 9, 9, 9, 9, 9];
    assert Sum([9, 10, 10, 1, 9, 9, 9, 9, 9]) == 75;
    assert Sum(SIZES) == 133;
  }

  function Pieces(c: Config): (r: seq<seq<Byte>>)
    ensures Sized(r, SIZES)
  {
    var v, m, f := c.version, c.mappings, c.frameBuffer;
    [UUID, Encode(v.major, 2), Encode(v.minor, 2), Encode(v.patch, 2), EncodeBool(v.preRelease),
     Encode(c.kernelStackSize, 8),
     EncodeMapping(m.kernelStack), EncodeMapping(m.kernelBase), EncodeMapping(m.bootInfo), EncodeMapping(m.framebuffer),
     EncodeOptionMapping(m.physicalMemory), EncodeOptionMapping(m.pageTableRecursive), EncodeBool(m.aslr),
     EncodeOption(m.dynamicRangeStart), EncodeOption(m.dynamicRangeEnd), EncodeMapping(m.ramdiskMemory),
     EncodeOption(f.minimumHeight), EncodeOption(f.minimumWidth)]
  }

  function Serialize(c: Config): seq<Byte> { Joined(Pieces(c)) }

  lemma {:induction false} JoinedPlus(ps: seq<seq<Byte>>, p: seq<Byte>)
    ensures Joined(ps + [p]) == Joined(ps) + p
  {
    if ps == [] {
      assert ps + [p] == [p] && Joined([p][1..]) == [];
    } else {
      JoinedPlus(ps[1..], p);
      assert (ps + [p])[1..] == ps[1..] + [p];
    }
  }

  // ---- where each field is ----

  /** The `n` bytes at `at` are those of the number `v`, lowest first. */
  predicate NumberAt(b: seq<Byte>, at: nat, n: nat, v: nat)
    requires at + n <= |b|
  {
    forall i | 0 <= i < n :: b[at + i] == Digit(v, i)
  }

  predicate ZeroAt(b: seq<Byte>, at: nat, n: nat)
    requires at + n <= |b|
  {
    forall i | at <= i < at + n :: b[i] == 0
  }

  predicate BoolAt(b: seq<Byte>, at: nat, x: bool)
    requires at < |b|
  {
    b[at] == if x then 1 else 0
  }

  predicate MappingAt(b: seq<Byte>, at: nat, m: Mapping)
    requires at + 9 <= |b|
  {
    match m
    case Dynamic => ZeroAt(b, at, 9)
    case FixedAddress(a) => b[at] == 1 && NumberAt(b, at + 1, 8, a)
  }

  predicate OptionMappingAt(b: seq<Byte>, at: nat, m: Option<Mapping>)
    requires at + 10 <= |b|
  {
    match m
    case None => ZeroAt(b, at, 10)
    case Some(x) => b[at] == 1 && MappingAt(b, at + 1, x)
  }

  predicate OptionAt(b: seq<Byte>, at: nat, v: Option<U64>)
    requires at + 9 <= |b|
  {
    match v
    case None => ZeroAt(b, at, 9)
    case Some(x) => b[at] == 1 && NumberAt(b, at + 1, 8, x)
  }

  predicate LaidOut(b: seq<Byte>, c: Config) {
    var v, m, f := c.version, c.mappings, c.frameBuffer;
    && |b| == 133 && b[0..16] == UUID
    && NumberAt(b, 16, 2, v.major) && NumberAt(b, 18, 2, v.minor) && NumberAt(b, 20, 2, v.patch)
    && BoolAt(b, 22, v.preRelease) && NumberAt(b, 23, 8, c.kernelStackSize)
    && MappingAt(b, 31, m.kernelStack) && MappingAt(b, 40, m.kernelBase) && MappingAt(b, 49, m.bootInfo)
    && MappingAt(b, 58, m.framebuffer) && OptionMappingAt(b, 67, m.physicalMemory)
    && OptionMappingAt(b, 77, m.pageTableRecursive) && BoolAt(b, 87, m.aslr) && OptionAt(b, 88, m.dynamicRangeStart)
    && OptionAt(b, 97, m.dynamicRangeEnd) && MappingAt(b, 106, m.ramdiskMemory)
    && OptionAt(b, 115, f.minimumHeight) && OptionAt(b, 124, f.minimumWidth)
  }

  lemma {:induction false} JoinedAround(ps: seq<seq<Byte>>, k: nat)
    requires k < |ps|
    ensures Joined(ps) == Joined(ps[..k]) + ps[k] + Joined(ps[k + 1..])
  {
    if k > 0 {
      JoinedAround(ps[1..], k - 1);
      assert ps[..k][1..] == ps[1..][..k - 1] && ps[1..][k..] == ps[k + 1..];
    }
  }

  lemma {:induction false} SumMore(sizes: seq<nat>, k: nat)
    requires k < |sizes|
    ensures Sum(sizes[..k + 1]) == Sum(sizes[..k]) + sizes[k]
  {
    if k > 0 {
      SumMore(sizes[1..], k - 1);
      assert sizes[..k + 1][1..] == sizes[1..][..k] && sizes[..k][1..] == sizes[1..][..k - 1];
    } else {
      assert sizes[..1][1..] == [];
    }
  }

  /** Piece `k` of a configuration starts at `at`. */
  ghost predicate StartsAt(k: nat, at: nat) { k <= |SIZES| && Sum(SIZES[..k]) == at }

  lemma Starts()
    ensures StartsAt(0, 0) && StartsAt(1, 16) && StartsAt(2, 18) && StartsAt(3, 20) && StartsAt(4, 22)
    ensures StartsAt(5, 23) && StartsAt(6, 31) && StartsAt(7, 40) && StartsAt(8, 49) && StartsAt(9, 58)
    ensures StartsAt(10, 67) && StartsAt(11, 77) && StartsAt(12, 87) && StartsAt(13, 88) && StartsAt(14, 97)
    ensures StartsAt(15, 106) && StartsAt(16, 115) && StartsAt(17, 124) && StartsAt(18, 133)
  {
    hide Sum;
    assert Sum(SIZES[..0]) == 0 by { NoSum(); }
    SumMore(SIZES, 0);
    SumMore(SIZES, 1);
    SumMore(SIZES, 2);
    SumMore(SIZES, 3);
    SumMore(SIZES, 4);
    SumMore(SIZES, 5);
    SumMore(SIZES, 6);
    SumMore(SIZES, 7);
    SumMore(SIZES, 8);
    SumMore(SIZES, 9);
    SumMore(SIZES, 10);
    SumMore(SIZES, 11);
    SumMore(SIZES, 12);
    SumMore(SIZES, 13);
    SumMore(SIZES, 14);
    SumMore(SIZES, 15);
    SumMore(SIZES, 16);
    SumMore(SIZES, 17);
  }

  lemma NoSum()
    ensures Sum([]) == 0
  {
  }

  lemma PieceAt(c: Config, k: nat, at: nat)
    requires k < |SIZES| && StartsAt(k, at)
    ensures at + SIZES[k] <= |Serialize(c)| == 133 && |Pieces(c)| == |SIZES|
    ensures Serialize(c)[at..at + SIZES[k]] == Pieces(c)[k]
  {
    hide Pieces, Joined, Sum, Split;
    var ps := Pieces(c);
    SplitJoined(ps, SIZES);
    SizesSum();
    SplitJoined(ps[..k], SIZES[..k]);
    JoinedAround(ps, k);
    Middle(Joined(ps[..k]), ps[k], Joined(ps[k + 1..]));
  }

  lemma Middle(a: seq<Byte>, p: seq<Byte>, b: seq<Byte>)
    ensures (a + p + b)[|a|..|a| + |p|] == p
  {
  }

  lemma NumberPlaced(b: seq<Byte>, at: nat, n: nat, v: nat)
    requires at + n <= |b| && b[at..at + n] == Encode(v, n)
    ensures NumberAt(b, at, n, v)
  {
    hide Encode, Digit;
    forall i: nat | i < n ensures b[at + i] == Digit(v, i) {
      assert b[at + i] == b[at..at + n][i];
      EncodeAt(v, n, i);
    }
  }

  lemma TagPlaced(b: seq<Byte>, at: nat, n: nat, v: seq<Byte>)
    requires at + n <= |b| && 0 < n && |v| == n - 1 && b[at..at + n] == [1] + v
    ensures b[at] == 1 && b[at + 1..at + n] == v
  {
    assert b[at..at + n][0] == 1 && b[at..at + n][1..] == v;
    assert b[at + 1..at + n] == b[at..at + n][1..];
  }

  lemma ZeroPlaced(b: seq<Byte>, at: nat, n: nat)
    requires at + n <= |b| && b[at..at + n] == Zeros(n)
    ensures ZeroAt(b, at, n)
  {
    forall i | at <= i < at + n ensures b[i] == 0 {
      assert b[i] == b[at..at + n][i - at];
    }
  }

  lemma MappingPlaced(b: seq<Byte>, at: nat, m: Mapping)
    requires at + 9 <= |b| && b[at..at + 9] == EncodeMapping(m)
    ensures MappingAt(b, at, m)
  {
    hide NumberAt, ZeroAt, Encode, Zeros;
    match m {
      case Dynamic => ZeroPlaced(b, at, 9);
      case FixedAddress(a) =>
        TagPlaced(b, at, 9, Encode(a, 8));
        NumberPlaced(b, at + 1, 8, a);
    }
  }

  lemma OptionMappingPlaced(b: seq<Byte>, at: nat, m: Option<Mapping>)
    requires at + 10 <= |b| && b[at..at + 10] == EncodeOptionMapping(m)
    ensures OptionMappingAt(b, at, m)
  {
    hide MappingAt, ZeroAt, EncodeMapping, Zeros;
    match m {
      case None => ZeroPlaced(b, at, 10);
      case Some(x) =>
        TagPlaced(b, at, 10, EncodeMapping(x));
        MappingPlaced(b, at + 1, x);
    }
  }

  lemma OptionPlaced(b: seq<Byte>, at: nat, v: Option<U64>)
    requires at + 9 <= |b| && b[at..at + 9] == EncodeOption(v)
    ensures OptionAt(b, at, v)
  {
    hide NumberAt, ZeroAt, Encode, Zeros;
    match v {
      case None => ZeroPlaced(b, at, 9);
      case Some(x) =>
        TagPlaced(b, at, 9, Encode(x, 8));
        NumberPlaced(b, at + 1, 8, x);
    }
  }

  lemma BoolPlaced(b: seq<Byte>, at: nat, x: bool)
    requires at + 1 <= |b| && b[at..at + 1] == EncodeBool(x)
    ensures BoolAt(b, at, x)
  {
    assert b[at] == b[at..at + 1][0];
  }

  /** The encoding, byte by byte: the fixed identification, then each field at its place. */
  lemma SerializedLayout(c: Config)
    ensures LaidOut(Serialize(c), c)
  {
    hide Serialize, Pieces, Encode, EncodeBool, EncodeMapping, EncodeOption, EncodeOptionMapping, UUID, NumberAt,
         BoolAt, MappingAt, OptionMappingAt, OptionAt, StartsAt;
    PiecesAre(c);
    Starts();
    var b, v, m, f := Serialize(c), c.version, c.mappings, c.frameBuffer;
    PieceAt(c, 0, 0);
    PieceAt(c, 1, 16);
    NumberPlaced(b, 16, 2, v.major);
    PieceAt(c, 2, 18);
    NumberPlaced(b, 18, 2, v.minor);
    PieceAt(c, 3, 20);
    NumberPlaced(b, 20, 2, v.patch);
    PieceAt(c, 4, 22);
    BoolPlaced(b, 22, v.preRelease);
    PieceAt(c, 5, 23);
    NumberPlaced(b, 23, 8, c.kernelStackSize);
    PieceAt(c, 6, 31);
    MappingPlaced(b, 31, m.kernelStack);
    PieceAt(c, 7, 40);
    MappingPlaced(b, 40, m.kernelBase);
    PieceAt(c, 8, 49);
    MappingPlaced(b, 49, m.bootInfo);
    PieceAt(c, 9, 58);
    MappingPlaced(b, 58, m.framebuffer);
    PieceAt(c, 10, 67);
    OptionMappingPlaced(b, 67, m.physicalMemory);
    PieceAt(c, 11, 77);
    OptionMappingPlaced(b, 77, m.pageTableRecursive);
    PieceAt(c, 12, 87);
    BoolPlaced(b, 87, m.aslr);
    PieceAt(c, 13, 88);
    OptionPlaced(b, 88, m.dynamicRangeStart);
    PieceAt(c, 14, 97);
    OptionPlaced(b, 97, m.dynamicRangeEnd);
    PieceAt(c, 15, 106);
    MappingPlaced(b, 106, m.ramdiskMemory);
    PieceAt(c, 16, 115);
    OptionPlaced(b, 115, f.minimumHeight);
    PieceAt(c, 17, 124);
    OptionPlaced(b, 124, f.minimumWidth);
    assert LaidOut(b, c);
  }

  method ArrayOf(p: seq<Byte>) returns (r: array<Byte>)
    ensures fresh(r) && r[..] == p
  {
    r := new Byte[|p|](i requires 0 <= i < |p| => p[i]);
  }

  /** Puts piece `i` behind the pieces before it. */
  method Append(buf: array<Byte>, ghost ps: seq<seq<Byte>>, ghost i: nat, p: seq<Byte>) returns (r: array<Byte>)
    requires i < |ps| && p == ps[i] && buf[..] == Joined(ps[..i])
    ensures fresh(r) && r[..] == Joined(ps[..i + 1])
  {
    var b := ArrayOf(p);
    JoinedPlus(ps[..i], p);
    assert ps[..i + 1] == ps[..i] + [p];
    r := Concat(buf, b);
  }

  method SerializeVersion(v: Version) returns (r: array<Byte>)
    ensures fresh(r)
            && r[..] ==
                 Joined([UUID, Encode(v.major, 2), Encode(v.minor, 2), Encode(v.patch, 2), EncodeBool(v.preRelease)])
  {
    hide Encode, EncodeBool, UUID;
    var major := ArrayOf(Encode(v.major, 2));
    var minor := ArrayOf(Encode(v.minor, 2));
    var one := Concat(major, minor);
    var patch := ArrayOf(Encode(v.patch, 2));
    var pre := ArrayOf(EncodeBool(v.preRelease));
    var two := Concat(patch, pre);
    var version := Concat(one, two);
    var uuid := ArrayOf(UUID);
    r := Concat(uuid, version);
    FiveJoined(UUID, Encode(v.major, 2), Encode(v.minor, 2), Encode(v.patch, 2), EncodeBool(v.preRelease));
  }

  lemma FiveJoined(a: seq<Byte>, b: seq<Byte>, c: seq<Byte>, d: seq<Byte>, e: seq<Byte>)
    ensures Joined([a, b, c, d, e]) == a + (b + c + (d + e))
  {
    JoinedPlus([], a);
    JoinedPlus([a], b);
    JoinedPlus([a, b], c);
    JoinedPlus([a, b, c], d);
    JoinedPlus([a, b, c, d], e);
    assert [] + [a] == [a] && [a] + [b] == [a, b] && [a, b] + [c] == [a, b, c];
    assert [a, b, c] + [d] == [a, b, c, d] && [a, b, c, d] + [e] == [a, b, c, d, e];
  }

  lemma PiecesAre(c: Config)
    ensures var ps, v, m, f := Pieces(c), c.version, c.mappings, c.frameBuffer;
            && |ps| == 18
            && ps[..5] == [UUID, Encode(v.major, 2), Encode(v.minor, 2), Encode(v.patch, 2), EncodeBool(v.preRelease)]
            && ps[5] == Encode(c.kernelStackSize, 8) && ps[6] == EncodeMapping(m.kernelStack)
            && ps[7] == EncodeMapping(m.kernelBase)
            && ps[8] == EncodeMapping(m.bootInfo) && ps[9] == EncodeMapping(m.framebuffer)
            && ps[10] == EncodeOptionMapping(m.physicalMemory) && ps[11] == EncodeOptionMapping(m.pageTableRecursive)
            && ps[12] == EncodeBool(m.aslr) && ps[13] == EncodeOption(m.dynamicRangeStart)
            && ps[14] == EncodeOption(m.dynamicRangeEnd)
            && ps[15] == EncodeMapping(m.ramdiskMemory) && ps[16] == EncodeOption(f.minimumHeight)
            && ps[17] == EncodeOption(f.minimumWidth)
  {
    hide Joined, Encode, EncodeBool, EncodeMapping, EncodeOption, EncodeOptionMapping, Sum;
  }

  method SerializeMappings(buf: array<Byte>, c: Config) returns (r: array<Byte>)
    requires buf[..] == Joined(Pieces(c)[..6])
    ensures fresh(r) && r[..] == Joined(Pieces(c)[..16])
  {
    hide *;
    var m := c.mappings;
    ghost var ps := Pieces(c);
    PiecesAre(c);
    r := Append(buf, ps, 6, EncodeMapping(m.kernelStack));
    r := Append(r, ps, 7, EncodeMapping(m.kernelBase));
    r := Append(r, ps, 8, EncodeMapping(m.bootInfo));
    r := Append(r, ps, 9, EncodeMapping(m.framebuffer));
    r := Append(r, ps, 10, EncodeOptionMapping(m.physicalMemory));
    r := Append(r, ps, 11, EncodeOptionMapping(m.pageTableRecursive));
    r := Append(r, ps, 12, EncodeBool(m.aslr));
    r := Append(r, ps, 13, EncodeOption(m.dynamicRangeStart));
    r := Append(r, ps, 14, EncodeOption(m.dynamicRangeEnd));
    r := Append(r, ps, 15, EncodeMapping(m.ramdiskMemory));
  }

  /** Serializing array behind array gives the pieces in order. */
  method SerializeArray(c: Config) returns (r: array<Byte>)
    ensures fresh(r) && r.Length == SERIALIZED_LEN && r[..] == Serialize(c)
  {
    hide Pieces, Joined, Encode, EncodeBool, EncodeOption, Sum, UUID;
    ghost var ps := Pieces(c);
    PiecesAre(c);
    r := SerializeVersion(c.version);
    r := Append(r, ps, 5, Encode(c.kernelStackSize, 8));
    r := SerializeMappings(r, c);
    r := Append(r, ps, 16, EncodeOption(c.frameBuffer.minimumHeight));
    r := Append(r, ps, 17, EncodeOption(c.frameBuffer.minimumWidth));
    assert ps[..18] == ps;
    SplitJoined(ps, SIZES);
    SizesSum();
  }

  function DecodeVersion(ps: seq<seq<Byte>>, current: Version): Result<Version, string>
    requires Sized(ps, SIZES)
  {
    if ps[0] != UUID then Err("invalid UUID")
    else
      var pre :- DecodeBool(ps[4], "invalid pre version");
      var version := Version(Number16(ps[1]), Number16(ps[2]), Number16(ps[3]), pre);
      if version != current then Err("incompatible API version") else Ok(version)
  }

  function DecodeMappings(ps: seq<seq<Byte>>): Result<Mappings, string>
    requires Sized(ps, SIZES)
  {
    var kernelStack :- DecodeMapping(ps[6]);
    var kernelBase :- DecodeMapping(ps[7]);
    var bootInfo :- DecodeMapping(ps[8]);
    var framebuffer :- DecodeMapping(ps[9]);
    var physicalMemory :- DecodeOptionMapping(ps[10], "invalid phys memory value");
    var pageTableRecursive :- DecodeOptionMapping(ps[11], "invalid page table recursive value");
    var aslr :- DecodeBool(ps[12], "invalid aslr value");
    var dynamicRangeStart :- DecodeOption(ps[13], "invalid dynamic range start value");
    var dynamicRangeEnd :- DecodeOption(ps[14], "invalid dynamic range end value");
    var ramdiskMemory :- DecodeMapping(ps[15]);
    Ok(Mappings(kernelStack, kernelBase, bootInfo, framebuffer, physicalMemory, pageTableRecursive, aslr,
                dynamicRangeStart, dynamicRangeEnd, ramdiskMemory))
  }

  function DecodeFrameBuffer(ps: seq<seq<Byte>>): Result<FrameBuffer, string>
    requires Sized(ps, SIZES)
  {
    var height :- DecodeOption(ps[16], "minimum_framebuffer_height invalid");
    var width :- DecodeOption(ps[17], "minimum_framebuffer_width invalid");
    Ok(FrameBuffer(height, width))
  }

  /** Reads a configuration for a bootloader of version `current`. */
  function Deserialize(b: seq<Byte>, current: Version): Result<Config, string> {
    if |b| != SERIALIZED_LEN then Err("invalid len")
    else
      SizesSum();
      var ps := Split(b, SIZES);
      var version :- DecodeVersion(ps, current);
      var mappings :- DecodeMappings(ps);
      var frameBuffer :- DecodeFrameBuffer(ps);
      Ok(Config(version, mappings, Number64(ps[5]), frameBuffer))
  }

  lemma Number16RoundTrip(a: U16)
    ensures Number16(Encode(a, 2)) == a
  {
    Limits();
    DecodeEncode(a, 2);
  }

  lemma Number16Back(b: seq<Byte>)
    requires |b| == 2
    ensures Encode(Number16(b), 2) == b
  {
    EncodeDecode(b);
  }

  lemma VersionRoundTrip(c: Config, current: Version)
    ensures DecodeVersion(Pieces(c), current) ==
              if c.version == current then Ok(current) else Err("incompatible API version")
  {
    hide EncodeMapping, EncodeOptionMapping, EncodeOption, Number16;
    Number16RoundTrip(c.version.major);
    Number16RoundTrip(c.version.minor);
    Number16RoundTrip(c.version.patch);
  }

  lemma MappingsRoundTrip(c: Config)
    ensures DecodeMappings(Pieces(c)) == Ok(c.mappings)
  {
    hide EncodeMapping, EncodeOptionMapping, EncodeOption, DecodeMapping, DecodeOptionMapping, DecodeOption;
    var m := c.mappings;
    MappingRoundTrip(m.kernelStack);
    MappingRoundTrip(m.kernelBase);
    MappingRoundTrip(m.bootInfo);
    MappingRoundTrip(m.framebuffer);
    OptionMappingRoundTrip(m.physicalMemory, "invalid phys memory value");
    OptionMappingRoundTrip(m.pageTableRecursive, "invalid page table recursive value");
    OptionRoundTrip(m.dynamicRangeStart, "invalid dynamic range start value");
    OptionRoundTrip(m.dynamicRangeEnd, "invalid dynamic range end value");
    MappingRoundTrip(m.ramdiskMemory);
  }

  lemma FrameBufferRoundTrip(c: Config)
    ensures DecodeFrameBuffer(Pieces(c)) == Ok(c.frameBuffer)
  {
    hide EncodeMapping, EncodeOptionMapping, EncodeOption, DecodeOption;
    OptionRoundTrip(c.frameBuffer.minimumHeight, "minimum_framebuffer_height invalid");
    OptionRoundTrip(c.frameBuffer.minimumWidth, "minimum_framebuffer_width invalid");
  }

  /** A configuration survives the round trip if and only if it is of the reader's version. */
  lemma RoundTrip(c: Config, current: Version)
    ensures |Serialize(c)| == SERIALIZED_LEN
    ensures Deserialize(Serialize(c), current) ==
              if c.version == current then Ok(c) else Err("incompatible API version")
  {
    hide Split, Joined, DecodeVersion, DecodeMappings, DecodeFrameBuffer, Number64, Sum;
    SizesSum();
    SplitJoined(Pieces(c), SIZES);
    VersionRoundTrip(c, current);
    MappingsRoundTrip(c);
    FrameBufferRoundTrip(c);
    assert Pieces(c)[5] == Encode(c.kernelStackSize, 8);
    NumberRoundTrip(c.kernelStackSize);
  }

  /** Whatever is accepted is exactly the encoding of the configuration it was read as. */
  lemma AcceptedIsEncoding(b: seq<Byte>, current: Version)
    requires Deserialize(b, current).Ok?
    ensures Deserialize(b, current).value.version == current && Serialize(Deserialize(b, current).value) == b
  {
    hide Split, Joined, DecodeVersion, DecodeMappings, DecodeFrameBuffer, Number64, Sum;
    SizesSum();
    var ps := Split(b, SIZES);
    JoinedSplit(b, SIZES);
    VersionBack(ps, current);
    MappingsBack(ps);
    FrameBufferBack(ps);
    NumberBack(ps[5]);
    var c := Deserialize(b, current).value;
    assert Pieces(c) == ps;
  }

  lemma VersionBack(ps: seq<seq<Byte>>, current: Version)
    requires Sized(ps, SIZES) && DecodeVersion(ps, current).Ok?
    ensures DecodeVersion(ps, current).value == current && ps[0] == UUID && ps[1] == Encode(current.major, 2)
    ensures ps[2] == Encode(current.minor, 2) && ps[3] == Encode(current.patch, 2)
            && ps[4] == EncodeBool(current.preRelease)
  {
    hide Number16;
    Number16Back(ps[1]);
    Number16Back(ps[2]);
    Number16Back(ps[3]);
    BoolBack(ps[4], "invalid pre version");
  }

  lemma MappingsBack(ps: seq<seq<Byte>>)
    requires Sized(ps, SIZES) && DecodeMappings(ps).Ok?
    ensures var m := DecodeMappings(ps).value;
            && ps[6] == EncodeMapping(m.kernelStack) && ps[7] == EncodeMapping(m.kernelBase)
            && ps[8] == EncodeMapping(m.bootInfo)
            && ps[9] == EncodeMapping(m.framebuffer) && ps[10] == EncodeOptionMapping(m.physicalMemory)
            && ps[11] == EncodeOptionMapping(m.pageTableRecursive) && ps[12] == EncodeBool(m.aslr)
            && ps[13] == EncodeOption(m.dynamicRangeStart) && ps[14] == EncodeOption(m.dynamicRangeEnd)
            && ps[15] == EncodeMapping(m.ramdiskMemory)
  {
    hide DecodeMapping, DecodeOptionMapping, DecodeOption, DecodeBool, EncodeMapping, EncodeOptionMapping, EncodeOption,
         EncodeBool;
    MappingBack(ps[6]);
    MappingBack(ps[7]);
    MappingBack(ps[8]);
    MappingBack(ps[9]);
    OptionMappingBack(ps[10], "invalid phys memory value");
    OptionMappingBack(ps[11], "invalid page table recursive value");
    BoolBack(ps[12], "invalid aslr value");
    OptionBack(ps[13], "invalid dynamic range start value");
    OptionBack(ps[14], "invalid dynamic range end value");
    MappingBack(ps[15]);
  }

  lemma FrameBufferBack(ps: seq<seq<Byte>>)
    requires Sized(ps, SIZES) && DecodeFrameBuffer(ps).Ok?
    ensures var f := DecodeFrameBuffer(ps).value;
            ps[16] == EncodeOption(f.minimumHeight) && ps[17] == EncodeOption(f.minimumWidth)
  {
    hide DecodeOption, EncodeOption;
    OptionBack(ps[16], "minimum_framebuffer_height invalid");
    OptionBack(ps[17], "minimum_framebuffer_width invalid");
  }

  /** So the accepted byte strings are exactly the encodings of configurations of that version. */
  lemma AcceptedExactly(b: seq<Byte>, current: Version)
    ensures Deserialize(b, current).Ok? <==> exists c: Config :: c.version == current && Serialize(c) == b
  {
    hide Serialize, Deserialize;
    if Deserialize(b, current).Ok? {
      AcceptedIsEncoding(b, current);
    }
    forall c: Config | c.version == current && Serialize(c) == b ensures Deserialize(b, current).Ok? {
      RoundTrip(c, current);
    }
  }
}

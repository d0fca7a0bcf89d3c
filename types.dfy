/**
 * The value types of the protocol: the 32-bit Result status word, the
 * service record both ends exchange, buffer attribute bits, service names
 * and firmware versions.
 */
module Types {
  import opened Wire
  import Util

  // ---------------------------------------------------------------------------
  // Result

  /** A 32-bit status word; 0 is success. */
  datatype Result = Result(value: u32) {

    /** `value & 0x1FF`. */
    function Module(): nat
    {
      Util.And(value, 0x1FF)
    }

    /** `(value >> 9) & 0x1FFF`. */
    function Description(): nat
    {
      Util.And(value / 512, 0x1FFF)
    }

    predicate IsSuccess()
    {
      value == 0
    }
  }

  /** The module is the low 9 bits and the description the 13 bits above them. */
  lemma ResultFields(r: Result)
    ensures r.Module() == r.value % 512
    ensures r.Description() == (r.value / 512) % 8192
    ensures r.Module() < 512 && r.Description() < 8192
    ensures r.IsSuccess() ==> r.Module() == 0 && r.Description() == 0
  {
    assert Util.Pow2(9) == 512 by {
      assert Util.Pow2(4) == 16;
    }
    assert Util.Pow2(13) == 8192 by {
      assert Util.Pow2(4) == 16;
      assert Util.Pow2(8) == 256;
    }
    Util.LowBits(r.value, 9);
    Util.LowBits(r.value / 512, 13);
  }

  /**
   * The Result word the device builds for its own errors (libnx's
   * MAKERESULT): `(module & 0x1FF) | ((description & 0x1FFF) << 9)`.
   */
  function MakeResult(moduleId: nat, description: nat): Result
  {
    var m := Util.And(moduleId, 0x1FF);
    var d := Util.And(description, 0x1FFF);
    MakeResultBound(moduleId, description);
    Result(Util.Or(m, d * 512))
  }

  lemma MakeResultBound(moduleId: nat, description: nat)
    ensures Util.And(moduleId, 0x1FF) == moduleId % 512
    ensures Util.And(description, 0x1FFF) == description % 8192
    ensures Util.Or(moduleId % 512, (description % 8192) * 512) == (description % 8192) * 512 + moduleId % 512
    ensures (description % 8192) * 512 + moduleId % 512 < 0x1_0000_0000
  {
    assert Util.Pow2(9) == 512 by {
      assert Util.Pow2(4) == 16;
    }
    assert Util.Pow2(13) == 8192 by {
      assert Util.Pow2(4) == 16;
      assert Util.Pow2(8) == 256;
    }
    Util.LowBits(moduleId, 9);
    Util.LowBits(description, 13);
    Util.OrLaws(moduleId % 512, (description % 8192) * 512, 0);
    Util.OrShiftAdd(description % 8192, 9, moduleId % 512);
  }

  /** Decoding a made Result gives back its module and description; a nonzero module makes a failure. */
  lemma MakeResultFields(moduleId: nat, description: nat)
    requires moduleId < 512 && description < 8192
    ensures MakeResult(moduleId, description).Module() == moduleId
    ensures MakeResult(moduleId, description).Description() == description
    ensures moduleId != 0 ==> !MakeResult(moduleId, description).IsSuccess()
  {
    MakeResultBound(moduleId, description);
    var r := MakeResult(moduleId, description);
    Util.DivModUnique(moduleId, 512, 0, moduleId);
    Util.DivModUnique(description, 8192, 0, description);
    assert r.value == description * 512 + moduleId;
    ResultFields(r);
    Util.DivModUnique(r.value, 512, description, moduleId);
  }

  /** What `Result.__eq__` accepts on its right: a plain int or anything with a `.value`. */
  datatype ResultOperand = IntOperand(n: int) | ResultOperand(r: Result)

  /** `Result.__eq__`: the raw 32-bit words are compared. */
  predicate ResultEq(r: Result, other: ResultOperand)
  {
    match other
    case IntOperand(n) => r.value == n
    case ResultOperand(o) => r.value == o.value
  }

  /** Equality is on raw words: a Result equals an int exactly when it equals the Result holding that int. */
  lemma ResultEqRaw(r: Result, o: Result)
    ensures ResultEq(r, ResultOperand(o)) <==> r == o
    ensures ResultEq(r, IntOperand(o.value)) <==> r == o
    ensures ResultEq(r, IntOperand(0)) <==> r.IsSuccess()
  {
  }

  // ---------------------------------------------------------------------------
  // Printing a Result: `2MMM-DDDD (0x...)`

  function DigitChar(d: nat): char
    requires d < 16
  {
    if d < 10 then '0' + d as char else 'a' + (d - 10) as char
  }

  function CharDigit(c: char): nat
  {
    if '0' <= c <= '9' then (c - '0') as nat
    else if 'a' <= c <= 'f' then (c - 'a') as nat + 10
    else 0
  }

  /** The digits of n in base 2..16 without leading zeros ("0" for 0). */
  function Numeral(n: nat, base: nat): (s: string)
    requires 2 <= base <= 16
    ensures |s| >= 1
    decreases n
  {
    if n < base then [DigitChar(n)] else Numeral(n / base, base) + [DigitChar(n % base)]
  }

  /** The value of a digit string in the given base. */
  function NumeralValue(s: string, base: nat): nat
  {
    if s == [] then 0 else NumeralValue(s[..|s| - 1], base) * base + CharDigit(s[|s| - 1])
  }

  /** Python's `{n:0w}`: the numeral padded with zeros on the left to at least w characters. */
  function ZeroPad(s: string, w: nat): (r: string)
  {
    if |s| >= w then s else seq(w - |s|, _ => '0') + s
  }

  /** `str(Result)`: `f"2{module:03}-{description:04} ({value:#x})"`. */
  function ResultString(r: Result): string
  {
    "2" + ZeroPad(Numeral(r.Module(), 10), 3) + "-" + ZeroPad(Numeral(r.Description(), 10), 4)
      + " (0x" + Numeral(r.value, 16) + ")"
  }

  lemma {:induction false} NumeralRoundTrip(n: nat, base: nat)
    requires 2 <= base <= 16
    ensures NumeralValue(Numeral(n, base), base) == n
    decreases n
  {
    if n < base {
      NumeralDigit(n, base);
    } else {
      NumeralRoundTrip(n / base, base);
      NumeralStep(n, base);
    }
  }

  lemma NumeralDigit(n: nat, base: nat)
    requires 2 <= base <= 16 && n < base
    ensures NumeralValue(Numeral(n, base), base) == n
  {
    var c := DigitChar(n);
    assert Numeral(n, base) == [c];
    assert [c][..0] == [];
    DigitRoundTrip(n);
  }

  lemma NumeralStep(n: nat, base: nat)
    requires 2 <= base <= 16 && base <= n
    requires NumeralValue(Numeral(n / base, base), base) == n / base
    ensures NumeralValue(Numeral(n, base), base) == n
  {
    var q, r := n / base, n % base;
    var t := Numeral(q, base);
    assert Numeral(n, base) == t + [DigitChar(r)];
    NumeralSnoc(t, DigitChar(r), base);
    DigitRoundTrip(r);
    Util.DivModSplit(n, base);
  }

  lemma NumeralSnoc(t: string, c: char, base: nat)
    ensures NumeralValue(t + [c], base) == NumeralValue(t, base) * base + CharDigit(c)
  {
    assert (t + [c])[..|t|] == t;
  }

  lemma DigitRoundTrip(d: nat)
    requires d < 16
    ensures CharDigit(DigitChar(d)) == d
  {
  }

  lemma {:induction false} NumeralLength(n: nat, base: nat, k: nat, bound: nat)
    requires 2 <= base <= 16 && k >= 1
    requires bound == Power(base, k) && n < bound
    ensures |Numeral(n, base)| <= k
    decreases k
  {
    if n >= base {
      assert k > 1;
      assert bound == base * Power(base, k - 1);
      DivBelow(n, base, Power(base, k - 1));
      NumeralLength(n / base, base, k - 1, Power(base, k - 1));
    }
  }

  lemma DivBelow(n: nat, base: nat, p: nat)
    requires base >= 2 && n < base * p
    ensures n / base < p
  {
    if n / base >= p {
      Util.MulGap(base, n / base, p - 1);
      assert false;
    }
  }

  function Power(b: nat, k: nat): nat
  {
    if k == 0 then 1 else b * Power(b, k - 1)
  }

  /** Leading zeros do not change a numeral's value. */
  lemma {:induction false} LeadingZeros(z: nat, s: string, base: nat)
    ensures NumeralValue(seq(z, _ => '0') + s, base) == NumeralValue(s, base)
    decreases |s|
  {
    var zs := seq(z, _ => '0');
    if s == [] {
      assert zs + s == zs;
      ZerosValue(z, base);
    } else {
      var t := zs + s;
      assert t[..|t| - 1] == zs + s[..|s| - 1];
      LeadingZeros(z, s[..|s| - 1], base);
    }
  }

  lemma {:induction false} ZerosValue(z: nat, base: nat)
    ensures NumeralValue(seq(z, _ => '0'), base) == 0
  {
    if z > 0 {
      assert seq(z, _ => '0')[..z - 1] == seq(z - 1, _ => '0');
      ZerosValue(z - 1, base);
    }
  }

  /**
   * The printed form of a Result reads back to its fields: a leading '2',
   * three digits of module, '-', four digits of description, then the raw
   * word in hexadecimal between " (0x" and ")".
   */
  lemma ResultStringFields(r: Result)
    ensures var s := ResultString(r);
      && |s| == 14 + |Numeral(r.value, 16)|
      && s[0] == '2' && s[4] == '-' && s[9..13] == " (0x" && s[|s| - 1] == ')'
      && NumeralValue(s[1..4], 10) == r.Module()
      && NumeralValue(s[5..9], 10) == r.Description()
      && NumeralValue(s[13..|s| - 1], 16) == r.value
  {
    ResultFields(r);
    PaddedNumeral(r.Module(), 3, 1000);
    PaddedNumeral(r.Description(), 4, 10000);
    var pm, pd := ZeroPad(Numeral(r.Module(), 10), 3), ZeroPad(Numeral(r.Description(), 10), 4);
    var h := Numeral(r.value, 16);
    ResultTemplate(pm, pd, h);
    NumeralRoundTrip(r.value, 16);
  }

  /** Where the three fields sit in `2MMM-DDDD (0x...)`. */
  lemma ResultTemplate(pm: string, pd: string, h: string)
    requires |pm| == 3 && |pd| == 4
    ensures var s := "2" + pm + "-" + pd + " (0x" + h + ")";
      && |s| == 14 + |h|
      && s[0] == '2' && s[4] == '-' && s[9..13] == " (0x" && s[|s| - 1] == ')'
      && s[1..4] == pm && s[5..9] == pd && s[13..|s| - 1] == h
  {
  }

  /** A decimal numeral of a value below 10^w, padded to w digits, has w digits and the same value. */
  lemma PaddedNumeral(n: nat, w: nat, bound: nat)
    requires w >= 1 && bound == Power(10, w) && n < bound
    ensures |ZeroPad(Numeral(n, 10), w)| == w
    ensures NumeralValue(ZeroPad(Numeral(n, 10), w), 10) == n
  {
    var m := Numeral(n, 10);
    NumeralLength(n, 10, w, bound);
    NumeralRoundTrip(n, 10);
    if |m| < w {
      LeadingZeros(w - |m|, m, 10);
    }
  }

  // ---------------------------------------------------------------------------
  // ServiceStruct

  /** A service session as libnx describes it: `{u32 session; u32 own_handle; u32 object_id; u16 pointer_buffer_size}`. */
  datatype ServiceStruct = ServiceStruct(session: u32, ownHandle: u32, objectId: u32, pointerBufferSize: u16) {

    predicate Active()
    {
      session != 0
    }

    /** A plain session. */
    predicate IsOverride()
    {
      Active() && ownHandle == 0 && objectId == 0
    }

    /** A domain: its own handle and an object id. */
    predicate IsDomain()
    {
      Active() && ownHandle != 0 && objectId != 0
    }

    /** An object inside a domain: an object id but no handle of its own. */
    predicate IsDomainSubservice()
    {
      Active() && ownHandle == 0 && objectId != 0
    }
  }

  /** The three session shapes exclude one another and each is an active session. */
  lemma ServiceShapes(s: ServiceStruct)
    ensures !(s.IsOverride() && s.IsDomain())
    ensures !(s.IsOverride() && s.IsDomainSubservice())
    ensures !(s.IsDomain() && s.IsDomainSubservice())
    ensures (s.IsOverride() || s.IsDomain() || s.IsDomainSubservice()) ==> s.Active()
    ensures s.Active() && !(s.IsOverride() || s.IsDomain() || s.IsDomainSubservice()) <==>
              s.Active() && s.ownHandle != 0 && s.objectId == 0
  {
  }

  /** The size of the record: 14 bytes of fields padded to 4-byte alignment. */
  const ServiceSize: nat := 16

  /** The record's image: the four fields little-endian at offsets 0, 4, 8, 12, then 2 padding bytes. */
  function EncodeService(s: ServiceStruct): (b: Bytes)
    ensures |b| == ServiceSize
  {
    LE(s.session, 4) + LE(s.ownHandle, 4) + LE(s.objectId, 4) + LE(s.pointerBufferSize, 2) + Zeros(2)
  }

  function DecodeService(b: Bytes): ServiceStruct
    requires |b| == ServiceSize
  {
    FieldsFit(b);
    ServiceStruct(FromLE(b[0..4]), FromLE(b[4..8]), FromLE(b[8..12]), FromLE(b[12..14]))
  }

  lemma FieldsFit(b: Bytes)
    requires |b| == ServiceSize
    ensures FromLE(b[0..4]) < 0x1_0000_0000 && FromLE(b[4..8]) < 0x1_0000_0000
    ensures FromLE(b[8..12]) < 0x1_0000_0000 && FromLE(b[12..14]) < 0x1_0000
  {
    assert Pow256(4) == 0x1_0000_0000;
    assert Pow256(2) == 0x1_0000;
  }

  /** Decoding the image of a record gives the record. */
  lemma ServiceRoundTrip(s: ServiceStruct)
    ensures DecodeService(EncodeService(s)) == s
  {
    var b := EncodeService(s);
    assert b[0..4] == LE(s.session, 4);
    assert b[4..8] == LE(s.ownHandle, 4);
    assert b[8..12] == LE(s.objectId, 4);
    assert b[12..14] == LE(s.pointerBufferSize, 2);
    assert Pow256(4) == 0x1_0000_0000;
    assert Pow256(2) == 0x1_0000;
    FieldRoundTrip(s.session, 4);
    FieldRoundTrip(s.ownHandle, 4);
    FieldRoundTrip(s.objectId, 4);
    FieldRoundTrip(s.pointerBufferSize, 2);
  }

  /** The image of n records laid end to end (`ServiceStruct * n`). */
  function EncodeServices(ss: seq<ServiceStruct>): (b: Bytes)
    ensures |b| == ServiceSize * |ss|
  {
    if ss == [] then [] else EncodeService(ss[0]) + EncodeServices(ss[1..])
  }

  /** Reading n records off n * 16 bytes. */
  function DecodeServices(b: Bytes, n: nat): (ss: seq<ServiceStruct>)
    requires |b| == ServiceSize * n
    ensures |ss| == n
  {
    if n == 0 then [] else [DecodeService(b[..ServiceSize])] + DecodeServices(b[ServiceSize..], n - 1)
  }

  lemma {:induction false} ServicesRoundTrip(ss: seq<ServiceStruct>)
    ensures DecodeServices(EncodeServices(ss), |ss|) == ss
  {
    if ss != [] {
      var b := EncodeServices(ss);
      assert b[..ServiceSize] == EncodeService(ss[0]);
      assert b[ServiceSize..] == EncodeServices(ss[1..]);
      ServiceRoundTrip(ss[0]);
      ServicesRoundTrip(ss[1..]);
    }
  }

  // ---------------------------------------------------------------------------
  // SfBufferAttr

  /** The buffer attribute flags of a dispatch buffer. */
  datatype SfBufferAttr =
    | In | Out | HipcMapAlias | HipcPointer | FixedSize | HipcAutoSelect
    | HipcMapTransferAllowsNonSecure | HipcMapTransferAllowsNonDevice
  {
    /** The bit position: declaration order. */
    function Index(): nat
    {
      match this
      case In => 0
      case Out => 1
      case HipcMapAlias => 2
      case HipcPointer => 3
      case FixedSize => 4
      case HipcAutoSelect => 5
      case HipcMapTransferAllowsNonSecure => 6
      case HipcMapTransferAllowsNonDevice => 7
    }

    /** The member's value: `1 << Index()`. */
    function Value(): nat
    {
      Util.Pow2(Index())
    }
  }

  /** Every member is a single bit, bits 0 to 7, and no two members share one. */
  lemma AttrBits(a: SfBufferAttr, b: SfBufferAttr, i: nat)
    ensures a.Index() < 8
    ensures Util.TestBit(a.Value(), i) <==> i == a.Index()
    ensures a != b ==> a.Value() != b.Value()
  {
    Util.Pow2Bit(a.Index(), i);
    Util.Pow2Bit(a.Index(), b.Index());
    Util.Pow2Bit(b.Index(), b.Index());
  }

  /** An attribute word with the In bit set: the buffer carries data to the service. */
  predicate IsIn(attr: nat)
  {
    Util.TestBit(attr, SfBufferAttr.In.Index())
  }

  /** An attribute word with the Out bit set: the service fills the buffer. */
  predicate IsOut(attr: nat)
  {
    Util.TestBit(attr, SfBufferAttr.Out.Index())
  }

  /** What `SfBufferAttr.__or__` takes on its right: another member or a plain int. */
  datatype AttrOperand = Member(m: SfBufferAttr) | Bits(n: nat)

  /** `SfBufferAttr.__or__`: the integer OR of the two values. */
  function AttrOr(a: SfBufferAttr, other: AttrOperand): nat
  {
    var o := match other
      case Member(m) => m.Value()
      case Bits(n) => n;
    Util.Or(a.Value(), o)
  }

  /** The OR has exactly the bits of its two sides. */
  lemma AttrOrBits(a: SfBufferAttr, other: AttrOperand, i: nat)
    ensures Util.TestBit(AttrOr(a, other), i) <==>
              i == a.Index() || Util.TestBit(match other case Member(m) => m.Value() case Bits(n) => n, i)
  {
    var o := match other case Member(m) => m.Value() case Bits(n) => n;
    Util.OrBit(a.Value(), o, i);
    Util.Pow2Bit(a.Index(), i);
  }

  // ---------------------------------------------------------------------------
  // SmServiceName

  /** The size of a service name: `c_char * 8`. */
  const NameSize: nat := 8

  /** The `.value` of a `c_char` array, and what its field setter measures: the bytes before the first NUL. */
  function NameValue(b: Bytes): Bytes
  {
    if b == [] || b[0] == 0 then [] else [b[0]] + NameValue(b[1..])
  }

  /**
   * `SmServiceName(name)`: ctypes stores a `c_char * 8` field from the
   * bytes before the first NUL of the name, followed by zero bytes up to
   * eight; when those bytes are more than eight it raises ValueError, shown
   * as None. Whatever follows the first NUL is never sent.
   */
  function EncodeName(name: Bytes): (r: Option<Bytes>)
    ensures r.Some? <==> |NameValue(name)| <= NameSize
    ensures r.Some? ==>
      && |r.value| == NameSize && r.value[..|NameValue(name)|] == NameValue(name)
      && forall i :: |NameValue(name)| <= i < NameSize ==> r.value[i] == 0
  {
    var p := NameValue(name);
    if |p| <= NameSize then Some(p + Zeros(NameSize - |p|)) else None
  }

  /** The bytes before the first NUL are a prefix of the name, none of them NUL, and a NUL or the end follows them. */
  lemma {:induction false} NameValueShape(b: Bytes)
    ensures |NameValue(b)| <= |b| && NameValue(b) == b[..|NameValue(b)|]
    ensures forall i :: 0 <= i < |NameValue(b)| ==> NameValue(b)[i] != 0
    ensures |NameValue(b)| < |b| ==> b[|NameValue(b)|] == 0
    decreases |b|
  {
    if b != [] && b[0] != 0 {
      NameValueShape(b[1..]);
    }
  }

  /**
   * The name read back from `.name` is the name up to its first NUL; a name
   * of non-NUL bytes (at most eight) reads back unchanged.
   */
  lemma NameRoundTrip(name: Bytes)
    requires |NameValue(name)| <= NameSize
    ensures NameValue(EncodeName(name).value) == NameValue(name)
    ensures (forall i :: 0 <= i < |name| ==> name[i] != 0) ==> NameValue(EncodeName(name).value) == name
  {
    var p := NameValue(name);
    NameValueShape(name);
    NameValuePrefix(p, Zeros(NameSize - |p|));
    if forall i :: 0 <= i < |name| ==> name[i] != 0 {
      assert name + [] == name;
      NameValuePrefix(name, []);
    }
  }

  /** Two names that differ from ctypes' view only after the first NUL: a ninth NUL is accepted, and bytes after a NUL are dropped. */
  lemma NameStopsAtNul()
    ensures EncodeName([97, 98, 99, 100, 101, 102, 103, 104, 0]) == Some([97, 98, 99, 100, 101, 102, 103, 104])
    ensures EncodeName([97, 98, 0, 99, 100]) == Some([97, 98, 0, 0, 0, 0, 0, 0])
  {
    var full: Bytes := [97, 98, 99, 100, 101, 102, 103, 104];
    NameValuePrefix(full, [0]);
    assert full + [0] == [97, 98, 99, 100, 101, 102, 103, 104, 0];
    assert full + Zeros(0) == full;
    NameValuePrefix([97, 98], [0, 99, 100]);
    assert [97, 98] + [0, 99, 100] == [97, 98, 0, 99, 100];
    assert [97, 98] + Zeros(6) == [97, 98, 0, 0, 0, 0, 0, 0];
  }

  lemma {:induction false} NameValuePrefix(name: Bytes, pad: Bytes)
    requires forall i :: 0 <= i < |name| ==> name[i] != 0
    requires pad == [] || pad[0] == 0
    ensures NameValue(name + pad) == name
    decreases |name|
  {
    if name == [] {
      assert name + pad == pad;
    } else {
      assert (name + pad)[1..] == name[1..] + pad;
      NameValuePrefix(name[1..], pad);
    }
  }

  datatype Option<T> = None | Some(value: T)

  // ---------------------------------------------------------------------------
  // HosVersion

  /** A firmware version `major.minor.micro`. */
  datatype HosVersion = HosVersion(major: nat, minor: nat, micro: nat) {

    /** `major << 16 | minor << 8 | micro`. */
    function Packed(): nat
    {
      Util.Or(Util.Or(major * 65536, minor * 256), micro)
    }
  }

  /**
   * The right-hand side of a version comparison: another HosVersion, or a
   * tuple (indexable with at least two elements, written first, second and
   * the rest).
   */
  datatype VersionOperand = Version(v: HosVersion) | Tuple(first: nat, second: nat, rest: seq<nat>)

  /**
   * The HosVersion a comparison actually uses: a tuple t becomes
   * `HosVersion(t[0], t[1], t[1])`, so its third element is never read.
   */
  function AsVersion(other: VersionOperand): HosVersion
  {
    match other
    case Version(v) => v
    case Tuple(a, b, _) => HosVersion(a, b, b)
  }

  predicate VersionEq(v: HosVersion, other: VersionOperand)
  {
    v.Packed() == AsVersion(other).Packed()
  }

  predicate VersionGt(v: HosVersion, other: VersionOperand)
  {
    v.Packed() > AsVersion(other).Packed()
  }

  predicate VersionLt(v: HosVersion, other: VersionOperand)
  {
    v.Packed() < AsVersion(other).Packed()
  }

  /** `__ge__`: `self > other or self == other`. */
  predicate VersionGe(v: HosVersion, other: VersionOperand)
  {
    VersionGt(v, other) || VersionEq(v, other)
  }

  /** `__le__`: `self < other or self == other`. */
  predicate VersionLe(v: HosVersion, other: VersionOperand)
  {
    VersionLt(v, other) || VersionEq(v, other)
  }

  /** With components below 256, the packed value is the base-256 number major.minor.micro. */
  lemma PackedValue(v: HosVersion)
    requires v.major < 256 && v.minor < 256 && v.micro < 256
    ensures v.Packed() == v.major * 65536 + v.minor * 256 + v.micro
  {
    assert Util.Pow2(8) == 256 by {
      assert Util.Pow2(4) == 16;
    }
    assert Util.Pow2(16) == 65536 by {
      assert Util.Pow2(8) == 256 by {
        assert Util.Pow2(4) == 16;
      }
    }
    Util.OrShiftAdd(v.major * 256, 8, v.minor);
    assert v.major * 65536 == (v.major * 256) * 256;
    Util.OrLaws(v.major * 65536, v.minor * 256, 0);
    Util.OrShiftAdd(v.major, 16, v.minor * 256);
    Util.OrShiftAdd(v.major * 256 + v.minor, 8, v.micro);
    assert (v.major * 256 + v.minor) * 256 == v.major * 65536 + v.minor * 256;
  }

  /** Lexicographic order on (major, minor, micro). */
  predicate LexLess(a: HosVersion, b: HosVersion)
  {
    a.major < b.major
    || (a.major == b.major && a.minor < b.minor)
    || (a.major == b.major && a.minor == b.minor && a.micro < b.micro)
  }

  /**
   * For versions whose components are bytes, `<` is lexicographic order, `==`
   * is component equality, and `>=`/`<=` are `not <`/`not >`.
   */
  lemma VersionOrder(a: HosVersion, b: HosVersion)
    requires a.major < 256 && a.minor < 256 && a.micro < 256
    requires b.major < 256 && b.minor < 256 && b.micro < 256
    ensures VersionLt(a, Version(b)) <==> LexLess(a, b)
    ensures VersionEq(a, Version(b)) <==> a == b
    ensures VersionGe(a, Version(b)) <==> !VersionLt(a, Version(b))
    ensures VersionLe(a, Version(b)) <==> !VersionGt(a, Version(b))
  {
    PackedValue(a);
    PackedValue(b);
  }

  /**
   * The tuple quirk: comparing 3.1.0 with the tuple (3, 1, 0) compares it
   * with 3.1.1, so `>=` is false although the versions are the same.
   */
  lemma TupleMicroQuirk()
    ensures AsVersion(Tuple(3, 1, [0])) == HosVersion(3, 1, 1)
    ensures !VersionGe(HosVersion(3, 1, 0), Tuple(3, 1, [0]))
    ensures VersionGe(HosVersion(3, 1, 0), Version(HosVersion(3, 1, 0)))
  {
    PackedValue(HosVersion(3, 1, 0));
    PackedValue(HosVersion(3, 1, 1));
  }

  /** The evidently intended reading of a tuple: micro from its third element (0 when absent). */
  function AsVersionIntended(other: VersionOperand): HosVersion
  {
    match other
    case Version(v) => v
    case Tuple(a, b, rest) => HosVersion(a, b, if rest == [] then 0 else rest[0])
  }

  predicate VersionGeIntended(v: HosVersion, other: VersionOperand)
  {
    v.Packed() >= AsVersionIntended(other).Packed()
  }

  /** With the intended reading, comparing against a tuple is comparing against the version it spells. */
  lemma IntendedTupleOrder(v: HosVersion, a: nat, b: nat, c: nat)
    requires v.major < 256 && v.minor < 256 && v.micro < 256
    requires a < 256 && b < 256 && c < 256
    ensures VersionGeIntended(v, Tuple(a, b, [c])) <==> !LexLess(v, HosVersion(a, b, c))
    ensures VersionGeIntended(v, Tuple(a, b, [c])) <==> VersionGe(v, Version(HosVersion(a, b, c)))
  {
    PackedValue(v);
    PackedValue(HosVersion(a, b, c));
  }
}

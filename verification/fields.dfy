/** Composite field types of the `packet` crate generation: controller
    indices, status codes, address-type bitmasks, fixed-capacity names,
    length-prefixed blobs, the advertising-data pair, configuration
    parameters and "remaining" lists. */
module Fields {
  import opened Bytes
  import opened Wrappers
  import opened Wire

  // ---------------------------------------------------------------------
  // ErrorCode: the status byte of every reply
  // ---------------------------------------------------------------------

  const SUCCESS: nat := 0x00
  const PERMISSION_DENIED: nat := 0x14

  /** The statuses the management API defines, `Success` (0x00) through
      `PermissionDenied` (0x14). */
  predicate IsErrorCode(c: nat)
  {
    c <= PERMISSION_DENIED
  }

  type ErrorCode = c: nat | c <= 0x14

  /** `ErrorCode::success`. */
  predicate Succeeded(c: ErrorCode)
  {
    c == SUCCESS
  }

  function EncodeErrorCode(c: ErrorCode): (r: bytes)
    ensures r == [c]
  {
    var b: byte := c;
    EncodeU8(b)
  }

  /** The derived `u8` enum decoder: statuses above 0x14 are rejected. */
  function DecodeErrorCode(s: bytes): (r: Parsed<ErrorCode>)
    ensures r.Ok? <==> |s| >= 1 && IsErrorCode(s[0])
    ensures r.Ok? ==> r.value == s[0] && r.rest == s[1..]
    ensures |s| >= 1 && !IsErrorCode(s[0]) ==> r == Err(UnexpectedValue(s[0]), s[1..])
    ensures r.Ok? ==> (Succeeded(r.value) <==> s[0] == 0)
  {
    match DecodeKnown(1, IsErrorCode, s)
    case Ok(v, rest) =>
      var c: ErrorCode := v;
      Ok(c, rest)
    case Err(e, rest) => Err(e, rest)
  }

  lemma ErrorCodeRoundTrip(c: ErrorCode, t: bytes)
    ensures DecodeErrorCode(EncodeErrorCode(c) + t) == Ok(c, t)
  {
    assert (EncodeErrorCode(c) + t)[1..] == t;
  }

  // ---------------------------------------------------------------------
  // ControllerIndex: 0xFFFF on the wire means "no controller"
  // ---------------------------------------------------------------------

  const NON_CONTROLLER: u16 := 0xFFFF

  datatype ControllerIndex = ControllerId(id: u16) | NonController

  /** `From<u16> for ControllerIndex`. */
  function IndexFromU16(v: u16): (i: ControllerIndex)
    ensures i.NonController? <==> v == NON_CONTROLLER
    ensures i.ControllerId? ==> i.id == v
  {
    if v == NON_CONTROLLER then NonController else ControllerId(v)
  }

  /** `From<Option<u16>> for ControllerIndex`: no index and the reserved
      value both mean "no controller". */
  function IndexFromOption(o: Option<u16>): (i: ControllerIndex)
    ensures i.NonController? <==> o.None? || o.value == NON_CONTROLLER
    ensures i.ControllerId? ==> o.Some? && i.id == o.value
  {
    match o
    case Some(v) => if v != NON_CONTROLLER then ControllerId(v) else NonController
    case None => NonController
  }

  /** `From<ControllerIndex> for u16`. */
  function IndexToU16(i: ControllerIndex): (v: u16)
    ensures i.NonController? ==> v == NON_CONTROLLER
    ensures i.ControllerId? ==> v == i.id
  {
    match i
    case ControllerId(v) => v
    case NonController => NON_CONTROLLER
  }

  /** Every u16 survives the trip through a controller index. */
  lemma U16ThroughIndex(v: u16)
    ensures IndexToU16(IndexFromU16(v)) == v
  {
  }

  /** Every index survives the trip through a u16, except
      `ControllerId(0xFFFF)`, which comes back as `NonController`. */
  lemma IndexThroughU16(i: ControllerIndex)
    ensures IndexFromU16(IndexToU16(i)) == i <==> i != ControllerId(NON_CONTROLLER)
    ensures i == ControllerId(NON_CONTROLLER) ==> IndexFromU16(IndexToU16(i)) == NonController
  {
  }

  /** The optional form agrees with the plain one on every present value. */
  lemma IndexFromOptionAgrees(o: Option<u16>)
    ensures o.Some? ==> IndexFromOption(o) == IndexFromU16(o.value)
    ensures o.None? ==> IndexFromOption(o) == IndexFromU16(NON_CONTROLLER)
  {
  }

  function EncodeIndex(i: ControllerIndex): (r: bytes)
    ensures |r| == 2 && FromLE(r) == IndexToU16(i)
  {
    var r := EncodeU16(IndexToU16(i));
    assert r == U16LE(IndexToU16(i));
    assert Pow256(2) == 0x1_0000;
    FromToLE(IndexToU16(i), 2);
    r
  }

  function DecodeIndex(s: bytes): (r: Parsed<ControllerIndex>)
    ensures r.Ok? <==> |s| >= 2
    ensures r.Ok? ==> r.value == IndexFromU16(DecodeU16(s).value) && r.rest == s[2..]
  {
    match DecodeU16(s)
    case Ok(v, rest) => Ok(IndexFromU16(v), rest)
    case Err(e, rest) => Err(e, rest)
  }

  lemma IndexCodecRoundTrip(i: ControllerIndex, t: bytes)
    requires i != ControllerId(NON_CONTROLLER)
    ensures DecodeIndex(EncodeIndex(i) + t) == Ok(i, t)
  {
    U16RoundTrip(IndexToU16(i), t);
  }

  // ---------------------------------------------------------------------
  // AddressTypes: a one-byte bitmask over three address types
  // ---------------------------------------------------------------------

  datatype AddressType = BrEdr | LePublic | LeRandom

  /** The bit an address type occupies: bit 0, 1 or 2. */
  function TypeBit(t: AddressType): nat
  {
    match t
    case BrEdr => 0
    case LePublic => 1
    case LeRandom => 2
  }

  function Pow2(k: nat): (r: nat)
    ensures r >= 1
  {
    if k == 0 then 1 else 2 * Pow2(k - 1)
  }

  /** `v & (1 << k) != 0`. */
  predicate BitSet(v: nat, k: nat)
  {
    (v / Pow2(k)) % 2 == 1
  }

  /** The bitmask of a set: each member's bit is or-ed in. The three bits
      are distinct, so the or is their sum. */
  function AddressTypesMask(s: set<AddressType>): (b: byte)
    ensures b < 8
    ensures forall t: AddressType :: BitSet(b, TypeBit(t)) <==> t in s
  {
    var b := (if BrEdr in s then 1 else 0)
           + (if LePublic in s then 2 else 0)
           + (if LeRandom in s then 4 else 0);
    assert Pow2(1) == 2 && Pow2(2) == 4;
    b
  }

  /** The set a mask byte denotes: bits 0 to 2; bits 3 to 7 are ignored. */
  function AddressTypesOfMask(b: byte): (s: set<AddressType>)
    ensures forall t: AddressType :: t in s <==> BitSet(b, TypeBit(t))
  {
    assert Pow2(1) == 2 && Pow2(2) == 4;
    (if BitSet(b, 0) then {BrEdr} else {})
      + (if BitSet(b, 1) then {LePublic} else {})
      + (if BitSet(b, 2) then {LeRandom} else {})
  }

  lemma AddressTypesMaskRoundTrip(s: set<AddressType>)
    ensures AddressTypesOfMask(AddressTypesMask(s)) == s
  {
    var s' := AddressTypesOfMask(AddressTypesMask(s));
    assert forall t: AddressType :: t in s' <==> t in s;
  }

  /** Only the low three bits of the mask byte matter. */
  lemma MaskIgnoresHighBits(b: byte)
    ensures AddressTypesOfMask(b) == AddressTypesOfMask(b % 8)
  {
    assert Pow2(1) == 2 && Pow2(2) == 4;
    LowBits(b);
    var x, y := AddressTypesOfMask(b), AddressTypesOfMask(b % 8);
    assert forall t: AddressType :: t in x <==> t in y;
  }

  /** Bits 0 to 2 of a number are bits 0 to 2 of its remainder mod 8. */
  lemma LowBits(b: nat)
    ensures b % 2 == (b % 8) % 2
    ensures (b / 2) % 2 == ((b % 8) / 2) % 2
    ensures (b / 4) % 2 == ((b % 8) / 4) % 2
  {
    var h, l := b / 8, b % 8;
    DivUnique(b, 2, 4 * h + l / 2, l % 2);
    DivUnique(b, 4, 2 * h + l / 4, l % 4);
  }

  function EncodeAddressTypes(s: set<AddressType>): (r: bytes)
    ensures |r| == 1 && AddressTypesOfMask(r[0]) == s
  {
    AddressTypesMaskRoundTrip(s);
    EncodeU8(AddressTypesMask(s))
  }

  function DecodeAddressTypes(s: bytes): (r: Parsed<set<AddressType>>)
    ensures r.Ok? <==> |s| >= 1
    ensures r.Ok? ==> r.value == AddressTypesOfMask(s[0]) && r.rest == s[1..]
    ensures r.Err? ==> r.error == NoDataAvailable
  {
    match DecodeU8(s)
    case Ok(v, rest) => Ok(AddressTypesOfMask(v), rest)
    case Err(e, rest) => Err(e, rest)
  }

  lemma AddressTypesRoundTrip(s: set<AddressType>, t: bytes)
    ensures DecodeAddressTypes(EncodeAddressTypes(s) + t) == Ok(s, t)
  {
    assert (EncodeAddressTypes(s) + t)[1..] == t;
  }

  // ---------------------------------------------------------------------
  // Name and ShortName: NUL-terminated, zero-padded to a fixed capacity
  // ---------------------------------------------------------------------

  const NAME_LEN: nat := 249
  const SHORT_NAME_LEN: nat := 11

  datatype NameError = NulError | LengthTooLong(limit: nat, actual: nat)

  predicate NoNul(t: bytes)
  {
    forall i :: 0 <= i < |t| ==> t[i] != 0
  }

  /** `Name::new` (capacity 249) and `ShortName::new` (capacity 11): the
      bytes must not contain NUL (checked first, by `CString::new`), must
      fit together with their terminator, and are then padded with zeros
      to exactly the capacity. */
  function NewName(cap: nat, t: bytes): (r: Outcome<bytes, NameError>)
    ensures r.Success? <==> NoNul(t) && |t| + 1 <= cap
    ensures r.Success? ==> |r.value| == cap && r.value[..|t|] == t
    ensures r.Success? ==> forall i :: |t| <= i < cap ==> r.value[i] == 0
    ensures !NoNul(t) ==> r == Failure(NulError)
    ensures NoNul(t) && |t| + 1 > cap ==> r == Failure(LengthTooLong(cap, |t| + 1))
  {
    if !NoNul(t) then Failure(NulError)
    else if |t| + 1 > cap then Failure(LengthTooLong(cap, |t| + 1))
    else Success(t + Zeros(cap - |t|))
  }

  /** The bytes of a stored name up to its first NUL (what
      `to_string_lossy` decodes as text). */
  function NameText(b: bytes): (r: bytes)
    ensures |r| <= |b| && r == b[..|r|] && NoNul(r)
    ensures |r| < |b| ==> b[|r|] == 0
  {
    if |b| == 0 || b[0] == 0 then [] else [b[0]] + NameText(b[1..])
  }

  lemma {:induction false} NameTextOfPadded(t: bytes, pad: nat)
    requires NoNul(t) && pad > 0
    ensures NameText(t + Zeros(pad)) == t
  {
    if |t| > 0 {
      assert (t + Zeros(pad))[1..] == t[1..] + Zeros(pad);
      NameTextOfPadded(t[1..], pad);
      assert [t[0]] + t[1..] == t;
    }
  }

  /** A name made by `new` reads back as the text it was made from. */
  lemma NameTextOfNew(cap: nat, t: bytes)
    requires NewName(cap, t).Success?
    ensures NameText(NewName(cap, t).value) == t
  {
    NameTextOfPadded(t, cap - |t|);
  }

  // ---------------------------------------------------------------------
  // VariableLengthBytes<u16> / <u8>
  // ---------------------------------------------------------------------

  /** The width of a length prefix: `u8` or `u16`. */
  datatype LenWidth = L8 | L16

  function WidthOf(l: LenWidth): (n: nat)
    ensures n == 1 || n == 2
  {
    if l == L8 then 1 else 2
  }

  /** The length (`len() as u8` / `as u16`, so it wraps), then the bytes. */
  function EncodeVlb(l: LenWidth, b: bytes): (r: bytes)
    ensures |r| == WidthOf(l) + |b| && r[WidthOf(l)..] == b
    ensures FromLE(r[..WidthOf(l)]) == |b| % Pow256(WidthOf(l))
  {
    var w := WidthOf(l);
    var n := |b| % Pow256(w);
    FromToLE(n, w);
    assert (ToLE(n, w) + b)[..w] == ToLE(n, w);
    ToLE(n, w) + b
  }

  /** The length prefix, then that many bytes read through `take`; if the
      input ends first, the decode fails with an `Other` I/O error
      ("few bytes."). */
  function DecodeVlb(l: LenWidth, s: bytes): (r: Parsed<bytes>)
    ensures r.Ok? ==> |s| >= WidthOf(l) && s == s[..WidthOf(l)] + r.value + r.rest
    ensures r.Ok? ==> |r.value| == FromLE(s[..WidthOf(l)])
    ensures |s| >= WidthOf(l) && FromLE(s[..WidthOf(l)]) > |s| - WidthOf(l) ==> r == Err(Io(Other), [])
    ensures |s| >= WidthOf(l) && FromLE(s[..WidthOf(l)]) <= |s| - WidthOf(l) ==> r.Ok?
  {
    var w := WidthOf(l);
    match DecodeUInt(w, s)
    case Err(e, rest) => Err(e, rest)
    case Ok(n, rest) =>
      assert s[..w] == ToLE(n, w);
      FromToLE(n, w);
      var k := Min(n, |rest|);
      if k != n then Err(Io(Other), rest[k..])
      else
        assert s == s[..w] + rest[..n] + rest[n..];
        Ok(rest[..n], rest[n..])
  }

  lemma VlbRoundTrip(l: LenWidth, b: bytes, t: bytes)
    requires |b| < Pow256(WidthOf(l))
    ensures DecodeVlb(l, EncodeVlb(l, b) + t) == Ok(b, t)
  {
    var w := WidthOf(l);
    var s := EncodeVlb(l, b) + t;
    assert EncodeVlb(l, b) == ToLE(|b|, w) + b;
    assert s == ToLE(|b|, w) + (b + t);
    UIntRoundTrip(|b|, w, b + t);
    assert DecodeUInt(w, s) == Ok(|b|, b + t);
    assert (b + t)[..|b|] == b;
    assert (b + t)[|b|..] == t;
  }

  // ---------------------------------------------------------------------
  // AdvDataScanResp: two u8 lengths, then both blobs
  // ---------------------------------------------------------------------

  datatype AdvDataScanResp = AdvDataScanResp(advData: bytes, scanResp: bytes)

  function EncodeAdvDataScanResp(a: AdvDataScanResp): (r: bytes)
    ensures |r| == 2 + |a.advData| + |a.scanResp|
    ensures r[0] == |a.advData| % 256 && r[1] == |a.scanResp| % 256
    ensures r[2..] == a.advData + a.scanResp
  {
    [|a.advData| % 256, |a.scanResp| % 256] + a.advData + a.scanResp
  }

  /** Reads `n` bytes through `take(limit)`: the bytes read and the rest,
      or the "unexpected length." error when fewer than `n` came back. */
  function TakeExactly(limit: nat, n: nat, s: bytes): (r: Parsed<bytes>)
    ensures r.Ok? <==> Min(limit, |s|) == n
    ensures r.Ok? ==> r.value == s[..n] && r.rest == s[n..]
    ensures r.Err? ==> r.error == Io(Other) && r.rest == s[Min(limit, |s|)..]
  {
    var k := Min(limit, |s|);
    if k != n then Err(Io(Other), s[k..]) else Ok(s[..k], s[k..])
  }

  /** `AdvDataScanResp::unpack` as written: the scan response is read
      through `take(adv_data_len)` instead of `take(scan_resp_len)`, and
      then checked against `scan_resp_len`. */
  function DecodeAdvDataScanRespAsWritten(s: bytes): (r: Parsed<AdvDataScanResp>)
  {
    match DecodePair(DecodeU8, DecodeU8, s)
    case Err(e, rest) => Err(e, rest)
    case Ok(lens, rest) =>
      match TakeExactly(lens.0, lens.0, rest)
      case Err(e, rest1) => Err(e, rest1)
      case Ok(adv, rest1) =>
        match TakeExactly(lens.0, lens.1, rest1)
        case Err(e, rest2) => Err(e, rest2)
        case Ok(scan, rest2) => Ok(AdvDataScanResp(adv, scan), rest2)
  }

  /** An empty advertising blob and a one-byte scan response: the encoder
      writes `00 01 01`, and the decoder as written rejects it, because it
      reads at most 0 bytes for the scan response. */
  lemma AdvDataScanRespAsWrittenRejects()
    ensures EncodeAdvDataScanResp(AdvDataScanResp([], [1])) == [0, 1, 1]
    ensures DecodeAdvDataScanRespAsWritten([0, 1, 1]) == Err(Io(Other), [1])
  {
    assert DecodeU8([0, 1, 1]) == Ok(0, [1, 1]);
    assert DecodeU8([1, 1]) == Ok(1, [1]);
    assert DecodePair(DecodeU8, DecodeU8, [0, 1, 1]) == Ok((0, 1), [1]);
    assert TakeExactly(0, 0, [1]) == Ok([], [1]);
    assert TakeExactly(0, 1, [1]) == Err(Io(Other), [1]);
  }

  /** When the two blobs have the same length and are followed by nothing
      the slip goes unnoticed: the decoder as written reads them back. */
  lemma AdvDataScanRespAsWrittenEqualLengths(a: AdvDataScanResp)
    requires |a.advData| == |a.scanResp| < 256
    ensures DecodeAdvDataScanRespAsWritten(EncodeAdvDataScanResp(a)) == Ok(a, [])
  {
    var n := |a.advData|;
    var body := a.advData + a.scanResp;
    assert EncodeAdvDataScanResp(a) == [n] + ([n] + body);
    assert DecodeU8(EncodeAdvDataScanResp(a)) == Ok(n, [n] + body);
    assert DecodeU8([n] + body) == Ok(n, body);
    assert body[..n] == a.advData && body[n..] == a.scanResp;
    assert a.scanResp[..n] == a.scanResp && a.scanResp[n..] == [];
  }

  /** `AdvDataScanResp::unpack` as intended: the scan response is read
      through `take(scan_resp_len)`. */
  function DecodeAdvDataScanResp(s: bytes): (r: Parsed<AdvDataScanResp>)
    ensures r.Ok? ==> |s| >= 2 && s == EncodeAdvDataScanResp(r.value) + r.rest
    ensures r.Ok? ==> |r.value.advData| == s[0] && |r.value.scanResp| == s[1]
    ensures |s| >= 2 && s[0] + s[1] > |s| - 2 ==> r.Err? && r.error == Io(Other)
    ensures |s| >= 2 && s[0] + s[1] <= |s| - 2 ==> r.Ok?
  {
    LengthsOf(s);
    match DecodePair(DecodeU8, DecodeU8, s)
    case Err(e, rest) => Err(e, rest)
    case Ok(lens, rest) =>
      var r := DecodeBlobs(lens.0, lens.1, rest);
      if r.Ok? then BlobsSplit(s, r.value.advData, r.value.scanResp, r.rest); r else r
  }

  /** The two blobs after the length bytes, each read through `take` of its
      own length. */
  function DecodeBlobs(advLen: byte, scanLen: byte, s: bytes): (r: Parsed<AdvDataScanResp>)
    ensures r.Ok? <==> advLen + scanLen <= |s|
    ensures r.Ok? ==> |r.value.advData| == advLen && |r.value.scanResp| == scanLen
    ensures r.Ok? ==> s == r.value.advData + (r.value.scanResp + r.rest)
    ensures r.Err? ==> r.error == Io(Other)
  {
    match TakeExactly(advLen, advLen, s)
    case Err(e, rest1) => Err(e, rest1)
    case Ok(adv, rest1) =>
      match TakeExactly(scanLen, scanLen, rest1)
      case Err(e, rest2) => Err(e, rest2)
      case Ok(scan, rest2) =>
        assert s == s[..advLen] + (rest1[..scanLen] + rest1[scanLen..]);
        Ok(AdvDataScanResp(adv, scan), rest2)
  }

  /** The two length bytes at the front, or `NoDataAvailable`. */
  lemma LengthsOf(s: bytes)
    ensures DecodePair(DecodeU8, DecodeU8, s)
            == if |s| >= 2 then Ok((s[0], s[1]), s[2..]) else Err(NoDataAvailable, [])
  {
    if |s| >= 2 {
      assert s[1..][1..] == s[2..];
    }
  }

  /** A buffer whose tail after the lengths is two blobs and a rest is the
      encoding of those blobs followed by the rest. */
  lemma BlobsSplit(s: bytes, adv: bytes, scan: bytes, rest: bytes)
    requires |s| >= 2 && s[0] == |adv| && s[1] == |scan|
    requires s[2..] == adv + (scan + rest)
    ensures s == EncodeAdvDataScanResp(AdvDataScanResp(adv, scan)) + rest
  {
    assert s == [s[0], s[1]] + s[2..];
  }

  lemma AdvDataScanRespRoundTrip(a: AdvDataScanResp, t: bytes)
    requires |a.advData| < 256 && |a.scanResp| < 256
    ensures DecodeAdvDataScanResp(EncodeAdvDataScanResp(a) + t) == Ok(a, t)
  {
    var n, m := |a.advData|, |a.scanResp|;
    var body := a.advData + (a.scanResp + t);
    assert EncodeAdvDataScanResp(a) + t == [n, m] + body;
    TwoLengths(n, m, body);
    TakeExactlyPrefix(a.advData, a.scanResp + t);
    TakeExactlyPrefix(a.scanResp, t);
  }

  /** Two length bytes read as a pair. */
  lemma TwoLengths(n: byte, m: byte, body: bytes)
    ensures DecodePair(DecodeU8, DecodeU8, [n, m] + body) == Ok((n, m), body)
  {
    assert ([n, m] + body)[1..] == [m] + body;
    assert ([m] + body)[1..] == body;
  }

  /** Taking exactly the bytes that are there. */
  lemma TakeExactlyPrefix(x: bytes, t: bytes)
    ensures TakeExactly(|x|, |x|, x + t) == Ok(x, t)
  {
    assert (x + t)[..|x|] == x;
    assert (x + t)[|x|..] == t;
  }

  // ---------------------------------------------------------------------
  // Configuration parameters: type, then a u8-length-prefixed u16 value
  // ---------------------------------------------------------------------

  /** The type codes of `SystemConfigurationParameter`: 0x0000 (BR/EDR
      page scan type) through 0x001b (LE autoconnect timeout). */
  predicate IsSystemParameterType(t: nat)
  {
    t <= 0x001b
  }

  /** `RuntimeConfigurationParameter` declares no type codes at all. */
  predicate IsRuntimeParameterType(t: nat)
  {
    false
  }

  /** A parameter: its type code and its 16-bit value. */
  datatype ConfigParameter = ConfigParameter(typ: u16, value: u16)

  function EncodeConfigParameter(p: ConfigParameter): (r: bytes)
    ensures |r| == 5 && r[..2] == EncodeU16(p.typ) && r[2] == 2 && r[3..] == EncodeU16(p.value)
  {
    assert Pow256(1) == 256;
    EncodeU16(p.typ) + EncodeVlb(L8, EncodeU16(p.value))
  }

  /** Decodes a parameter of the enum whose type codes `known` accepts. The
      type and the blob are read first; an unknown type, or a value blob
      that is not exactly two bytes, is an `Other` I/O error. */
  function DecodeConfigParameter(known: nat -> bool, s: bytes): (r: Parsed<ConfigParameter>)
    ensures r.Ok? ==> known(r.value.typ) && s == EncodeConfigParameter(r.value) + r.rest
    ensures DecodeU16(s).Ok? && DecodeVlb(L8, DecodeU16(s).rest).Ok? &&
            (!known(DecodeU16(s).value) || |DecodeVlb(L8, DecodeU16(s).rest).value| != 2)
            ==> r.Err? && r.error == Io(Other)
    ensures DecodeU16(s).Ok? && DecodeVlb(L8, DecodeU16(s).rest).Ok? &&
            known(DecodeU16(s).value) && |DecodeVlb(L8, DecodeU16(s).rest).value| == 2
            ==> r == Ok(ConfigParameter(DecodeU16(s).value, DecodeU16(DecodeVlb(L8, DecodeU16(s).rest).value).value),
                        DecodeVlb(L8, DecodeU16(s).rest).rest)
  {
    match DecodeU16(s)
    case Err(e, rest) => Err(e, rest)
    case Ok(t, rest) =>
      match DecodeVlb(L8, rest)
      case Err(e, rest2) => Err(e, rest2)
      case Ok(v, rest2) =>
        if !known(t) then Err(Io(Other), rest2)
        else if |v| != 2 then Err(Io(Other), rest2)
        else
          var value := DecodeU16(v).value;
          assert v == EncodeU16(value);
          assert Pow256(1) == 256;
          assert rest[..1] == [2];
          assert rest == EncodeVlb(L8, v) + rest2;
          Ok(ConfigParameter(t, value), rest2)
  }

  lemma ConfigParameterRoundTrip(known: nat -> bool, p: ConfigParameter, t: bytes)
    requires known(p.typ)
    ensures DecodeConfigParameter(known, EncodeConfigParameter(p) + t) == Ok(p, t)
  {
    var blob := EncodeVlb(L8, EncodeU16(p.value));
    assert EncodeConfigParameter(p) + t == EncodeU16(p.typ) + (blob + t);
    U16RoundTrip(p.typ, blob + t);
    assert Pow256(1) == 256;
    VlbRoundTrip(L8, EncodeU16(p.value), t);
    U16RoundTrip(p.value, []);
    assert EncodeU16(p.value) + [] == EncodeU16(p.value);
  }

  /** A runtime parameter never decodes: there is no type code to match. */
  lemma RuntimeParameterNeverDecodes(s: bytes)
    ensures DecodeConfigParameter(IsRuntimeParameterType, s).Err?
  {
  }

  // ---------------------------------------------------------------------
  // Remaining<T>: items until the input runs out
  // ---------------------------------------------------------------------

  /** A decoder that consumes input whenever it succeeds. `Remaining<T>`
      loops for ever on an item type that decodes from nothing. */
  ghost predicate Consumes<T>(dec: bytes -> Parsed<T>)
  {
    forall s: bytes :: dec(s).Ok? ==> |dec(s).rest| < |s|
  }

  /** `Remaining<T>::unpack`: items until one reports `NoDataAvailable`,
      which ends the list successfully; any other error propagates. */
  function DecodeRemaining<T>(dec: bytes -> Parsed<T>, s: bytes): (r: Parsed<seq<T>>)
    requires Consumes(dec)
    ensures r.Err? ==> r.error != NoDataAvailable
    ensures dec(s).Err? && dec(s).error == NoDataAvailable ==> r == Ok([], dec(s).rest)
    ensures dec(s).Err? && dec(s).error != NoDataAvailable ==> r == Err(dec(s).error, dec(s).rest)
    ensures dec(s).Ok? && r.Ok? ==> |r.value| >= 1 && r.value[0] == dec(s).value
    decreases |s|
  {
    match dec(s)
    case Err(e, rest) => if e == NoDataAvailable then Ok([], rest) else Err(e, rest)
    case Ok(v, rest) =>
      match DecodeRemaining(dec, rest)
      case Err(e, rest2) => Err(e, rest2)
      case Ok(vs, rest2) => Ok([v] + vs, rest2)
  }

  /** The loop's requirement is not met by every item type: `Option<u8>`
      decodes `None` from empty input without consuming anything, so
      `Remaining<Option<u8>>` would read `None` for ever. */
  lemma OptionItemConsumesNothing()
    ensures !Consumes((s: bytes) => DecodeOption(DecodeU8, s))
    ensures DecodeOption(DecodeU8, []) == Ok(None, [])
  {
    var dec := (s: bytes) => DecodeOption(DecodeU8, s);
    assert dec([]).Ok? && |dec([]).rest| == 0;
  }

  /** `Remaining<T>::pack`: the items one after the other. */
  function EncodeRemaining<T>(enc: T -> bytes, xs: seq<T>): (r: bytes)
    ensures |xs| == 0 ==> r == []
  {
    EncodeAll(enc, xs)
  }

  lemma {:induction false} RemainingRoundTrip<T(!new)>(enc: T -> bytes, dec: bytes -> Parsed<T>, xs: seq<T>)
    requires Inverse(enc, dec) && Consumes(dec)
    requires dec([]) == Err(NoDataAvailable, [])
    ensures DecodeRemaining(dec, EncodeRemaining(enc, xs)) == Ok(xs, [])
    decreases |xs|
  {
    if |xs| > 0 {
      var tail := EncodeAll(enc, xs[1..]);
      assert RoundTripAt(enc, dec, xs[0], tail);
      RemainingRoundTrip(enc, dec, xs[1..]);
      assert [xs[0]] + xs[1..] == xs;
    }
  }

  /** A pair of bytes: a two-field item, used to show how a trailing
      partial item is treated. */
  function DecodeBytePair(s: bytes): (r: Parsed<(byte, byte)>)
    ensures r.Ok? ==> |r.rest| + 2 == |s|
  {
    DecodePair(DecodeU8, DecodeU8, s)
  }

  /** An item cut short after its first field reports `NoDataAvailable`
      from its second field, so the list ends there without an error and
      the partial item's bytes are consumed and dropped. */
  lemma RemainingDropsPartialItem()
    ensures Consumes(DecodeBytePair)
    ensures DecodeRemaining(DecodeBytePair, [1, 2, 3]) == Ok([(1, 2)], [])
  {
    assert Consumes(DecodeBytePair) by {
      forall s: bytes | DecodeBytePair(s).Ok?
        ensures |DecodeBytePair(s).rest| < |s|
      {
      }
    }
    assert DecodeU8([1, 2, 3]) == Ok(1, [2, 3]);
    assert DecodeU8([2, 3]) == Ok(2, [3]);
    assert DecodeBytePair([1, 2, 3]) == Ok((1, 2), [3]);
    assert DecodeU8([3]) == Ok(3, []);
    assert DecodeU8([]) == Err(NoDataAvailable, []);
    assert DecodeBytePair([3]) == Err(NoDataAvailable, []);
    assert DecodeRemaining(DecodeBytePair, [3]) == Ok([], []);
    var one: seq<(byte, byte)> := [(1, 2)];
    assert one + [] == one;
    assert DecodeRemaining(DecodeBytePair, [1, 2, 3]) == Ok(one + [], []);
  }
}

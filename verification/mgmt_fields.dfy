/** The field types of the `btmgmt` generation of the library.

    This generation reads from a `bytes::Buf` instead of an `io::Read`. A
    read that needs more bytes than remain fails with `Overflow` and does
    not advance the buffer, and an unknown enum value fails with
    `Unexpected`. The wire format is the one the `packet` generation uses,
    so the encoders are shared with `Wire` and `Fields`, and several lemmas
    here show that the two generations' decoders accept the same inputs and
    agree on what they decode. */
module MgmtFields {
  import opened Bytes
  import opened Wrappers
  import opened Wire
  import opened Fields
  import opened Codes

  // ---------------------------------------------------------------------
  // Buf primitives
  // ---------------------------------------------------------------------

  /** An integer `width` bytes wide, least significant byte first, or
      `Overflow` with nothing consumed when fewer bytes remain. */
  function GetUInt(width: nat, s: bytes): (r: Parsed<nat>)
    ensures r.Ok? <==> |s| >= width
    ensures r.Ok? ==> r.value < Pow256(width) && s == ToLE(r.value, width) + r.rest
    ensures r.Ok? ==> r.value == FromLE(s[..width])
    ensures r.Err? ==> r == Err(Overflow, s)
  {
    if |s| < width then Err(Overflow, s)
    else
      ToFromLE(s[..width]);
      assert s == s[..width] + s[width..];
      Ok(FromLE(s[..width]), s[width..])
  }

  lemma GetUIntRoundTrip(v: nat, width: nat, t: bytes)
    requires v < Pow256(width)
    ensures GetUInt(width, ToLE(v, width) + t) == Ok(v, t)
  {
    var s := ToLE(v, width) + t;
    assert s[..width] == ToLE(v, width);
    assert s[width..] == t;
    FromToLE(v, width);
  }

  function GetU8(s: bytes): (r: Parsed<byte>)
    ensures r.Ok? <==> |s| >= 1
    ensures r.Ok? ==> s == EncodeU8(r.value) + r.rest
    ensures r.Err? ==> r == Err(Overflow, s)
  {
    if |s| < 1 then Err(Overflow, s)
    else
      assert s == [s[0]] + s[1..];
      Ok(s[0], s[1..])
  }

  function GetU16(s: bytes): (r: Parsed<u16>)
    ensures r.Ok? <==> |s| >= 2
    ensures r.Ok? ==> s == EncodeU16(r.value) + r.rest
    ensures r.Err? ==> r == Err(Overflow, s)
  {
    match GetUInt(2, s)
    case Err(e, rest) => Err(e, rest)
    case Ok(v, rest) =>
      assert Pow256(2) == 0x1_0000;
      var w: u16 := v;
      Ok(w, rest)
  }

  lemma GetU16RoundTrip(v: u16, t: bytes)
    ensures GetU16(EncodeU16(v) + t) == Ok(v, t)
  {
    assert Pow256(2) == 0x1_0000;
    assert EncodeU16(v) == ToLE(v, 2);
    GetUIntRoundTrip(v, 2, t);
  }

  /** Both generations read a u16 from the same inputs and get the same
      value and the same rest; only the error differs. */
  lemma U16GenerationsAgree(s: bytes)
    ensures GetU16(s).Ok? <==> DecodeU16(s).Ok?
    ensures GetU16(s).Ok? ==> GetU16(s) == DecodeU16(s)
  {
    if |s| >= 2 {
      var v := GetU16(s).value;
      assert s == EncodeU16(v) + s[2..];
      U16RoundTrip(v, s[2..]);
    }
  }

  /** A fixed array `[u8; n]`: exactly `n` bytes, or `Overflow`. */
  function GetArray(n: nat, s: bytes): (r: Parsed<bytes>)
    ensures r.Ok? <==> |s| >= n
    ensures r.Ok? ==> |r.value| == n && s == r.value + r.rest
    ensures r.Err? ==> r == Err(Overflow, s)
  {
    if |s| < n then Err(Overflow, s)
    else
      assert s == s[..n] + s[n..];
      Ok(s[..n], s[n..])
  }

  // ---------------------------------------------------------------------
  // Command and event codes
  // ---------------------------------------------------------------------

  function EncodeCommandCode(c: MgmtCommandCode): (r: bytes)
    ensures |r| == 2
  {
    EncodeU16(c)
  }

  function EncodeEventCode(c: EventCode): (r: bytes)
    ensures |r| == 2
  {
    EncodeU16(c)
  }

  /** `CommandCode::unpack`: a u16 that must be one of the declared command
      codes; any other value is `Unexpected`. */
  function GetCommandCode(s: bytes): (r: Parsed<MgmtCommandCode>)
    ensures GetU16(s).Err? ==> r == Err(Overflow, s)
    ensures GetU16(s).Ok? ==> (r.Ok? <==> IsMgmtCommandCode(GetU16(s).value))
    ensures r.Ok? ==> s == EncodeCommandCode(r.value) + r.rest
    ensures r.Err? && |s| >= 2 ==> r == Err(Unexpected, s[2..])
  {
    match GetU16(s)
    case Err(e, rest) => Err(e, rest)
    case Ok(v, rest) =>
      if 0x0001 <= v <= 0x0053 then
        var c: MgmtCommandCode := v;
        Ok(c, rest)
      else
        assert rest == s[2..];
        Err(Unexpected, rest)
  }

  /** `EventCode::unpack`: a u16 that must be one of the declared event
      codes; any other value is `Unexpected`. */
  function GetEventCode(s: bytes): (r: Parsed<EventCode>)
    ensures GetU16(s).Err? ==> r == Err(Overflow, s)
    ensures GetU16(s).Ok? ==> (r.Ok? <==> IsEventCode(GetU16(s).value))
    ensures r.Ok? ==> s == EncodeEventCode(r.value) + r.rest
    ensures r.Err? && |s| >= 2 ==> r == Err(Unexpected, s[2..])
  {
    match GetU16(s)
    case Err(e, rest) => Err(e, rest)
    case Ok(v, rest) =>
      if 0x0001 <= v <= 0x002E then
        var c: EventCode := v;
        Ok(c, rest)
      else
        assert rest == s[2..];
        Err(Unexpected, rest)
  }

  lemma CommandCodeInverse()
    ensures Inverse(EncodeCommandCode, GetCommandCode)
  {
    forall c: MgmtCommandCode, t: bytes
      ensures RoundTripAt(EncodeCommandCode, GetCommandCode, c, t)
    {
      GetU16RoundTrip(c, t);
    }
  }

  lemma EventCodeInverse()
    ensures Inverse(EncodeEventCode, GetEventCode)
  {
    forall c: EventCode, t: bytes
      ensures RoundTripAt(EncodeEventCode, GetEventCode, c, t)
    {
      GetU16RoundTrip(c, t);
    }
  }

  // ---------------------------------------------------------------------
  // CommandsEvents: two counts, then the command codes, then the events
  // ---------------------------------------------------------------------

  /** The payload of the Read Management Supported Commands reply. The
      reply's `commands()` and `events()` accessors return these two
      lists. */
  datatype CommandsEvents = CommandsEvents(commands: seq<MgmtCommandCode>, events: seq<EventCode>)

  /** Both counts first (each `len() as u16`, so they wrap), then every
      command code, then every event code. */
  function EncodeCommandsEvents(ce: CommandsEvents): (r: bytes)
    ensures |r| >= 4
    ensures r[..2] == EncodeU16(|ce.commands| % 0x1_0000)
    ensures r[2..4] == EncodeU16(|ce.events| % 0x1_0000)
    ensures r[4..] == EncodeAll(EncodeCommandCode, ce.commands) + EncodeAll(EncodeEventCode, ce.events)
  {
    EncodeU16(|ce.commands| % 0x1_0000) + EncodeU16(|ce.events| % 0x1_0000)
      + EncodeAll(EncodeCommandCode, ce.commands) + EncodeAll(EncodeEventCode, ce.events)
  }

  /** Reads both counts, then that many command codes, then that many
      event codes; the first failure aborts the decode. */
  function DecodeCommandsEvents(s: bytes): (r: Parsed<CommandsEvents>)
    ensures |s| < 4 ==> r.Err? && r.error == Overflow
    ensures r.Ok? ==> |r.value.commands| == FromLE(s[..2]) && |r.value.events| == FromLE(s[2..4])
  {
    match GetU16(s)
    case Err(e, rest) => Err(e, rest)
    case Ok(nc, rest1) =>
      match GetU16(rest1)
      case Err(e, rest) => Err(e, rest)
      case Ok(ne, rest2) =>
        assert s[..2] == EncodeU16(nc) && s[2..4] == EncodeU16(ne);
        assert Pow256(2) == 0x1_0000;
        FromToLE(nc, 2);
        FromToLE(ne, 2);
        match DecodeItems(GetCommandCode, nc, rest2)
        case Err(e, rest) => Err(e, rest)
        case Ok(cs, rest3) =>
          match DecodeItems(GetEventCode, ne, rest3)
          case Err(e, rest) => Err(e, rest)
          case Ok(es, rest4) => Ok(CommandsEvents(cs, es), rest4)
  }

  /** The supported-commands payload reads back as the same two lists,
      which is what `commands()` and `events()` then return. */
  lemma CommandsEventsRoundTrip(ce: CommandsEvents, t: bytes)
    requires |ce.commands| < 0x1_0000 && |ce.events| < 0x1_0000
    ensures DecodeCommandsEvents(EncodeCommandsEvents(ce) + t) == Ok(ce, t)
  {
    var cbytes := EncodeAll(EncodeCommandCode, ce.commands);
    var ebytes := EncodeAll(EncodeEventCode, ce.events);
    var s := EncodeCommandsEvents(ce) + t;
    CommandsEventsLayout(ce, t);
    GetU16RoundTrip(|ce.commands|, EncodeU16(|ce.events|) + (cbytes + (ebytes + t)));
    GetU16RoundTrip(|ce.events|, cbytes + (ebytes + t));
    CommandCodeInverse();
    EventCodeInverse();
    ItemsRoundTrip(EncodeCommandCode, GetCommandCode, ce.commands, ebytes + t);
    ItemsRoundTrip(EncodeEventCode, GetEventCode, ce.events, t);
    assert DecodeItems(GetCommandCode, |ce.commands|, cbytes + (ebytes + t)) == Ok(ce.commands, ebytes + t);
    assert DecodeItems(GetEventCode, |ce.events|, ebytes + t) == Ok(ce.events, t);
  }

  /** The supported-commands payload: both counts, then both lists. */
  lemma CommandsEventsLayout(ce: CommandsEvents, t: bytes)
    requires |ce.commands| < 0x1_0000 && |ce.events| < 0x1_0000
    ensures EncodeCommandsEvents(ce) + t
            == EncodeU16(|ce.commands|) + (EncodeU16(|ce.events|)
               + (EncodeAll(EncodeCommandCode, ce.commands) + (EncodeAll(EncodeEventCode, ce.events) + t)))
  {
    var a, b := EncodeU16(|ce.commands|), EncodeU16(|ce.events|);
    var c, d := EncodeAll(EncodeCommandCode, ce.commands), EncodeAll(EncodeEventCode, ce.events);
    assert |ce.commands| % 0x1_0000 == |ce.commands| && |ce.events| % 0x1_0000 == |ce.events|;
    var e := EncodeCommandsEvents(ce);
    assert e == a + b + c + d;
    SeqAssoc4(a, b, c, d, t);
    assert e + t == a + b + c + d + t;
  }

  lemma SeqAssoc4<T>(a: seq<T>, b: seq<T>, c: seq<T>, d: seq<T>, t: seq<T>)
    ensures a + b + c + d + t == a + (b + (c + (d + t)))
  {
  }

  /** A list announcing one command whose code (0x0054) is not declared is
      rejected as a whole. */
  lemma CommandsEventsRejectsUnknownCode()
    ensures DecodeCommandsEvents([0x01, 0x00, 0x00, 0x00, 0x54, 0x00]) == Err(Unexpected, [])
  {
    var s: bytes := [0x01, 0x00, 0x00, 0x00, 0x54, 0x00];
    assert GetU16(s) == Ok(1, [0x00, 0x00, 0x54, 0x00]) by {
      assert s == EncodeU16(1) + [0x00, 0x00, 0x54, 0x00];
      GetU16RoundTrip(1, [0x00, 0x00, 0x54, 0x00]);
    }
    assert GetU16([0x00, 0x00, 0x54, 0x00]) == Ok(0, [0x54, 0x00]) by {
      assert [0x00, 0x00, 0x54, 0x00] == EncodeU16(0) + [0x54, 0x00];
      GetU16RoundTrip(0, [0x54, 0x00]);
    }
    assert GetU16([0x54, 0x00]) == Ok(0x54, []) by {
      assert [0x54, 0x00] == EncodeU16(0x54) + [];
      GetU16RoundTrip(0x54, []);
    }
    assert GetCommandCode([0x54, 0x00]) == Err(Unexpected, []);
  }

  // ---------------------------------------------------------------------
  // HashSet<AddressType>: the one-byte mask of the `packet` generation
  // ---------------------------------------------------------------------

  /** The mask byte through `Buf`: `Overflow` on an empty buffer. */
  function GetAddressTypes(s: bytes): (r: Parsed<set<AddressType>>)
    ensures r.Ok? <==> |s| >= 1
    ensures r.Ok? ==> r.value == AddressTypesOfMask(s[0]) && r.rest == s[1..]
    ensures r.Err? ==> r == Err(Overflow, s)
  {
    match GetU8(s)
    case Ok(v, rest) => Ok(AddressTypesOfMask(v), rest)
    case Err(e, rest) => Err(e, rest)
  }

  lemma AddressTypeSetRoundTrip(s: set<AddressType>, t: bytes)
    ensures GetAddressTypes(EncodeAddressTypes(s) + t) == Ok(s, t)
  {
    assert (EncodeAddressTypes(s) + t)[1..] == t;
  }

  // ---------------------------------------------------------------------
  // VariableLengthBytes<u16> / <u8> with an Overflow check
  // ---------------------------------------------------------------------

  /** The length prefix, then `Overflow` if fewer bytes remain than it
      declares, else exactly that many bytes. */
  function GetVlb(l: LenWidth, s: bytes): (r: Parsed<bytes>)
    ensures |s| < WidthOf(l) ==> r == Err(Overflow, s)
    ensures |s| >= WidthOf(l) && FromLE(s[..WidthOf(l)]) > |s| - WidthOf(l) ==> r == Err(Overflow, s[WidthOf(l)..])
    ensures |s| >= WidthOf(l) && FromLE(s[..WidthOf(l)]) <= |s| - WidthOf(l) ==> r.Ok?
    ensures r.Ok? ==> |r.value| == FromLE(s[..WidthOf(l)]) && s == s[..WidthOf(l)] + r.value + r.rest
  {
    var w := WidthOf(l);
    match GetUInt(w, s)
    case Err(e, rest) => Err(e, rest)
    case Ok(n, rest) =>
      assert rest == s[w..];
      if |rest| < n then Err(Overflow, rest)
      else
        assert s == s[..w] + rest[..n] + rest[n..];
        Ok(rest[..n], rest[n..])
  }

  /** The two generations accept the same length-prefixed blobs and read
      the same bytes from them. */
  lemma VlbGenerationsAgree(l: LenWidth, s: bytes)
    ensures GetVlb(l, s).Ok? <==> DecodeVlb(l, s).Ok?
    ensures GetVlb(l, s).Ok? ==> GetVlb(l, s) == DecodeVlb(l, s)
  {
    var w := WidthOf(l);
    if GetVlb(l, s).Ok? {
      var a, b := GetVlb(l, s), DecodeVlb(l, s);
      var n := FromLE(s[..w]);
      assert a.value == s[w..w + n] && a.rest == s[w + n..];
      assert b.value == s[w..w + n] && b.rest == s[w + n..];
    }
  }

  lemma GetVlbRoundTrip(l: LenWidth, b: bytes, t: bytes)
    requires |b| < Pow256(WidthOf(l))
    ensures GetVlb(l, EncodeVlb(l, b) + t) == Ok(b, t)
  {
    VlbRoundTrip(l, b, t);
    VlbGenerationsAgree(l, EncodeVlb(l, b) + t);
  }

  // ---------------------------------------------------------------------
  // AdvDataScanResp with a single Overflow check on both lengths
  // ---------------------------------------------------------------------

  /** Both u8 lengths, then `Overflow` unless the two blobs fit in what
      remains, then the advertising data and the scan response. */
  function GetAdvDataScanResp(s: bytes): (r: Parsed<AdvDataScanResp>)
    ensures |s| < 2 ==> r.Err? && r.error == Overflow
    ensures |s| >= 2 && s[0] + s[1] > |s| - 2 ==> r == Err(Overflow, s[2..])
    ensures |s| >= 2 && s[0] + s[1] <= |s| - 2 ==> r.Ok?
    ensures r.Ok? ==> s == EncodeAdvDataScanResp(r.value) + r.rest
    ensures r.Ok? ==> |r.value.advData| == s[0] && |r.value.scanResp| == s[1]
  {
    FrontBytes(s);
    match GetU8(s)
    case Err(e, rest) => Err(e, rest)
    case Ok(a, rest1) =>
      match GetU8(rest1)
      case Err(e, rest) => Err(e, rest)
      case Ok(b, rest2) =>
        if |rest2| < a + b then Err(Overflow, rest2)
        else
          SliceThree(rest2, a, b);
          BlobsSplit(s, rest2[..a], rest2[a..a + b], rest2[a + b..]);
          Ok(AdvDataScanResp(rest2[..a], rest2[a..a + b]), rest2[a + b..])
  }

  /** The first two bytes through `get_u8`. */
  lemma FrontBytes(s: bytes)
    ensures |s| >= 1 ==> GetU8(s) == Ok(s[0], s[1..])
    ensures |s| >= 2 ==> GetU8(s[1..]) == Ok(s[1], s[2..])
  {
    if |s| >= 2 {
      assert s[1..][1..] == s[2..];
    }
  }

  /** A buffer cut at two points. */
  lemma SliceThree(s: bytes, a: nat, b: nat)
    requires a + b <= |s|
    ensures s == s[..a] + (s[a..a + b] + s[a + b..])
  {
  }

  /** The `btmgmt` decoder and the corrected `packet` decoder accept the
      same inputs and read the same pair from them. */
  lemma AdvDataScanRespGenerationsAgree(s: bytes)
    ensures GetAdvDataScanResp(s).Ok? <==> DecodeAdvDataScanResp(s).Ok?
    ensures GetAdvDataScanResp(s).Ok? ==> GetAdvDataScanResp(s) == DecodeAdvDataScanResp(s)
  {
    if GetAdvDataScanResp(s).Ok? {
      var a, b := GetAdvDataScanResp(s), DecodeAdvDataScanResp(s);
      var n: nat, m: nat := s[0], s[1];
      assert a.value.advData == s[2..2 + n] && b.value.advData == s[2..2 + n];
      assert a.value.scanResp == s[2 + n..2 + n + m] && b.value.scanResp == s[2 + n..2 + n + m];
      assert a.rest == s[2 + n + m..] && b.rest == s[2 + n + m..];
    }
  }

  lemma GetAdvDataScanRespRoundTrip(a: AdvDataScanResp, t: bytes)
    requires |a.advData| < 256 && |a.scanResp| < 256
    ensures GetAdvDataScanResp(EncodeAdvDataScanResp(a) + t) == Ok(a, t)
  {
    AdvDataScanRespRoundTrip(a, t);
    AdvDataScanRespGenerationsAgree(EncodeAdvDataScanResp(a) + t);
  }

  // ---------------------------------------------------------------------
  // Configuration parameters through Buf
  // ---------------------------------------------------------------------

  /** The type and the u8-length-prefixed blob are read first; an unknown
      type, or a blob that is not exactly two bytes, is `Unexpected`. */
  function GetConfigParameter(known: nat -> bool, s: bytes): (r: Parsed<ConfigParameter>)
    ensures r.Ok? ==> known(r.value.typ) && s == EncodeConfigParameter(r.value) + r.rest
    ensures r.Err? ==> r.error == Overflow || r.error == Unexpected
    ensures GetU16(s).Ok? && GetVlb(L8, GetU16(s).rest).Ok? &&
            (!known(GetU16(s).value) || |GetVlb(L8, GetU16(s).rest).value| != 2)
            ==> r.Err? && r.error == Unexpected
    ensures GetU16(s).Ok? && GetVlb(L8, GetU16(s).rest).Ok? &&
            known(GetU16(s).value) && |GetVlb(L8, GetU16(s).rest).value| == 2
            ==> r == Ok(ConfigParameter(GetU16(s).value, GetU16(GetVlb(L8, GetU16(s).rest).value).value),
                        GetVlb(L8, GetU16(s).rest).rest)
  {
    match GetU16(s)
    case Err(e, rest) => Err(e, rest)
    case Ok(t, rest) =>
      match GetVlb(L8, rest)
      case Err(e, rest2) => Err(e, rest2)
      case Ok(v, rest2) =>
        if !known(t) then Err(Unexpected, rest2)
        else if |v| != 2 then Err(Unexpected, rest2)
        else
          var value := GetU16(v).value;
          assert v == EncodeU16(value) + GetU16(v).rest;
          assert v == EncodeU16(value);
          assert Pow256(1) == 256;
          assert rest[..1] == [2];
          assert rest == EncodeVlb(L8, v) + rest2;
          Ok(ConfigParameter(t, value), rest2)
  }

  lemma GetConfigParameterRoundTrip(known: nat -> bool, p: ConfigParameter, t: bytes)
    requires known(p.typ)
    ensures GetConfigParameter(known, EncodeConfigParameter(p) + t) == Ok(p, t)
  {
    var blob := EncodeVlb(L8, EncodeU16(p.value));
    assert EncodeConfigParameter(p) + t == EncodeU16(p.typ) + (blob + t);
    GetU16RoundTrip(p.typ, blob + t);
    assert Pow256(1) == 256;
    GetVlbRoundTrip(L8, EncodeU16(p.value), t);
    GetU16RoundTrip(p.value, []);
    assert EncodeU16(p.value) + [] == EncodeU16(p.value);
  }

  // ---------------------------------------------------------------------
  // Remaining<T> through Buf: items until the buffer is empty
  // ---------------------------------------------------------------------

  /** `Remaining<T>::unpack`: stops exactly when nothing remains; any item
      error aborts the whole list. */
  function GetRemaining<T>(dec: bytes -> Parsed<T>, s: bytes): (r: Parsed<seq<T>>)
    requires Consumes(dec)
    ensures r.Ok? ==> r.rest == [] && |r.value| <= |s|
    ensures s != [] && dec(s).Err? ==> r == Err(dec(s).error, dec(s).rest)
    ensures s != [] && r.Ok? ==> dec(s).Ok? && |r.value| >= 1 && r.value[0] == dec(s).value
    decreases |s|
  {
    if s == [] then Ok([], [])
    else
      match dec(s)
      case Err(e, rest) => Err(e, rest)
      case Ok(v, rest) =>
        match GetRemaining(dec, rest)
        case Err(e, rest2) => Err(e, rest2)
        case Ok(vs, rest2) => Ok([v] + vs, rest2)
  }

  /** Unlike the `packet` generation, no condition on how the item decoder
      treats empty input is needed: the loop never calls it there. */
  lemma {:induction false} GetRemainingRoundTrip<T(!new)>(enc: T -> bytes, dec: bytes -> Parsed<T>, xs: seq<T>)
    requires Inverse(enc, dec) && Consumes(dec)
    ensures GetRemaining(dec, EncodeRemaining(enc, xs)) == Ok(xs, [])
    decreases |xs|
  {
    if |xs| > 0 {
      var tail := EncodeAll(enc, xs[1..]);
      assert RoundTripAt(enc, dec, xs[0], tail);
      assert EncodeRemaining(enc, xs) == enc(xs[0]) + tail;
      GetRemainingRoundTrip(enc, dec, xs[1..]);
      assert [xs[0]] + xs[1..] == xs;
    }
  }

  /** Two bytes through `Buf`. */
  function GetBytePair(s: bytes): (r: Parsed<(byte, byte)>)
    ensures r.Ok? ==> |r.rest| + 2 == |s|
  {
    DecodePair(GetU8, GetU8, s)
  }

  /** A trailing partial item is an error here, where the `packet`
      generation drops it silently. */
  lemma GetRemainingRejectsPartialItem()
    ensures Consumes(GetBytePair)
    ensures GetRemaining(GetBytePair, [1, 2, 3]) == Err(Overflow, [])
  {
    assert Consumes(GetBytePair) by {
      forall s: bytes | GetBytePair(s).Ok?
        ensures |GetBytePair(s).rest| < |s|
      {
      }
    }
    assert GetU8([1, 2, 3]) == Ok(1, [2, 3]);
    assert GetU8([2, 3]) == Ok(2, [3]);
    assert GetBytePair([1, 2, 3]) == Ok((1, 2), [3]);
    assert GetU8([3]) == Ok(3, []);
    assert GetU8([]) == Err(Overflow, []);
    assert GetBytePair([3]) == Err(Overflow, []);
  }

  // ---------------------------------------------------------------------
  // AdvertisementPattern: a value zero-padded to 31 bytes
  // ---------------------------------------------------------------------

  const PATTERN_CAPACITY: nat := 31

  type PatternValue = s: bytes | |s| == 31 witness seq(31, _ => 0)

  datatype AdvertisementPattern = AdvertisementPattern(adType: byte, offset: byte, length: byte, value: PatternValue)

  /** `AdvertisementPattern::new`: the value must fit (a longer one panics
      on the slice copy); its length is recorded and it is zero-padded. */
  function NewAdvertisementPattern(adType: byte, offset: byte, value: bytes): (p: AdvertisementPattern)
    requires |value| <= PATTERN_CAPACITY
    ensures p.adType == adType && p.offset == offset && p.length == |value|
    ensures p.value[..p.length] == value
    ensures forall i :: p.length <= i < PATTERN_CAPACITY ==> p.value[i] == 0
  {
    var v: PatternValue := value + Zeros(PATTERN_CAPACITY - |value|);
    AdvertisementPattern(adType, offset, |value|, v)
  }

  /** The fields in order: three bytes, then the 31-byte value. */
  function EncodeAdvertisementPattern(p: AdvertisementPattern): (r: bytes)
    ensures |r| == 34 && r[3..] == p.value
    ensures r[0] == p.adType && r[1] == p.offset && r[2] == p.length
  {
    [p.adType, p.offset, p.length] + p.value
  }

  function GetAdvertisementPattern(s: bytes): (r: Parsed<AdvertisementPattern>)
    ensures r.Ok? <==> |s| >= 34
    ensures r.Ok? ==> s == EncodeAdvertisementPattern(r.value) + r.rest
  {
    match GetU8(s)
    case Err(e, rest) => Err(e, rest)
    case Ok(adType, rest1) =>
      match GetU8(rest1)
      case Err(e, rest) => Err(e, rest)
      case Ok(offset, rest2) =>
        match GetU8(rest2)
        case Err(e, rest) => Err(e, rest)
        case Ok(length, rest3) =>
          match GetArray(PATTERN_CAPACITY, rest3)
          case Err(e, rest) => Err(e, rest)
          case Ok(v, rest4) =>
            var value: PatternValue := v;
            assert s == [adType, offset, length] + value + rest4;
            Ok(AdvertisementPattern(adType, offset, length, value), rest4)
  }

  lemma AdvertisementPatternRoundTrip(p: AdvertisementPattern, t: bytes)
    ensures GetAdvertisementPattern(EncodeAdvertisementPattern(p) + t) == Ok(p, t)
  {
    var s := EncodeAdvertisementPattern(p) + t;
    assert s[1..] == [p.offset, p.length] + p.value + t;
    assert s[2..] == [p.length] + p.value + t;
    assert s[3..] == p.value + t;
    assert (p.value + t)[..31] == p.value && (p.value + t)[31..] == t;
  }

  /** A pattern made by `new` travels intact: decoding its encoding gives
      back the type, the offset and exactly the value it was made from. */
  lemma NewPatternTravels(adType: byte, offset: byte, value: bytes, t: bytes)
    requires |value| <= PATTERN_CAPACITY
    ensures var r := GetAdvertisementPattern(EncodeAdvertisementPattern(NewAdvertisementPattern(adType, offset, value)) + t);
            r.Ok? && r.rest == t && r.value.adType == adType && r.value.offset == offset
            && r.value.value[..r.value.length] == value
  {
    AdvertisementPatternRoundTrip(NewAdvertisementPattern(adType, offset, value), t);
  }
}

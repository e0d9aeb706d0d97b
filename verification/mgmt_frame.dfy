/** The frame layer of the `btmgmt` crate.

    A command goes out as `CommandInternal`: its code, the controller
    index, the byte length of its parameters and then the parameters, the
    same layout the `packet` crate writes. An event comes in through the
    `Unpack` impl for `(ControllerIndex, Event)`: the code, the index and a
    u16 length, then the event decoded from a view limited to that length,
    after which whatever the decoder left of the view is skipped. Unlike
    the `packet` crate, a declared length longer than what remains is not
    an error: the view is simply shorter. An unknown code makes the decoder
    panic on `unwrap` once the header has been read, so callers must not
    hand it one. */
module MgmtFrame {
  import opened Bytes
  import opened Wrappers
  import opened Wire
  import opened Fields
  import opened Codes
  import opened MgmtFields
  import Frame

  // ---------------------------------------------------------------------
  // Small fields read through Buf
  // ---------------------------------------------------------------------

  /** `ErrorCode::unpack`: a u8 that must be a declared status. */
  function GetErrorCode(s: bytes): (r: Parsed<ErrorCode>)
    ensures r.Ok? <==> |s| >= 1 && IsErrorCode(s[0])
    ensures r.Ok? ==> r.value == s[0] && r.rest == s[1..]
    ensures |s| < 1 ==> r == Err(Overflow, s)
    ensures |s| >= 1 && !IsErrorCode(s[0]) ==> r == Err(Unexpected, s[1..])
  {
    match GetU8(s)
    case Err(e, rest) => Err(e, rest)
    case Ok(v, rest) =>
      if v <= 0x14 then
        var c: ErrorCode := v;
        Ok(c, rest)
      else Err(Unexpected, rest)
  }

  /** `bool::unpack`: any non-zero byte is true. */
  function GetBool(s: bytes): (r: Parsed<bool>)
    ensures r.Ok? <==> |s| >= 1
    ensures r.Ok? ==> (r.value <==> s[0] != 0) && r.rest == s[1..]
    ensures r.Err? ==> r == Err(Overflow, s)
  {
    match GetU8(s)
    case Err(e, rest) => Err(e, rest)
    case Ok(v, rest) => Ok(v != 0, rest)
  }

  /** `ControllerIndex::unpack`: a u16 through `From<u16>`. */
  function GetIndex(s: bytes): (r: Parsed<ControllerIndex>)
    ensures r.Ok? <==> |s| >= 2
    ensures r.Ok? ==> r.value == IndexFromU16(Frame.LE16(s, 0)) && r.rest == s[2..]
    ensures r.Err? ==> r == Err(Overflow, s)
  {
    match GetU16(s)
    case Err(e, rest) => Err(e, rest)
    case Ok(v, rest) => Ok(IndexFromU16(v), rest)
  }

  /** The single `AddressType`, a u8 enum: 0 BR/EDR, 1 LE public, 2 LE
      random. */
  function AddressTypeCode(t: AddressType): (b: byte)
    ensures b <= 2
  {
    match t
    case BrEdr => 0
    case LePublic => 1
    case LeRandom => 2
  }

  function GetAddressType(s: bytes): (r: Parsed<AddressType>)
    ensures r.Ok? <==> |s| >= 1 && s[0] <= 2
    ensures r.Ok? ==> AddressTypeCode(r.value) == s[0] && r.rest == s[1..]
    ensures |s| >= 1 && s[0] > 2 ==> r == Err(Unexpected, s[1..])
  {
    match GetU8(s)
    case Err(e, rest) => Err(e, rest)
    case Ok(v, rest) =>
      if v == 0 then Ok(BrEdr, rest)
      else if v == 1 then Ok(LePublic, rest)
      else if v == 2 then Ok(LeRandom, rest)
      else Err(Unexpected, rest)
  }

  // ---------------------------------------------------------------------
  // Pin Code Reply
  // ---------------------------------------------------------------------

  const PIN_CODE_CAPACITY: nat := 16

  type PinCode = s: bytes | |s| == 16 witness seq(16, _ => 0)

  datatype PinCodeReply = PinCodeReply(address: Address, addressType: AddressType, pinLength: byte, pinCode: PinCode)

  /** `PinCodeReply::new`: the length of the PIN, and the PIN copied into a
      zeroed 16-byte array. A longer PIN makes the copy panic, hence the
      precondition. */
  function NewPinCodeReply(address: Address, addressType: AddressType, pin: bytes): (r: PinCodeReply)
    requires |pin| <= PIN_CODE_CAPACITY
    ensures r.address == address && r.addressType == addressType
    ensures r.pinLength == |pin|
    ensures r.pinCode[..|pin|] == pin
    ensures forall i :: |pin| <= i < PIN_CODE_CAPACITY ==> r.pinCode[i] == 0
  {
    var code: PinCode := pin + seq(PIN_CODE_CAPACITY - |pin|, _ => 0);
    assert code[..|pin|] == pin;
    PinCodeReply(address, addressType, |pin|, code)
  }

  function EncodePinCodeReply(p: PinCodeReply): (r: bytes)
    ensures |r| == 24
  {
    EncodeAddress(p.address) + [AddressTypeCode(p.addressType)] + [p.pinLength] + p.pinCode
  }

  function GetPinCodeReply(s: bytes): (r: Parsed<PinCodeReply>)
    ensures r.Ok? ==> s == EncodePinCodeReply(r.value) + r.rest
    ensures |s| >= 24 && s[6] <= 2 ==> r.Ok?
  {
    match GetArray(6, s)
    case Err(e, rest) => Err(e, rest)
    case Ok(a, r1) =>
      var address: Address := a;
      match GetAddressType(r1)
      case Err(e, rest) => Err(e, rest)
      case Ok(t, r2) =>
        match GetU8(r2)
        case Err(e, rest) => Err(e, rest)
        case Ok(n, r3) =>
          match GetArray(16, r3)
          case Err(e, rest) => Err(e, rest)
          case Ok(c, r4) =>
            var code: PinCode := c;
            assert s == a + [AddressTypeCode(t)] + [n] + c + r4;
            Ok(PinCodeReply(address, t, n, code), r4)
  }

  lemma PinCodeReplyRoundTrip(p: PinCodeReply, t: bytes)
    ensures GetPinCodeReply(EncodePinCodeReply(p) + t) == Ok(p, t)
  {
    var s := EncodePinCodeReply(p) + t;
    assert s[..6] == p.address && s[6] == AddressTypeCode(p.addressType);
    assert s[7] == p.pinLength && s[8..24] == p.pinCode && s[24..] == t;
    var r := GetPinCodeReply(s);
    assert r.Ok?;
    assert r.value.address == p.address;
    assert r.value.addressType == p.addressType;
  }

  /** The PIN a reply is built from is what the receiver recovers from the
      wire: the first `pin_length` bytes of `pin_code`. */
  lemma PinTravels(address: Address, addressType: AddressType, pin: bytes)
    requires |pin| <= PIN_CODE_CAPACITY
    ensures var r := GetPinCodeReply(EncodePinCodeReply(NewPinCodeReply(address, addressType, pin)));
            r.Ok? && r.value.pinCode[..r.value.pinLength] == pin
  {
    PinCodeReplyRoundTrip(NewPinCodeReply(address, addressType, pin), []);
    assert EncodePinCodeReply(NewPinCodeReply(address, addressType, pin)) + []
           == EncodePinCodeReply(NewPinCodeReply(address, addressType, pin));
  }

  // ---------------------------------------------------------------------
  // Add Advertising
  // ---------------------------------------------------------------------

  /** The instance is a u8 newtype; the flags a 32-bit flag word. */
  datatype AddAdvertising = AddAdvertising(instance: byte, flags: u32, duration: u16, timeout: u16,
                                           advDataScanResp: AdvDataScanResp)

  /** `AddAdvertising::new`: every argument kept verbatim, the two blobs
      paired through `From<(A, B)>`. */
  function NewAddAdvertising(instance: byte, flags: u32, duration: u16, timeout: u16,
                             advData: bytes, scanResp: bytes): (r: AddAdvertising)
    ensures r.instance == instance && r.flags == flags
    ensures r.duration == duration && r.timeout == timeout
    ensures r.advDataScanResp.advData == advData && r.advDataScanResp.scanResp == scanResp
  {
    AddAdvertising(instance, flags, duration, timeout, AdvDataScanResp(advData, scanResp))
  }

  /** The fields in declaration order. */
  function EncodeAddAdvertising(a: AddAdvertising): (r: bytes)
    ensures |r| == 11 + |a.advDataScanResp.advData| + |a.advDataScanResp.scanResp|
  {
    [a.instance] + EncodeU32(a.flags) + EncodeU16(a.duration) + EncodeU16(a.timeout)
      + EncodeAdvDataScanResp(a.advDataScanResp)
  }

  function GetAddAdvertising(s: bytes): (r: Parsed<AddAdvertising>)
    ensures r.Ok? ==> s == EncodeAddAdvertising(r.value) + r.rest
  {
    match GetU8(s)
    case Err(e, rest) => Err(e, rest)
    case Ok(inst, r1) =>
      match GetUInt(4, r1)
      case Err(e, rest) => Err(e, rest)
      case Ok(fl, r2) =>
        FourBytesAreU32(fl);
        var flags: u32 := fl;
        match GetU16(r2)
        case Err(e, rest) => Err(e, rest)
        case Ok(dur, r3) =>
          match GetU16(r3)
          case Err(e, rest) => Err(e, rest)
          case Ok(tmo, r4) =>
            match GetAdvDataScanResp(r4)
            case Err(e, rest) => Err(e, rest)
            case Ok(ads, r5) =>
              var a := AddAdvertising(inst, flags, dur, tmo, ads);
              AddAdvertisingLayout(a, s, r1, r2, r3, r4, r5);
              Ok(a, r5)
  }

  /** Four bytes read with `get_u32_le` are a u32 written as four bytes. */
  lemma FourBytesAreU32(v: nat)
    requires v < Pow256(4)
    ensures v < 0x1_0000_0000 && EncodeU32(v) == ToLE(v, 4)
  {
    assert Pow256(4) == 0x1_0000_0000;
  }

  /** The fields of an AddAdvertising command, one after the other. */
  lemma AddAdvertisingLayout(a: AddAdvertising, s: bytes, r1: bytes, r2: bytes, r3: bytes, r4: bytes, r5: bytes)
    requires s == EncodeU8(a.instance) + r1 && r1 == EncodeU32(a.flags) + r2
    requires r2 == EncodeU16(a.duration) + r3 && r3 == EncodeU16(a.timeout) + r4
    requires r4 == EncodeAdvDataScanResp(a.advDataScanResp) + r5
    ensures s == EncodeAddAdvertising(a) + r5
  {
  }

  lemma AddAdvertisingRoundTrip(a: AddAdvertising, t: bytes)
    requires |a.advDataScanResp.advData| < 256 && |a.advDataScanResp.scanResp| < 256
    ensures GetAddAdvertising(EncodeAddAdvertising(a) + t) == Ok(a, t)
  {
    var tail := EncodeAdvDataScanResp(a.advDataScanResp) + t;
    var s3 := EncodeU16(a.timeout) + tail;
    var s2 := EncodeU16(a.duration) + s3;
    var s1 := EncodeU32(a.flags) + s2;
    assert EncodeAddAdvertising(a) + t == [a.instance] + s1;
    assert GetU8([a.instance] + s1) == Ok(a.instance, s1);
    assert GetUInt(4, s1) == Ok(a.flags, s2) by {
      assert EncodeU32(a.flags) == ToLE(a.flags, 4);
      GetUIntRoundTrip(a.flags, 4, s2);
    }
    GetU16RoundTrip(a.duration, s3);
    GetU16RoundTrip(a.timeout, tail);
    GetAdvDataScanRespRoundTrip(a.advDataScanResp, t);
  }

  /** Whatever `new` was given comes out of the receiver's decoder. */
  lemma NewAddAdvertisingTravels(instance: byte, flags: u32, duration: u16, timeout: u16,
                                 advData: bytes, scanResp: bytes)
    requires |advData| < 256 && |scanResp| < 256
    ensures var a := NewAddAdvertising(instance, flags, duration, timeout, advData, scanResp);
            GetAddAdvertising(EncodeAddAdvertising(a)) == Ok(a, [])
  {
    var a := NewAddAdvertising(instance, flags, duration, timeout, advData, scanResp);
    AddAdvertisingRoundTrip(a, []);
    assert EncodeAddAdvertising(a) + [] == EncodeAddAdvertising(a);
  }

  // ---------------------------------------------------------------------
  // Commands and `CommandInternal::pack`
  // ---------------------------------------------------------------------

  /** A representative handful of the commands the `command!` table
      declares. */
  datatype Command =
    | ReadManagementVersionInformation
    | ReadManagementSupportedCommands
    | SetPowered(powered: bool)
    | PinCodeReplyCommand(reply: PinCodeReply)
    | AddAdvertisingCommand(params: AddAdvertising)

  function Code(c: Command): MgmtCommandCode
  {
    match c
    case ReadManagementVersionInformation => READ_MANAGEMENT_VERSION_INFORMATION
    case ReadManagementSupportedCommands => READ_MANAGEMENT_SUPPORTED_COMMANDS
    case SetPowered(_) => SET_POWERED
    case PinCodeReplyCommand(_) => PIN_CODE_REPLY
    case AddAdvertisingCommand(_) => ADD_ADVERTISING
  }

  /** The command's own `pack`: its fields in order. */
  function PackParameter(c: Command): bytes
  {
    match c
    case ReadManagementVersionInformation => []
    case ReadManagementSupportedCommands => []
    case SetPowered(b) => EncodeBool(b)
    case PinCodeReplyCommand(p) => EncodePinCodeReply(p)
    case AddAdvertisingCommand(a) => EncodeAddAdvertising(a)
  }

  /** `CommandInternal::pack`: code and index, then the parameters packed
      into the space after a two-byte gap, then the gap filled with the
      parameters' length `as u16`. */
  function PackCommandInternal(index: ControllerIndex, c: Command): (r: bytes)
    ensures |r| == 6 + |PackParameter(c)|
    ensures Frame.LE16(r, 0) == Code(c) && Frame.LE16(r, 2) == IndexToU16(index)
    ensures Frame.LE16(r, 4) == |PackParameter(c)| % 0x1_0000
    ensures r[6..] == PackParameter(c)
  {
    var head := EncodeU16(Code(c)) + EncodeIndex(index);
    var content := PackParameter(c);
    head + EncodeU16(|content| % 0x1_0000) + content
  }

  /** A receiver reads the command back: code, index and exactly the
      parameters, for every parameter shorter than 65536 bytes. */
  lemma CommandInternalRoundTrip(index: ControllerIndex, c: Command, t: bytes)
    requires |PackParameter(c)| < 0x1_0000
    ensures Frame.ParseFrame(PackCommandInternal(index, c) + t)
            == Ok(Frame.RawFrame(Code(c), IndexFromU16(IndexToU16(index)), PackParameter(c)), t)
  {
    assert PackCommandInternal(index, c) == Frame.PackFrame(Code(c), index, PackParameter(c));
    Frame.FrameRoundTrip(Code(c), index, PackParameter(c), t);
  }

  /** Both generations put the same bytes on the wire for the commands they
      share. */
  lemma GenerationsPackAlike(index: ControllerIndex, c: Frame.Command)
    ensures var m := match c
                     case ReadManagementVersionInformation => ReadManagementVersionInformation
                     case ReadManagementSupportedCommands => ReadManagementSupportedCommands
                     case SetPowered(b) => SetPowered(b);
            PackCommandInternal(index, m) == Frame.PackCommand(index, c)
  {
  }

  /** A PIN code reply for controller 0 announces its 24 parameter bytes. */
  lemma PinCodeReplyFrame(address: Address, pin: bytes)
    requires |pin| <= PIN_CODE_CAPACITY
    ensures var r := PackCommandInternal(ControllerId(0), PinCodeReplyCommand(NewPinCodeReply(address, BrEdr, pin)));
            |r| == 30 && r[..6] == [0x16, 0x00, 0x00, 0x00, 24, 0x00] && r[12] == 0 && r[13] == |pin|
  {
    var p := NewPinCodeReply(address, BrEdr, pin);
    var r := PackCommandInternal(ControllerId(0), PinCodeReplyCommand(p));
    assert r[6..] == EncodePinCodeReply(p);
    assert EncodePinCodeReply(p)[6] == 0 && EncodePinCodeReply(p)[7] == |pin|;
  }

  // ---------------------------------------------------------------------
  // Events
  // ---------------------------------------------------------------------

  /** The same representative events as the `packet` crate, with this
      crate's command codes (which include 0x0044). */
  datatype Event =
    | CommandComplete(opcode: MgmtCommandCode, status: ErrorCode, data: bytes)
    | CommandStatus(opcode: MgmtCommandCode, status: ErrorCode)
    | IndexAdded
    | IndexRemoved
    | NewSettings(settings: u32)
    | Discovering(addressTypes: set<AddressType>, discovering: bool)
    | Unparsed(code: EventCode, payload: bytes)

  /** The `CODE` constant of each event struct. */
  function CodeOfEvent(e: Event): EventCode
  {
    match e
    case CommandComplete(_, _, _) => COMMAND_COMPLETE
    case CommandStatus(_, _) => COMMAND_STATUS
    case IndexAdded => INDEX_ADDED
    case IndexRemoved => INDEX_REMOVED
    case NewSettings(_) => NEW_SETTINGS
    case Discovering(_, _) => DISCOVERING
    case Unparsed(c, _) => c
  }

  /** `unpack_event`: the decoder of the event struct whose `CODE` is the
      code; Command Complete takes every remaining byte of the view as
      its data. */
  function UnpackEventBody(code: EventCode, s: bytes): (r: Parsed<Event>)
    ensures r.Ok? ==> CodeOfEvent(r.value) == code
    ensures r.Ok? && r.value.Unparsed? ==> !Frame.IsModelledEvent(code)
    ensures r.Ok? ==> |r.rest| <= |s|
  {
    if code == COMMAND_COMPLETE then
      match GetCommandCode(s)
      case Err(e, rest) => Err(e, rest)
      case Ok(op, r1) =>
        match GetErrorCode(r1)
        case Err(e, rest) => Err(e, rest)
        case Ok(st, r2) => Ok(CommandComplete(op, st, r2), [])
    else if code == COMMAND_STATUS then
      match GetCommandCode(s)
      case Err(e, rest) => Err(e, rest)
      case Ok(op, r1) =>
        match GetErrorCode(r1)
        case Err(e, rest) => Err(e, rest)
        case Ok(st, r2) => Ok(CommandStatus(op, st), r2)
    else if code == INDEX_ADDED then Ok(IndexAdded, s)
    else if code == INDEX_REMOVED then Ok(IndexRemoved, s)
    else if code == NEW_SETTINGS then
      match GetUInt(4, s)
      case Err(e, rest) => Err(e, rest)
      case Ok(v, rest) =>
        assert Pow256(4) == 0x1_0000_0000;
        Ok(NewSettings(v), rest)
    else if code == DISCOVERING then
      match GetAddressTypes(s)
      case Err(e, rest) => Err(e, rest)
      case Ok(ts, r1) =>
        match GetBool(r1)
        case Err(e, rest) => Err(e, rest)
        case Ok(d, r2) => Ok(Discovering(ts, d), r2)
    else Ok(Unparsed(code, s), [])
  }

  function EncodeEventBody(e: Event): bytes
  {
    match e
    case CommandComplete(op, st, data) => EncodeU16(op) + EncodeErrorCode(st) + data
    case CommandStatus(op, st) => EncodeU16(op) + EncodeErrorCode(st)
    case IndexAdded => []
    case IndexRemoved => []
    case NewSettings(v) => EncodeU32(v)
    case Discovering(ts, d) => EncodeAddressTypes(ts) + EncodeBool(d)
    case Unparsed(_, p) => p
  }

  predicate WellFormedEvent(e: Event)
  {
    e.Unparsed? ==> !Frame.IsModelledEvent(e.code)
  }

  lemma EventBodyRoundTrip(e: Event)
    requires WellFormedEvent(e)
    ensures UnpackEventBody(CodeOfEvent(e), EncodeEventBody(e)).Ok?
    ensures UnpackEventBody(CodeOfEvent(e), EncodeEventBody(e)).value == e
  {
    match e
    case CommandComplete(op, st, data) => CommandCompleteBody(op, st, data);
    case CommandStatus(op, st) => CommandStatusBody(op, st);
    case IndexAdded =>
    case IndexRemoved =>
    case NewSettings(v) => NewSettingsBody(v);
    case Discovering(ts, d) => DiscoveringBody(ts, d);
    case Unparsed(c, p) =>
  }

  lemma CommandCompleteBody(op: MgmtCommandCode, st: ErrorCode, data: bytes)
    ensures UnpackEventBody(COMMAND_COMPLETE, EncodeEventBody(CommandComplete(op, st, data)))
            == Ok(CommandComplete(op, st, data), [])
  {
    var s := EncodeEventBody(CommandComplete(op, st, data));
    assert s == EncodeCommandCode(op) + ([st] + data);
    GetU16RoundTrip(op, [st] + data);
  }

  lemma CommandStatusBody(op: MgmtCommandCode, st: ErrorCode)
    ensures UnpackEventBody(COMMAND_STATUS, EncodeEventBody(CommandStatus(op, st)))
            == Ok(CommandStatus(op, st), [])
  {
    var s := EncodeEventBody(CommandStatus(op, st));
    assert s == EncodeCommandCode(op) + [st];
    GetU16RoundTrip(op, [st]);
  }

  lemma NewSettingsBody(v: u32)
    ensures UnpackEventBody(NEW_SETTINGS, EncodeEventBody(NewSettings(v))) == Ok(NewSettings(v), [])
  {
    assert Pow256(4) == 0x1_0000_0000;
    assert EncodeU32(v) == ToLE(v, 4);
    GetUIntRoundTrip(v, 4, []);
    assert EncodeU32(v) + [] == EncodeU32(v);
  }

  lemma DiscoveringBody(ts: set<AddressType>, d: bool)
    ensures UnpackEventBody(DISCOVERING, EncodeEventBody(Discovering(ts, d))).Ok?
    ensures UnpackEventBody(DISCOVERING, EncodeEventBody(Discovering(ts, d))).value == Discovering(ts, d)
  {
    AddressTypeSetRoundTrip(ts, EncodeBool(d));
  }

  /** `Unpack for (ControllerIndex, Event)`. A buffer too short for the
      code is `Overflow`; otherwise the code's two bytes are consumed
      whether or not the code is known, then the index and the length are
      read, and the event is decoded from at most `length` of the bytes
      that remain. Reaching the decoder with an unknown code panics, so the
      precondition rules it out for every buffer long enough to get
      there. The fields are taken at the offsets `EventHeader` shows the
      `Buf` reads reach, including the `Overflow` of a short header. */
  function UnpackEvent(s: bytes): (r: Parsed<(ControllerIndex, Event)>)
    requires |s| >= 6 ==> IsEventCode(Frame.LE16(s, 0))
    ensures |s| < 2 ==> r == Err(Overflow, s)
    ensures 2 <= |s| < 6 ==> r.Err? && r.error == Overflow
    ensures r.Ok? ==> |s| >= 6 && r.value.0 == IndexFromU16(Frame.LE16(s, 2))
    ensures r.Ok? ==> r.rest == s[6 + Min(Frame.LE16(s, 4), |s| - 6)..]
    ensures r.Ok? ==> var k := Min(Frame.LE16(s, 4), |s| - 6);
                      UnpackEventBody(Frame.LE16(s, 0), s[6..6 + k]).Ok?
                      && r.value.1 == UnpackEventBody(Frame.LE16(s, 0), s[6..6 + k]).value
  {
    if |s| < 2 then Err(Overflow, s)
    else if |s| < 4 then Err(Overflow, s[2..])
    else if |s| < 6 then Err(Overflow, s[4..])
    else
      var code: EventCode := Frame.LE16(s, 0);
      var index := IndexFromU16(Frame.LE16(s, 2));
      var k := Min(Frame.LE16(s, 4), |s| - 6);
      match UnpackEventBody(code, s[6..6 + k])
      case Err(e, inner) => Err(e, inner + s[6 + k..])
      case Ok(ev, _) => Ok((index, ev), s[6 + k..])
  }

  /** The header fields at their offsets, read through `Buf`. */
  lemma EventHeader(s: bytes)
    ensures |s| >= 2 ==> GetU16(s) == Ok(Frame.LE16(s, 0), s[2..])
    ensures |s| >= 4 ==> GetIndex(s[2..]) == Ok(IndexFromU16(Frame.LE16(s, 2)), s[4..])
    ensures |s| >= 6 ==> GetU16(s[4..]) == Ok(Frame.LE16(s, 4), s[6..])
    ensures 2 <= |s| < 4 ==> GetIndex(s[2..]) == Err(Overflow, s[2..])
    ensures 4 <= |s| < 6 ==> GetU16(s[4..]) == Err(Overflow, s[4..])
  {
    if |s| >= 2 {
      GetU16At(s);
    }
    if |s| >= 4 {
      assert s[2..][2..] == s[4..];
      assert Frame.LE16(s[2..], 0) == Frame.LE16(s, 2);
    }
    if |s| >= 6 {
      GetU16At(s[4..]);
      assert s[4..][2..] == s[6..];
    }
  }

  /** `get_u16_le` reads the first two bytes. */
  lemma GetU16At(s: bytes)
    requires |s| >= 2
    ensures GetU16(s) == Ok(Frame.LE16(s, 0), s[2..])
  {
    var r := GetU16(s);
    assert s[..2] == EncodeU16(r.value);
  }

  /** The frame a kernel sends for an event, the same layout as in the
      `packet` crate. */
  function PackEvent(index: ControllerIndex, e: Event): (r: bytes)
    ensures |r| == 6 + |EncodeEventBody(e)|
  {
    Frame.PackFrame(CodeOfEvent(e), index, EncodeEventBody(e))
  }

  lemma EventFrameRoundTrip(index: ControllerIndex, e: Event, t: bytes)
    requires WellFormedEvent(e) && |EncodeEventBody(e)| < 0x1_0000
    ensures Frame.LE16(PackEvent(index, e) + t, 0) == CodeOfEvent(e)
    ensures UnpackEvent(PackEvent(index, e) + t) == Ok((IndexFromU16(IndexToU16(index)), e), t)
  {
    var body := EncodeEventBody(e);
    var f := PackEvent(index, e);
    var s := f + t;
    Frame.LE16Prefix(f, t, 0);
    Frame.LE16Prefix(f, t, 2);
    Frame.LE16Prefix(f, t, 4);
    assert Frame.LE16(s, 4) == |body|;
    EventHeader(s);
    assert GetEventCode(s).Ok?;
    assert s[6..][..|body|] == body;
    assert s[6..][|body|..] == t;
    EventBodyRoundTrip(e);
  }

  /** A frame announcing more payload than arrived: this crate decodes the
      event from what is there, while the `packet` crate rejects the
      frame. */
  lemma ShortPayloadTolerated()
    ensures UnpackEvent([0x04, 0x00, 0x00, 0x00, 0x05, 0x00]) == Ok((ControllerId(0), IndexAdded), [])
    ensures Frame.UnpackEvents([0x04, 0x00, 0x00, 0x00, 0x05, 0x00]).Err?
  {
    var s: bytes := [0x04, 0x00, 0x00, 0x00, 0x05, 0x00];
    assert Frame.LE16(s, 0) == 4 && Frame.LE16(s, 2) == 0 && Frame.LE16(s, 4) == 5;
  }

  /** An unknown code in a buffer too short for the index is reported as
      `Overflow` before the `unwrap` is reached. */
  lemma UnknownCodeShortBuffer()
    ensures UnpackEvent([0x2F, 0x00, 0x00]) == Err(Overflow, [0x00])
  {
  }
}

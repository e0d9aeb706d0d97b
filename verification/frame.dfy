/** The frame layer of the `packet` crate.

    Commands and events travel in the same frame: a 16-bit code, a 16-bit
    controller index and a 16-bit payload length, all little-endian, then
    the payload. `pack_command` writes a command's frame; `unpack_events`
    reads an event's frame and hands the payload to the decoder the code
    selects. A representative handful of commands and events is modelled
    field by field; every other event keeps its payload undecoded. */
module Frame {
  import opened Bytes
  import opened Wrappers
  import opened Wire
  import opened Fields
  import opened Codes

  /** The little-endian u16 at offset `k`. */
  function LE16(s: bytes, k: nat): nat
    requires k + 2 <= |s|
  {
    s[k] as int + 256 * (s[k + 1] as int)
  }

  /** `packet::command::CommandCode`: Get PHY Configuration (0x0044) has no
      code. */
  type CommandCode = c: u16 | 0x0001 <= c <= 0x0053 && c != 0x0044 witness 0x0001

  // ---------------------------------------------------------------------
  // The payload: `Vec<u8>`, a u16 count then that many bytes
  // ---------------------------------------------------------------------

  /** Reading `n` single bytes one by one takes the first `n` bytes, or
      runs dry with `NoDataAvailable` having consumed everything. */
  lemma {:induction false} ByteItems(n: nat, s: bytes)
    ensures n <= |s| ==> DecodeItems(DecodeU8, n, s) == Ok(s[..n], s[n..])
    ensures n > |s| ==> DecodeItems(DecodeU8, n, s) == Err(NoDataAvailable, [])
    decreases n
  {
    if n > 0 && |s| > 0 {
      ByteItems(n - 1, s[1..]);
      if n <= |s| {
        assert [s[0]] + s[1..][..n - 1] == s[..n];
        assert s[1..][n - 1..] == s[n..];
      }
    }
  }

  /** `<Vec<u8>>::unpack`: the declared number of bytes, or an error when
      fewer remain. */
  function DecodePayload(s: bytes): (r: Parsed<bytes>)
    ensures |s| < 2 ==> r.Err?
    ensures |s| >= 2 && 2 + LE16(s, 0) <= |s| ==> r == Ok(s[2..2 + LE16(s, 0)], s[2 + LE16(s, 0)..])
    ensures |s| >= 2 && 2 + LE16(s, 0) > |s| ==> r == Err(NoDataAvailable, [])
  {
    if |s| >= 2 then
      ByteItems(LE16(s, 0), s[2..]);
      if 2 + LE16(s, 0) <= |s| then
        assert s[2..][..LE16(s, 0)] == s[2..2 + LE16(s, 0)];
        DecodeVec(DecodeU8, s)
      else
        DecodeVec(DecodeU8, s)
    else
      DecodeVec(DecodeU8, s)
  }

  // ---------------------------------------------------------------------
  // Outbound: `pack_command`
  // ---------------------------------------------------------------------

  /** The frame layout: code, index, `buf.len() as u16`, then the payload
      verbatim. */
  function PackFrame(code: u16, index: ControllerIndex, payload: bytes): (r: bytes)
    ensures |r| == 6 + |payload|
    ensures LE16(r, 0) == code && LE16(r, 2) == IndexToU16(index)
    ensures LE16(r, 4) == |payload| % 0x1_0000
    ensures r[6..] == payload
  {
    EncodeU16(code) + EncodeIndex(index) + EncodeU16(|payload| % 0x1_0000) + payload
  }

  /** What a receiver of a frame reads: the code, the index and the
      declared number of payload bytes. */
  datatype RawFrame = RawFrame(code: u16, index: ControllerIndex, payload: bytes)

  function ParseFrame(s: bytes): (r: Parsed<RawFrame>)
    ensures |s| < 6 ==> r.Err?
    ensures |s| >= 6 ==> (r.Ok? <==> 6 + LE16(s, 4) <= |s|)
    ensures r.Ok? ==> r.value == RawFrame(LE16(s, 0), IndexFromU16(LE16(s, 2)), s[6..6 + LE16(s, 4)])
                      && r.rest == s[6 + LE16(s, 4)..]
  {
    FrameHeader(s);
    match DecodeU16(s)
    case Err(e, rest) => Err(e, rest)
    case Ok(code, r1) =>
      match DecodeIndex(r1)
      case Err(e, rest) => Err(e, rest)
      case Ok(index, r2) =>
        match DecodePayload(r2)
        case Err(e, rest) => Err(e, rest)
        case Ok(payload, r3) => Ok(RawFrame(code, index, payload), r3)
  }

  /** The header fields at their offsets, read through the field decoders. */
  lemma FrameHeader(s: bytes)
    ensures |s| >= 2 ==> DecodeU16(s) == Ok(LE16(s, 0), s[2..])
    ensures |s| >= 4 ==> DecodeIndex(s[2..]) == Ok(IndexFromU16(LE16(s, 2)), s[4..])
    ensures |s| >= 6 ==> LE16(s[4..], 0) == LE16(s, 4)
    ensures |s| >= 6 && 6 + LE16(s, 4) <= |s| ==>
              s[4..][2..2 + LE16(s, 4)] == s[6..6 + LE16(s, 4)] && s[4..][2 + LE16(s, 4)..] == s[6 + LE16(s, 4)..]
  {
    if |s| >= 2 {
      U16Fields(s);
    }
    if |s| >= 4 {
      U16Fields(s[2..]);
      assert s[2..][2..] == s[4..];
    }
  }

  /** The u16 at the front of a buffer is its first two bytes. */
  lemma U16Fields(s: bytes)
    requires |s| >= 2
    ensures DecodeU16(s) == Ok(LE16(s, 0), s[2..])
  {
    var r := DecodeU16(s);
    assert s[..2] == EncodeU16(r.value);
  }

  /** A frame reads back as written, whatever follows it; only the index
      `ControllerId(0xFFFF)` comes back as `NonController`. */
  lemma FrameRoundTrip(code: u16, index: ControllerIndex, payload: bytes, t: bytes)
    requires |payload| < 0x1_0000
    ensures ParseFrame(PackFrame(code, index, payload) + t)
            == Ok(RawFrame(code, IndexFromU16(IndexToU16(index)), payload), t)
  {
    var f := PackFrame(code, index, payload);
    var s := f + t;
    LE16Prefix(f, t, 0);
    LE16Prefix(f, t, 2);
    LE16Prefix(f, t, 4);
    assert LE16(s, 4) == |payload|;
    assert s[6..6 + |payload|] == payload;
    assert s[6 + |payload|..] == t;
  }

  /** Bytes that follow a field do not change it. */
  lemma LE16Prefix(f: bytes, t: bytes, k: nat)
    requires k + 2 <= |f|
    ensures LE16(f + t, k) == LE16(f, k)
  {
  }

  /** `buf.len() as u16`: a payload of 65536 bytes or more is announced
      with its length modulo 65536, so a receiver takes only that many. */
  lemma LongPayloadTruncated(code: u16, index: ControllerIndex, payload: bytes)
    requires |payload| >= 0x1_0000
    ensures ParseFrame(PackFrame(code, index, payload)).Ok?
    ensures ParseFrame(PackFrame(code, index, payload)).value.payload == payload[..|payload| % 0x1_0000]
  {
    var s := PackFrame(code, index, payload);
    assert s[6..6 + |payload| % 0x1_0000] == payload[..|payload| % 0x1_0000];
  }

  // ---------------------------------------------------------------------
  // Commands: code and reply bindings, parameters
  // ---------------------------------------------------------------------

  /** A representative handful of commands. */
  datatype Command =
    | ReadManagementVersionInformation
    | ReadManagementSupportedCommands
    | SetPowered(powered: bool)

  /** The reply type each `#[command(code, reply)]` names. */
  datatype ReplyKind = VersionInformationReply | SupportedCommandsReply | SettingsReply

  function Code(c: Command): CommandCode
  {
    match c
    case ReadManagementVersionInformation => READ_MANAGEMENT_VERSION_INFORMATION
    case ReadManagementSupportedCommands => READ_MANAGEMENT_SUPPORTED_COMMANDS
    case SetPowered(_) => SET_POWERED
  }

  function ReplyOf(c: Command): ReplyKind
  {
    match c
    case ReadManagementVersionInformation => VersionInformationReply
    case ReadManagementSupportedCommands => SupportedCommandsReply
    case SetPowered(_) => SettingsReply
  }

  /** `pack_inner`: the derived codec of the command's fields; the first
      two are unit structs. */
  function PackInner(c: Command): bytes
  {
    match c
    case SetPowered(b) => EncodeBool(b)
    case _ => []
  }

  /** The command's frame: its code, the index, and its parameters. */
  function PackCommand(index: ControllerIndex, c: Command): (r: bytes)
    ensures ParseFrame(r) == Ok(RawFrame(Code(c), IndexFromU16(IndexToU16(index)), PackInner(c)), [])
    ensures c.SetPowered? ==> |r| == 7 && (r[6] != 0 <==> c.powered)
    ensures !c.SetPowered? ==> |r| == 6 && LE16(r, 4) == 0
  {
    FrameRoundTrip(Code(c), index, PackInner(c), []);
    assert PackFrame(Code(c), index, PackInner(c)) + [] == PackFrame(Code(c), index, PackInner(c));
    PackFrame(Code(c), index, PackInner(c))
  }

  /** Distinct kinds of command carry distinct codes, and each code has
      one reply type. */
  lemma CommandBindings(a: Command, b: Command)
    ensures Code(a) == Code(b) <==> a.SetPowered? == b.SetPowered? && a.ReadManagementVersionInformation? == b.ReadManagementVersionInformation?
    ensures Code(a) == Code(b) ==> ReplyOf(a) == ReplyOf(b)
    ensures IsCommandCode(Code(a)) && Code(a) != GET_PHY_CONFIGURATION
  {
  }

  /** Read Management Version Information for no controller. */
  lemma VersionCommandFrame()
    ensures PackCommand(NonController, ReadManagementVersionInformation) == [0x01, 0x00, 0xFF, 0xFF, 0x00, 0x00]
  {
    assert 1 % 256 == 1 && 1 / 256 == 0 && 0xFFFF % 256 == 0xFF && 0xFFFF / 256 == 0xFF && 0 % 256 == 0 && 0 / 256 == 0;
    var c := ReadManagementVersionInformation;
    assert Code(c) == 1 && IndexToU16(NonController) == 0xFFFF && PackInner(c) == [];
    CommandLayout(NonController, c);
  }

  /** Set Powered on controller 0. */
  lemma SetPoweredCommandFrame()
    ensures PackCommand(ControllerId(0), SetPowered(true)) == [0x05, 0x00, 0x00, 0x00, 0x01, 0x00, 0x01]
  {
    SetPoweredLayout(0, true);
  }

  /** Set Powered on any controller. */
  lemma SetPoweredLayout(id: u16, on: bool)
    ensures PackCommand(ControllerId(id), SetPowered(on))
            == [0x05, 0x00, id % 256, id / 256, 0x01, 0x00, if on then 1 else 0]
  {
    assert 5 % 256 == 5 && 5 / 256 == 0 && 1 % 256 == 1 && 1 / 256 == 0;
    var c := SetPowered(on);
    var b: byte := if on then 1 else 0;
    assert Code(c) == 5 && IndexToU16(ControllerId(id)) == id && PackInner(c) == [b];
    CommandLayout(ControllerId(id), c);
    AppendOne(0x05, 0x00, id % 256, id / 256, 0x01, 0x00, b);
  }

  lemma AppendOne(a0: byte, a1: byte, a2: byte, a3: byte, a4: byte, a5: byte, b: byte)
    ensures [a0, a1, a2, a3, a4, a5] + [b] == [a0, a1, a2, a3, a4, a5, b]
  { }

  /** A command frame is the four header fields, low byte first, and the
      parameters. */
  lemma CommandLayout(index: ControllerIndex, c: Command)
    ensures var code, i, p := Code(c), IndexToU16(index), PackInner(c);
            PackCommand(index, c) == [code % 256, code / 256, i % 256, i / 256, |p| % 256, |p| / 256] + p
  {
    var code, i, p := Code(c), IndexToU16(index), PackInner(c);
    assert |p| < 0x1_0000;
    assert EncodeIndex(index) == EncodeU16(i);
    assert EncodeU16(code) + EncodeU16(i) + EncodeU16(|p|) + p
           == [code % 256, code / 256, i % 256, i / 256, |p| % 256, |p| / 256] + p;
  }

  // ---------------------------------------------------------------------
  // Events: payload layouts
  // ---------------------------------------------------------------------

  /** A representative handful of events; `Unparsed` stands for every other
      event, whose payload is kept as it came. */
  datatype Event =
    | CommandComplete(opcode: CommandCode, status: ErrorCode, data: bytes)
    | CommandStatus(opcode: CommandCode, status: ErrorCode)
    | IndexAdded
    | IndexRemoved
    | NewSettings(settings: u32)
    | Discovering(addressTypes: set<AddressType>, discovering: bool)
    | Unparsed(code: EventCode, payload: bytes)

  predicate IsModelledEvent(c: nat)
  {
    c == COMMAND_COMPLETE || c == COMMAND_STATUS || c == INDEX_ADDED
    || c == INDEX_REMOVED || c == NEW_SETTINGS || c == DISCOVERING
  }

  function CodeOfEvent(e: Event): EventCode
  {
    match e
    case CommandComplete(_, _, _) => COMMAND_COMPLETE
    case CommandStatus(_, _) => COMMAND_STATUS
    case IndexAdded => INDEX_ADDED
    case IndexRemoved => INDEX_REMOVED
    case NewSettings(_) => NEW_SETTINGS
    case Discovering(_, _) => DISCOVERING
    case Unparsed(c, _) => c
  }

  /** `CommandCode::unpack`: a u16 that must be a command code. */
  function DecodeOpcode(s: bytes): (r: Parsed<CommandCode>)
    ensures r.Ok? <==> |s| >= 2 && IsCommandCode(LE16(s, 0))
    ensures r.Ok? ==> r.value == LE16(s, 0) && r.rest == s[2..]
    ensures |s| >= 2 && !IsCommandCode(LE16(s, 0)) ==> r == Err(UnexpectedValue(LE16(s, 0)), s[2..])
  {
    match DecodeU16(s)
    case Err(e, rest) => Err(e, rest)
    case Ok(v, rest) =>
      if IsCommandCode(v) then
        var c: CommandCode := v;
        Ok(c, rest)
      else Err(UnexpectedValue(v), rest)
  }

  /** `EventCode::unpack`: a u16 that must be an event code. */
  function DecodeEventCode(s: bytes): (r: Parsed<EventCode>)
    ensures r.Ok? <==> |s| >= 2 && IsEventCode(LE16(s, 0))
    ensures r.Ok? ==> r.value == LE16(s, 0) && r.rest == s[2..]
    ensures |s| >= 2 && !IsEventCode(LE16(s, 0)) ==> r == Err(UnexpectedValue(LE16(s, 0)), s[2..])
  {
    match DecodeU16(s)
    case Err(e, rest) => Err(e, rest)
    case Ok(v, rest) =>
      if IsEventCode(v) then
        var c: EventCode := v;
        Ok(c, rest)
      else Err(UnexpectedValue(v), rest)
  }

  /** Command Complete: the opcode, the status, then every remaining
      payload byte as reply data. */
  function DecodeCommandComplete(s: bytes): (r: Parsed<Event>)
    ensures r.Ok? <==> |s| >= 3 && IsCommandCode(LE16(s, 0)) && IsErrorCode(s[2])
    ensures r.Ok? ==> r.value.CommandComplete? && r.value.opcode == LE16(s, 0)
                      && r.value.status == s[2] && r.value.data == s[3..] && r.rest == []
  {
    match DecodeOpcode(s)
    case Err(e, rest) => Err(e, rest)
    case Ok(op, r1) =>
      match DecodeErrorCode(r1)
      case Err(e, rest) => Err(e, rest)
      case Ok(st, r2) =>
        match DecodeRaw(r2)
        case Err(e, rest) => Err(e, rest)
        case Ok(data, r3) => Ok(CommandComplete(op, st, data), r3)
  }

  /** Command Status: the opcode and the status, nothing more. */
  function DecodeCommandStatus(s: bytes): (r: Parsed<Event>)
    ensures r.Ok? <==> |s| >= 3 && IsCommandCode(LE16(s, 0)) && IsErrorCode(s[2])
    ensures r.Ok? ==> r.value.CommandStatus? && r.value.opcode == LE16(s, 0)
                      && r.value.status == s[2] && r.rest == s[3..]
  {
    match DecodeOpcode(s)
    case Err(e, rest) => Err(e, rest)
    case Ok(op, r1) =>
      match DecodeErrorCode(r1)
      case Err(e, rest) => Err(e, rest)
      case Ok(st, r2) => Ok(CommandStatus(op, st), r2)
  }

  /** `Events::unpack_inner`: the decoder the code selects. */
  function DecodeEventBody(code: EventCode, s: bytes): (r: Parsed<Event>)
    ensures r.Ok? ==> CodeOfEvent(r.value) == code
    ensures r.Ok? && r.value.Unparsed? ==> !IsModelledEvent(code)
    ensures code == INDEX_ADDED ==> r == Ok(IndexAdded, s)
  {
    if code == COMMAND_COMPLETE then DecodeCommandComplete(s)
    else if code == COMMAND_STATUS then DecodeCommandStatus(s)
    else if code == INDEX_ADDED then Ok(IndexAdded, s)
    else if code == INDEX_REMOVED then Ok(IndexRemoved, s)
    else if code == NEW_SETTINGS then
      match DecodeU32(s)
      case Err(e, rest) => Err(e, rest)
      case Ok(v, rest) => Ok(NewSettings(v), rest)
    else if code == DISCOVERING then
      match DecodeAddressTypes(s)
      case Err(e, rest) => Err(e, rest)
      case Ok(ts, r1) =>
        match DecodeBool(r1)
        case Err(e, rest) => Err(e, rest)
        case Ok(d, r2) => Ok(Discovering(ts, d), r2)
    else Ok(Unparsed(code, s), [])
  }

  /** The payload a kernel sends for an event. */
  function EncodeEventBody(e: Event): (r: bytes)
  {
    match e
    case CommandComplete(op, st, data) => EncodeU16(op) + EncodeErrorCode(st) + data
    case CommandStatus(op, st) => EncodeU16(op) + EncodeErrorCode(st)
    case IndexAdded => []
    case IndexRemoved => []
    case NewSettings(v) => EncodeU32(v)
    case Discovering(ts, d) => EncodeAddressTypes(ts) + EncodeBool(d)
    case Unparsed(_, p) => p
  }

  /** An event value the kernel can send: `Unparsed` only for the codes
      whose payload is not modelled. */
  predicate WellFormedEvent(e: Event)
  {
    e.Unparsed? ==> !IsModelledEvent(e.code)
  }

  /** Every payload decodes back to its event under its own code. */
  lemma EventBodyRoundTrip(e: Event)
    requires WellFormedEvent(e)
    ensures DecodeEventBody(CodeOfEvent(e), EncodeEventBody(e)).Ok?
    ensures DecodeEventBody(CodeOfEvent(e), EncodeEventBody(e)).value == e
  {
    match e
    case CommandComplete(_, _, _) => CompleteBody(e);
    case CommandStatus(_, _) => StatusBody(e);
    case IndexAdded =>
    case IndexRemoved =>
    case NewSettings(_) => SettingsBody(e);
    case Discovering(_, _) => DiscoveringBody(e);
    case Unparsed(_, _) =>
  }

  lemma CompleteBody(e: Event)
    requires e.CommandComplete?
    ensures DecodeEventBody(COMMAND_COMPLETE, EncodeEventBody(e)) == Ok(e, [])
  {
    var s := EncodeEventBody(e);
    assert s[2] == e.status && s[3..] == e.data;
  }

  lemma StatusBody(e: Event)
    requires e.CommandStatus?
    ensures DecodeEventBody(COMMAND_STATUS, EncodeEventBody(e)) == Ok(e, [])
  {
    var s := EncodeEventBody(e);
    assert s[2] == e.status && s[3..] == [];
  }

  lemma SettingsBody(e: Event)
    requires e.NewSettings?
    ensures DecodeEventBody(NEW_SETTINGS, EncodeEventBody(e)) == Ok(e, [])
  {
    U32RoundTrip(e.settings, []);
    assert EncodeU32(e.settings) + [] == EncodeU32(e.settings);
  }

  lemma DiscoveringBody(e: Event)
    requires e.Discovering?
    ensures DecodeEventBody(DISCOVERING, EncodeEventBody(e)) == Ok(e, [])
  {
    var d := e.discovering;
    AddressTypesRoundTrip(e.addressTypes, EncodeBool(d));
    BoolRoundTrip(d, []);
    assert EncodeBool(d) + [] == EncodeBool(d);
  }

  // ---------------------------------------------------------------------
  // Inbound: `unpack_events`
  // ---------------------------------------------------------------------

  /** The event code (rejected before anything else is read when unknown),
      the index, the payload, then the payload's decoder. The frame is
      consumed whole whatever the decoder leaves of the payload. */
  function UnpackEvents(s: bytes): (r: Parsed<(ControllerIndex, Event)>)
    ensures |s| >= 2 && !IsEventCode(LE16(s, 0)) ==> r == Err(UnexpectedValue(LE16(s, 0)), s[2..])
    ensures |s| >= 6 && IsEventCode(LE16(s, 0)) && 6 + LE16(s, 4) > |s| ==> r.Err?
    ensures r.Ok? ==> |s| >= 6 && 6 + LE16(s, 4) <= |s| && r.rest == s[6 + LE16(s, 4)..]
    ensures r.Ok? ==> IsEventCode(LE16(s, 0)) && r.value.0 == IndexFromU16(LE16(s, 2))
    ensures r.Ok? ==> DecodeEventBody(LE16(s, 0), s[6..6 + LE16(s, 4)]).Ok?
                      && r.value.1 == DecodeEventBody(LE16(s, 0), s[6..6 + LE16(s, 4)]).value
  {
    match DecodeEventCode(s)
    case Err(e, rest) => Err(e, rest)
    case Ok(code, _) =>
      match ParseFrame(s)
      case Err(e, rest) => Err(e, rest)
      case Ok(f, rest) =>
        match DecodeEventBody(code, f.payload)
        case Err(e, _) => Err(e, rest)
        case Ok(ev, _) => Ok((f.index, ev), rest)
  }

  /** The frame a kernel sends for an event. */
  function PackEvent(index: ControllerIndex, e: Event): (r: bytes)
    ensures |r| == 6 + |EncodeEventBody(e)|
  {
    PackFrame(CodeOfEvent(e), index, EncodeEventBody(e))
  }

  /** Every well-formed event frame reads back as the event it carries,
      and reading stops exactly at the end of the frame. */
  lemma EventFrameRoundTrip(index: ControllerIndex, e: Event, t: bytes)
    requires WellFormedEvent(e) && |EncodeEventBody(e)| < 0x1_0000
    ensures UnpackEvents(PackEvent(index, e) + t) == Ok((IndexFromU16(IndexToU16(index)), e), t)
  {
    var body := EncodeEventBody(e);
    var s := PackEvent(index, e) + t;
    FrameRoundTrip(CodeOfEvent(e), index, body, t);
    assert s[0] == PackEvent(index, e)[0] && s[1] == PackEvent(index, e)[1];
    assert DecodeEventCode(s).Ok?;
    EventBodyRoundTrip(e);
  }

  /** The client's unit-test frame: a successful Command Complete for Read
      Management Version Information on no controller, carrying version 1,
      revision 0x0013. */
  lemma CommandCompleteExample()
    ensures UnpackEvents([0x01, 0x00, 0xFF, 0xFF, 0x06, 0x00, 0x01, 0x00, 0x00, 0x01, 0x13, 0x00])
            == Ok((NonController, CommandComplete(0x0001, SUCCESS, [0x01, 0x13, 0x00])), [])
  {
    var e := CommandComplete(0x0001, SUCCESS, [0x01, 0x13, 0x00]);
    var body: bytes := [0x01, 0x00, 0x00, 0x01, 0x13, 0x00];
    assert EncodeEventBody(e) == body;
    assert EncodeIndex(NonController) == [0xFF, 0xFF];
    assert PackEvent(NonController, e) == [0x01, 0x00] + [0xFF, 0xFF] + [0x06, 0x00] + body;
    var s: bytes := [0x01, 0x00, 0xFF, 0xFF, 0x06, 0x00, 0x01, 0x00, 0x00, 0x01, 0x13, 0x00];
    assert s == PackEvent(NonController, e) + [];
    EventFrameRoundTrip(NonController, e, []);
    assert UnpackEvents(s) == Ok((NonController, e), []);
  }

  /** An unknown code fails before the index or the payload is read. */
  lemma UnknownEventExample()
    ensures UnpackEvents([0x2F, 0x00, 0x00, 0x00, 0x00, 0x00]) == Err(UnexpectedValue(0x2F), [0x00, 0x00, 0x00, 0x00])
  {
  }

  // ---------------------------------------------------------------------
  // Replies
  // ---------------------------------------------------------------------

  /** `ReadManagementVersionInformationReply { version: u8, revision: u16 }`. */
  datatype VersionInformation = VersionInformation(version: byte, revision: u16)

  function DecodeVersionInformation(s: bytes): (r: Parsed<VersionInformation>)
    ensures r.Ok? <==> |s| >= 3
    ensures r.Ok? ==> r.value == VersionInformation(s[0], LE16(s, 1)) && r.rest == s[3..]
  {
    match DecodeU8(s)
    case Err(e, rest) => Err(e, rest)
    case Ok(v, r1) =>
      match DecodeU16(r1)
      case Err(e, rest) => Err(e, rest)
      case Ok(rev, r2) => Ok(VersionInformation(v, rev), r2)
  }

  /** The test frame's data is version 1, revision 0x0013. */
  lemma VersionInformationExample()
    ensures DecodeVersionInformation([0x01, 0x13, 0x00]) == Ok(VersionInformation(1, 0x0013), [])
  {
  }
}

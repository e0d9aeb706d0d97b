/** The command and event code tables.

    Every command and every event of the management API is identified by a
    16-bit code. The two generations of the library declare the same event
    codes (0x0001 Command Complete through 0x002E Controller Resume) but
    differ on the command codes: the `packet` crate leaves Get PHY
    Configuration (0x0044) without a `#[command]` attribute, so that code is
    not in its command set, while the `btmgmt` crate declares all codes from
    0x0001 to 0x0053. */
module Codes {
  import opened Bytes

  const READ_MANAGEMENT_VERSION_INFORMATION: u16 := 0x0001
  const READ_MANAGEMENT_SUPPORTED_COMMANDS: u16 := 0x0002
  const SET_POWERED: u16 := 0x0005
  const PIN_CODE_REPLY: u16 := 0x0016
  const ADD_ADVERTISING: u16 := 0x003E
  const GET_PHY_CONFIGURATION: u16 := 0x0044
  const LAST_COMMAND: u16 := 0x0053

  const COMMAND_COMPLETE: u16 := 0x0001
  const COMMAND_STATUS: u16 := 0x0002
  const INDEX_ADDED: u16 := 0x0004
  const INDEX_REMOVED: u16 := 0x0005
  const NEW_SETTINGS: u16 := 0x0006
  const DISCOVERING: u16 := 0x0013
  const LAST_EVENT: u16 := 0x002E

  /** `packet::command::CommandCode`: every code up to 0x0053 except Get
      PHY Configuration. */
  predicate IsCommandCode(c: nat)
  {
    0x0001 <= c <= LAST_COMMAND && c != GET_PHY_CONFIGURATION
  }

  /** `btmgmt::packet::command::CommandCode`: every code up to 0x0053. */
  predicate IsMgmtCommandCode(c: nat)
  {
    0x0001 <= c <= LAST_COMMAND
  }

  /** `EventCode`, identical in both generations. */
  predicate IsEventCode(c: nat)
  {
    0x0001 <= c <= LAST_EVENT
  }

  type MgmtCommandCode = c: u16 | 0x0001 <= c <= 0x0053 witness 0x0001
  type EventCode = c: u16 | 0x0001 <= c <= 0x002E witness 0x0001
}

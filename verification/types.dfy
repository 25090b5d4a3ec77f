/** Machine integer ranges, the optional-value wrapper and the ATT status
    codes shared by the rest of the model. */
module Types {

  /** An unsigned 8-bit value (`uint8_t`). */
  type byte = x: int | 0 <= x < 0x100

  /** An unsigned 16-bit value (`uint16_t`), used for connection and attribute handles. */
  type uint16 = x: int | 0 <= x < 0x1_0000


  /** The report length `DAP_PACKET_SIZE`. The report descriptor emits it as
      the one-byte data of a REPORT_COUNT item, so it lies in 1..255. */
  type PacketSize = x: int | 1 <= x < 0x100 witness 64

  datatype Option<+T> = None | Some(value: T)

  /** ATT error codes returned by the access callbacks (Bluetooth Core
      Specification, Vol 3, Part F, section 3.4.1.1). Zero means success. */
  const ATT_OK: int := 0
  const BLE_ATT_ERR_INVALID_ATTR_VALUE_LEN: int := 0x0d
  const BLE_ATT_ERR_INSUFFICIENT_RES: int := 0x11

  /** True when every byte of `s` is zero, as in a zero-initialised C array. */
  predicate AllZero(s: seq<byte>)
  {
    forall i :: 0 <= i < |s| ==> s[i] == 0
  }
}

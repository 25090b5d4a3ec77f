# bluedap HID-over-GATT report handling, in Dafny

bluedap turns an ESP32 into a Bluetooth LE HID device meant to carry CMSIS-DAP
debug traffic. This project models the HID part of its firmware,
`main/hid_dap.c` and the `LITTLE_ENDIAN_16BIT` macro of `main/hid_dap.h`:

- the module's state: the `DAP_PACKET_SIZE`-byte input and output report
  buffers, the notification flag, the remembered connection handle and the
  input report's attribute handle (`HidDap.State`);
- the access callbacks of the Input Report, Output Report, Report Map, HID
  Information, HID Control Point, Battery Level, PnP ID and Report Reference
  attributes: the Output Report callback is one atomic transition from a
  state to a state and a reply, while the constant reads and the
  input-report read are functions of the library status that leave the
  state unchanged;
- the one-second timer that counts byte 0 of the input report up modulo 256
  and notifies the subscribed host;
- the GAP subscribe handler that switches notifications on and off;
- the hex-dump log line built after every output-report write, as a pure
  reference function and as an array method with a loop invariant;
- the constant wire encodings: the byte-split macro, the HID Information
  and PnP ID values built with it, and the 34-byte HID report descriptor,
  checked with a short-item parser that follows the USB Device Class
  Definition for HID 1.11, section 6.2.2.2, and the item meanings of
  sections 6.2.2.4, 6.2.2.7 and 6.2.2.8.

`DAP_PACKET_SIZE` comes from a header that is not part of this model. It is a
parameter `n` in 1..255 (`Types.PacketSize`): the descriptor stores it as the
one-byte data of a REPORT_COUNT item.

A written output report is only copied and logged
(`main/hid_dap.c:192-193`); the input report changes only through the timer
counter (`main/hid_dap.c:288`).

Files:

- `types.dfy` (`Types`): byte and handle ranges, `Option`, ATT status codes
  (Bluetooth Core Specification, Vol 3, Part F, section 3.4.1.1).
- `gatt.dfy` (`Gatt`): `os_mbuf_append` and `ble_hs_mbuf_to_flat` as
  status oracles.
- `little_endian.dfy` (`LittleEndian`): the byte-split macro over a bitwise
  AND defined bit by bit.
- `hex_dump.dfy` (`HexDump`): the log formatter.
- `report_descriptor.dfy` (`ReportDescriptor`): the descriptor, its parser
  and its decoded fields.
- `payloads.dfy` (`Payloads`): the fixed characteristic values.
- `hid_dap.dfy` (`HidDap`): the report state machine and event traces.

The library calls are parameters. `appendRc` is the status
`os_mbuf_append` returns; a non-zero status makes the callback answer
`BLE_ATT_ERR_INSUFFICIENT_RES` with no data. `copyRc` is the status of
`ble_hs_mbuf_to_flat`; the copy itself is modelled as replacing the leading
`min(|value|, N)` bytes of the output buffer. A notification is an emitted
value (`HidDap.Notification`), and a log line is the formatted string only.

## Model

| member | source | states |
|---|---|---|
| `LittleEndian.Split16` | main/hid_dap.h:5 | The macro yields exactly two bytes: the value modulo 256, then bits 8..15 of the value. |
| `LittleEndian.LowByte` | main/hid_dap.h:5 | `(uint8_t)(v & 0x00FF)` is `v` modulo 256. |
| `LittleEndian.HighByte` | main/hid_dap.h:5 | `(uint8_t)((v & 0xFF00) >> 8)` is bits 8..15 of `v`. |
| `LittleEndian.LowMask` | main/hid_dap.h:5 | AND with the mask of the low k bits is reduction modulo 2^k. |
| `LittleEndian.HighByteMask` | main/hid_dap.h:5 | AND with 0xFF00 then shifting right by 8 extracts bits 8..15. |
| `LittleEndian.SplitJoin` | main/hid_dap.h:5 | Joining the two bytes gives the value modulo 65536, and the value itself for 0..65535. |
| `LittleEndian.JoinSplit` | main/hid_dap.h:5 | Every pair of bytes is the split of the value it joins to. |
| `LittleEndian.SplitBytes` | main/hid_dap.h:5 | A value `lo + 256 * hi` splits into exactly `lo, hi`. |
| `LittleEndian.SplitDependsOnlyOnLow16` | main/hid_dap.h:5 | Two values split alike if and only if they agree modulo 65536: bits above 15 are discarded. |
| `Payloads.HidInformation` | main/hid_dap.c:231-235 | The HID Information value, a literal copy built with the byte-split macro; no contract of its own, its bytes are stated by `Payloads.HidInformationBytes`. |
| `Payloads.PnpId` | main/hid_dap.c:264-269 | The PnP ID value, a literal copy built with the byte-split macro; no contract of its own, its bytes are stated by `Payloads.PnpIdBytes`. |
| `Payloads.HidInformationBytes` | main/hid_dap.c:231-235 | The HID Information value is `[0x11, 0x01, 0x00, 0x02]`: bcdHID 1.11, country 0, NormallyConnectable. |
| `Payloads.PnpIdBytes` | main/hid_dap.c:264-269 | The PnP ID value is `[0x02, 0xAD, 0xDE, 0xEF, 0xBE, 0x01, 0x00]`. |
| `Payloads.PayloadFieldsDecode` | main/hid_dap.c:231-269 | Reading the 16-bit fields back gives bcdHID 0x111, vendor 0xDEAD, product 0xBEEF and version 0x0001. |
| `Payloads.InputReportReferenceRead` | main/hid_dap.c:172-183 | Status 0 exactly when the append succeeds, then returning Report ID 0 and report type 1 (input); otherwise `BLE_ATT_ERR_INSUFFICIENT_RES` and no data. |
| `Payloads.OutputReportReferenceRead` | main/hid_dap.c:206-217 | Status 0 exactly when the append succeeds, then returning Report ID 0 and report type 2 (output); otherwise `BLE_ATT_ERR_INSUFFICIENT_RES` and no data. |
| `Payloads.ReportMapRead` | main/hid_dap.c:219-225 | Status 0 exactly when the append succeeds, then returning the 34 descriptor bytes, which parse into its sixteen items; otherwise `BLE_ATT_ERR_INSUFFICIENT_RES` and no data. |
| `Payloads.HidInformationRead` | main/hid_dap.c:227-239 | Status 0 exactly when the append succeeds, then returning the four HID Information bytes; otherwise `BLE_ATT_ERR_INSUFFICIENT_RES` and no data. |
| `Payloads.BatteryLevelRead` | main/hid_dap.c:248-258 | Status 0 exactly when the append succeeds, then returning the single byte 100; otherwise `BLE_ATT_ERR_INSUFFICIENT_RES` and no data. |
| `Payloads.PnpIdRead` | main/hid_dap.c:260-273 | Status 0 exactly when the append succeeds, then returning the seven PnP ID bytes; otherwise `BLE_ATT_ERR_INSUFFICIENT_RES` and no data. |
| `Payloads.ControlPointWrite` | main/hid_dap.c:241-246 | Any write to the control point succeeds with status 0. |
| `Gatt.AppendReply` | main/hid_dap.c:168-169 | Status 0 with the payload exactly when the append succeeds; otherwise `BLE_ATT_ERR_INSUFFICIENT_RES` and no data. |
| `Gatt.CopyToFlat` | main/hid_dap.c:192 | The buffer keeps its length; its leading bytes are the written value's, the rest keep their old contents. |
| `HexDump.DigitValue` | main/hid_dap.c:279 | Inverts `%x` on lower-case hex digits and rejects every other character. |
| `HexDump.Dump` | main/hid_dap.c:278-281 | The reference dump: characters 3i and 3i+1 are the hex digits of byte i, character 3i+2 is a space. |
| `HexDump.ParseDump` | main/hid_dap.c:278-281 | Decoding the digit pairs of a dump gives back the bytes. |
| `HexDump.DumpInjective` | main/hid_dap.c:278-281 | Two byte strings have the same dump if and only if they are equal. |
| `HexDump.FormatReport` | main/hid_dap.c:275-283 | The array formatter, with its buffer one element longer, produces the dump of the report. |
| `HexDump.LoopWritesInBounds` | main/hid_dap.c:278-281 | The loop stores four times per byte, and every store lands inside the 3N-character array. |
| `HexDump.FormatReportAsWritten` | main/hid_dap.c:275-282 | The loop as written, on a 3N-character array, fills it with the dump; the terminator store of line 282 targets index 3N, outside the array. |
| `HexDump.SourceTerminatorOutOfBounds` | main/hid_dap.c:277-282 | The terminator store goes to index 3N of a 3N-element array, outside it. |
| `HexDump.CorrectedWritesInBounds` | main/hid_dap.c:277-282 | With 3N+1 elements every store, terminator included, is in bounds. |
| `ReportDescriptor.Descriptor` | main/hid_dap.c:14-31 | The 34 descriptor bytes, a literal copy with `n` in place of `DAP_PACKET_SIZE`; its contract pins `n` as the data byte after the REPORT_COUNT prefix 0x95 at indices 17 and 30. What the bytes parse to is stated by `DescriptorParses`. |
| `ReportDescriptor.ParseItem` | main/hid_dap.c:14-31 | A parsed item is short and its encoding followed by the rest is the input. |
| `ReportDescriptor.ParseEncode` | main/hid_dap.c:14-31 | Short items survive encoding and parsing. |
| `ReportDescriptor.EncodeParse` | main/hid_dap.c:14-31 | Whatever parses is the encoding of its items, all short. |
| `ReportDescriptor.EncodeDescriptorItems` | main/hid_dap.c:14-31 | The descriptor bytes are the encoding of the sixteen items its comments name. |
| `ReportDescriptor.DescriptorParses` | main/hid_dap.c:14-31 | The descriptor is 34 bytes and parses into those sixteen short items with nothing left over. |
| `ReportDescriptor.ItemMeanings` | main/hid_dap.c:15-30 | Each item decodes to its comment: vendor page 0xFF00, logical range 0..255, size 8, count N, Data,Var,Abs. |
| `ReportDescriptor.DescriptorMeanings` | main/hid_dap.c:14-31 | The sixteen items decode, in order, to the meanings the comments give. |
| `ReportDescriptor.OneCollection` | main/hid_dap.c:17-30 | There is one Collection, the third item, and one End Collection, the last. |
| `ReportDescriptor.DescriptorFields` | main/hid_dap.c:14-31 | The descriptor declares one input and one output field, each N 8-bit values over 0..255, so N bytes each, inside a closed collection. |
| `ReportDescriptor.WalkAppend` | main/hid_dap.c:14-31 | Walking two item lists in a row equals walking their concatenation. |
| `HidDap.Initial` | main/hid_dap.c:47-54 | Both buffers start as N zero bytes, notifications off, connection handle 0. |
| `HidDap.InputReportRead` | main/hid_dap.c:164-170 | A successful read returns the input buffer verbatim; a failed append gives `BLE_ATT_ERR_INSUFFICIENT_RES`. |
| `HidDap.OutputReportWrite` | main/hid_dap.c:190-194 | Only the output buffer changes, as the copy says; status 0 exactly when the copy status is 0, else `BLE_ATT_ERR_INVALID_ATTR_VALUE_LEN`; the dump of the new buffer is logged in both cases. |
| `HidDap.OutputReportRead` | main/hid_dap.c:196-198 | A successful read returns the output buffer verbatim; the state is unchanged. |
| `HidDap.OutputReportAccess` | main/hid_dap.c:185-204 | Reads leave the state alone; writes change only the output buffer and always log. |
| `HidDap.OnTimer` | main/hid_dap.c:286-295 | Byte 0 becomes its successor modulo 256, nothing else changes, and a notification of the whole new buffer to the remembered connection on the input report handle is emitted exactly when notifications are enabled. |
| `HidDap.TicksCount` | main/hid_dap.c:288 | After k ticks byte 0 has advanced by k modulo 256 and the rest of the state is as before. |
| `HidDap.TicksWrap` | main/hid_dap.c:288 | Any multiple of 256 ticks restores the state. |
| `HidDap.HandleSubscribe` | main/hid_dap.c:317-329 | An event on the input report handle sets the flag and the connection and logs enabled/disabled; any other handle changes nothing; the result is always 0. |
| `HidDap.NotifyLog` | main/hid_dap.c:325 | The subscribe log line, a literal copy of the format string with `%s` filled in; no contract of its own, `HidDap.HandleSubscribe` states when it is logged. |
| `HidDap.SubscribeIdempotent` | main/hid_dap.c:321-323 | Delivering the same subscribe event twice equals delivering it once. |
| `HidDap.SubscribeThenTick` | main/hid_dap.c:290-293 | After a subscription on the input report handle, the next tick notifies exactly when it enabled notifications, on its connection, with what an input-report read returns. |
| `HidDap.WriteThenRead` | main/hid_dap.c:190-198 | After a successful full-length write, a read returns exactly the written bytes and the log line decodes to them. |
| `HidDap.ShortWriteKeepsTail` | main/hid_dap.c:192 | A short write replaces only the leading bytes of the output buffer. |
| `HidDap.LongWriteTruncates` | main/hid_dap.c:192 | A long write keeps only its first N bytes. |
| `HidDap.RunInvariant` | main/hid_dap.c:286-329 | Over any event trace: buffers keep length N, the input report handle and input bytes 1.. never change, byte 0 has advanced by the tick count modulo 256, and without writes the output buffer is unchanged. |

## Left out

- `main/nus_serial.c` and `main/nus_serial.h`: a UART to BLE byte
  passthrough running as driver I/O in a FreeRTOS task.
- `main/main.c`: NVS and NimBLE start-up, advertising and restart. As
  written it never calls `hid_dap_init` and routes only
  `BLE_GAP_EVENT_ADV_COMPLETE`, so the subscribe handler is not reached from
  there; the model treats every handler as reachable.
- The GATT service table and `hid_dap_init` (`main/hid_dap.c:56-162`,
  `297-315`): configuration handed to `ble_gatts_count_cfg`,
  `ble_gatts_add_svcs` and `xTimerCreate`, which are not part of this model.
  The handle they assign is the `inputReportHandle` parameter of
  `HidDap.Initial`.
- The internals of `os_mbuf_append`, `ble_hs_mbuf_to_flat`,
  `ble_hs_mbuf_from_flat`, `ble_gatts_notify_custom` and `ESP_LOGI`: their
  statuses are parameters, a failed `ble_hs_mbuf_from_flat` allocation is
  not modelled, and a log line is its text without the logger's prefix.
- Races between the timer task and the BLE host task on the input buffer:
  each handler is one atomic step.
- The `assert(ctxt->op == …)` checks: each handler takes only the
  operations it admits, so the Output Report's `default:` branch
  (`BLE_ATT_ERR_UNLIKELY`) has no input that reaches it.
- `LittleEndian.Split16`: takes a non-negative value only. The source
  passes it the constants 0x111, 0xDEAD, 0xBEEF and 0x0001; the
  two's-complement reading of a negative C `int` is not modelled.
- `Gatt.CopyToFlat`: the copy is modelled the same whatever status the
  library reports; a partial copy behind a non-zero status is not.
- `ReportDescriptor.ParseItem`: long items (prefix 0xFE) are rejected, not
  parsed; the descriptor has none. Item tags the descriptor does not use
  decode as `Other`.

## Findings

| source | as written | input that shows it | evidently intended | confidence | as-written member | corrected member |
|---|---|---|---|---|---|---|
| main/hid_dap.c:277-282 | `data_str` has `3 * N` elements, but the terminator is stored at `data_str[3 * N]` | any report size N, e.g. N = 64 stores to index 192 of a 192-element array | declare `data_str` with `3 * N + 1` elements so the terminator fits | not executed | `HexDump.FormatReportAsWritten` | `HexDump.FormatReport` |

/** The read-only characteristics and descriptors whose values are fixed:
    report references, report map, HID Information, battery level, PnP ID,
    and the HID Control Point, which accepts any write. */
module Payloads {
  import opened Types
  import opened Gatt
  import LittleEndian
  import ReportDescriptor

  /** Report Reference descriptor values: Report ID 0, then the report type
      (1 = Input, 2 = Output), as in the HID over GATT Profile 1.0,
      section 2.6.2. */
  const INPUT_REPORT_REFERENCE: seq<byte> := [0x00, 0x01]
  const OUTPUT_REPORT_REFERENCE: seq<byte> := [0x00, 0x02]

  /** The Battery Level value, a fixed 100 percent. */
  const BATTERY_LEVEL: seq<byte> := [100]

  /** HID Information: bcdHID 0x0111 split little-endian, country code 0,
      and flags 0x02 (NormallyConnectable, no RemoteWake). */
  function HidInformation(): (d: seq<byte>)
  {
    LittleEndian.Split16(0x111) + [0x00, 0x02]
  }

  /** PnP ID: vendor ID source 0x02 (USB Implementer's Forum), then vendor
      ID 0xDEAD, product ID 0xBEEF and product version 0x0001, each split
      little-endian. */
  function PnpId(): (d: seq<byte>)
  {
    [0x02] + LittleEndian.Split16(0xDEAD) + LittleEndian.Split16(0xBEEF) + LittleEndian.Split16(0x0001)
  }

  /** The four HID Information bytes: version 1.11 low byte first. */
  lemma {:induction false} HidInformationBytes()
    ensures HidInformation() == [0x11, 0x01, 0x00, 0x02]
  {
    LittleEndian.SplitBytes(0x111, 0x11, 0x01);
  }

  /** The seven PnP ID bytes. */
  lemma {:induction false} PnpIdBytes()
    ensures PnpId() == [0x02, 0xAD, 0xDE, 0xEF, 0xBE, 0x01, 0x00]
  {
    LittleEndian.SplitBytes(0xDEAD, 0xAD, 0xDE);
    LittleEndian.SplitBytes(0xBEEF, 0xEF, 0xBE);
    LittleEndian.SplitBytes(0x0001, 0x01, 0x00);
  }

  /** Reading back the version, vendor, product and product version fields
      gives the numbers the source wrote. */
  lemma {:induction false} PayloadFieldsDecode()
    ensures LittleEndian.Join16(HidInformation()[0..2]) == 0x111
    ensures LittleEndian.Join16(PnpId()[1..3]) == 0xDEAD
    ensures LittleEndian.Join16(PnpId()[3..5]) == 0xBEEF
    ensures LittleEndian.Join16(PnpId()[5..7]) == 0x0001
  {
    assert HidInformation()[0..2] == [0x11, 0x01] by {
      HidInformationBytes();
    }
    var pnp := PnpId();
    assert pnp == [0x02, 0xAD, 0xDE, 0xEF, 0xBE, 0x01, 0x00] by {
      PnpIdBytes();
    }
    assert pnp[1..3] == [0xAD, 0xDE];
    assert pnp[3..5] == [0xEF, 0xBE];
    assert pnp[5..7] == [0x01, 0x00];
  }

  /** Read of the input report's Report Reference descriptor. */
  function InputReportReferenceRead(appendRc: int): (r: Reply)
    ensures r.status == ATT_OK <==> appendRc == 0
    ensures r.status != ATT_OK ==> r.status == BLE_ATT_ERR_INSUFFICIENT_RES && r.data == []
    ensures r.status == ATT_OK ==> r.data == [0, 1]
  {
    AppendReply(INPUT_REPORT_REFERENCE, appendRc)
  }

  /** Read of the output report's Report Reference descriptor. */
  function OutputReportReferenceRead(appendRc: int): (r: Reply)
    ensures r.status == ATT_OK <==> appendRc == 0
    ensures r.status != ATT_OK ==> r.status == BLE_ATT_ERR_INSUFFICIENT_RES && r.data == []
    ensures r.status == ATT_OK ==> r.data == [0, 2]
  {
    AppendReply(OUTPUT_REPORT_REFERENCE, appendRc)
  }

  /** Read of the Report Map: the whole report descriptor. */
  function ReportMapRead(n: PacketSize, appendRc: int): (r: Reply)
    ensures r.status == ATT_OK <==> appendRc == 0
    ensures r.status != ATT_OK ==> r.status == BLE_ATT_ERR_INSUFFICIENT_RES && r.data == []
    ensures r.status == ATT_OK ==> r.data == ReportDescriptor.Descriptor(n) && |r.data| == 34
    ensures r.status == ATT_OK ==> ReportDescriptor.ParseItems(r.data) == Some(ReportDescriptor.DescriptorItems(n))
  {
    ReportDescriptor.DescriptorParses(n);
    AppendReply(ReportDescriptor.Descriptor(n), appendRc)
  }

  /** Read of HID Information. */
  function HidInformationRead(appendRc: int): (r: Reply)
    ensures r.status == ATT_OK <==> appendRc == 0
    ensures r.status != ATT_OK ==> r.status == BLE_ATT_ERR_INSUFFICIENT_RES && r.data == []
    ensures r.status == ATT_OK ==> r.data == [0x11, 0x01, 0x00, 0x02]
  {
    HidInformationBytes();
    AppendReply(HidInformation(), appendRc)
  }

  /** Read of the Battery Level. */
  function BatteryLevelRead(appendRc: int): (r: Reply)
    ensures r.status == ATT_OK <==> appendRc == 0
    ensures r.status != ATT_OK ==> r.status == BLE_ATT_ERR_INSUFFICIENT_RES && r.data == []
    ensures r.status == ATT_OK ==> r.data == [100]
  {
    AppendReply(BATTERY_LEVEL, appendRc)
  }

  /** Read of the PnP ID. */
  function PnpIdRead(appendRc: int): (r: Reply)
    ensures r.status == ATT_OK <==> appendRc == 0
    ensures r.status != ATT_OK ==> r.status == BLE_ATT_ERR_INSUFFICIENT_RES && r.data == []
    ensures r.status == ATT_OK ==> r.data == [0x02, 0xAD, 0xDE, 0xEF, 0xBE, 0x01, 0x00]
  {
    PnpIdBytes();
    AppendReply(PnpId(), appendRc)
  }

  /** A write to the HID Control Point (Suspend / Exit Suspend) is accepted
      and ignored, whatever it carries. */
  function ControlPointWrite(value: seq<byte>): (status: int)
    ensures status == ATT_OK
  {
    ATT_OK
  }
}

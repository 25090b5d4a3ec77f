/** The two NimBLE buffer calls the access callbacks make, as status-returning
    oracles: the status each call reports is a parameter, and the model states
    what the callback does with it. */
module Gatt {
  import opened Types

  /** What an access callback hands back to the ATT layer: its status and,
      for a read, the bytes the response carries. */
  datatype Reply = Reply(status: int, data: seq<byte>)

  /** `os_mbuf_append(ctxt->om, payload, len)` followed by
      `return (rc == 0) ? 0 : BLE_ATT_ERR_INSUFFICIENT_RES`. When the append
      fails the ATT layer answers with an error response, so no bytes go out. */
  function AppendReply(payload: seq<byte>, appendRc: int): (r: Reply)
    ensures r.status == ATT_OK <==> appendRc == 0
    ensures r.status != ATT_OK ==> r.status == BLE_ATT_ERR_INSUFFICIENT_RES && r.data == []
    ensures r.status == ATT_OK ==> r.data == payload
  {
    if appendRc == 0 then Reply(ATT_OK, payload) else Reply(BLE_ATT_ERR_INSUFFICIENT_RES, [])
  }

  /** `ble_hs_mbuf_to_flat(om, buffer, |buffer|, NULL)`: the written value's
      leading bytes, as many as fit, replace the buffer's; the rest of the
      buffer keeps its old contents. */
  function CopyToFlat(written: seq<byte>, buffer: seq<byte>): (r: seq<byte>)
    ensures |r| == |buffer|
    ensures forall i :: 0 <= i < |r| && i < |written| ==> r[i] == written[i]
    ensures forall i :: |written| <= i < |r| ==> r[i] == buffer[i]
  {
    if |written| >= |buffer| then written[..|buffer|]
    else written + buffer[|written|..]
  }
}

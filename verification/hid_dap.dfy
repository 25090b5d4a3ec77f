/** The HID-over-GATT report handling: the two report buffers, the
    notification subscription, and the access callbacks, timer tick and
    subscribe handler that read and change them. Each handler is one atomic
    transition of an immutable `State`. */
module HidDap {
  import opened Types
  import opened Gatt
  import HexDump

  /** The module's globals: the input report sent to the host, the output
      report last written by it, whether the host subscribed to input-report
      notifications, the connection it subscribed on, and the attribute handle
      the stack assigned to the input report value. */
  datatype State = State(input: seq<byte>, output: seq<byte>, notifyEnabled: bool,
                         connHandle: uint16, inputReportHandle: uint16)

  /** Both report buffers hold `DAP_PACKET_SIZE` bytes. */
  predicate Valid(s: State, n: PacketSize)
  {
    |s.input| == n && |s.output| == n
  }

  /** The state before any event: zero-initialised statics, and whatever
      value handle the stack assigned when the services were registered. */
  function Initial(n: PacketSize, inputReportHandle: uint16): (s: State)
    ensures Valid(s, n) && AllZero(s.input) && AllZero(s.output)
    ensures !s.notifyEnabled && s.connHandle == 0 && s.inputReportHandle == inputReportHandle
  {
    State(seq(n, _ => 0), seq(n, _ => 0), false, 0, inputReportHandle)
  }

  // ---------------------------------------------------------------------
  // Input report
  // ---------------------------------------------------------------------

  /** A read of the Input Report characteristic: the whole input buffer. */
  function InputReportRead(s: State, appendRc: int): (r: Reply)
    ensures r.status == ATT_OK <==> appendRc == 0
    ensures r.status != ATT_OK ==> r.status == BLE_ATT_ERR_INSUFFICIENT_RES
    ensures r.status == ATT_OK ==> r.data == s.input
  {
    AppendReply(s.input, appendRc)
  }

  // ---------------------------------------------------------------------
  // Output report
  // ---------------------------------------------------------------------

  /** The two operations the Output Report characteristic admits. */
  datatype Access =
    | Read(appendRc: int)
    | Write(value: seq<byte>, copyRc: int)

  /** A handler's effect: the new state, the reply to the ATT layer, and the
      line it logs, if any. */
  datatype Outcome = Outcome(state: State, reply: Reply, log: Option<string>)

  const OUTPUT_LOG_PREFIX: string := "Output report written: "

  /** A write: the written value is copied into the output buffer, the buffer
      is logged as a hex dump whether or not the copy succeeded, and a copy
      failure becomes `BLE_ATT_ERR_INVALID_ATTR_VALUE_LEN`. */
  function OutputReportWrite(s: State, value: seq<byte>, copyRc: int): (o: Outcome)
    ensures o.state.(output := s.output) == s
    ensures |o.state.output| == |s.output|
    ensures forall i :: 0 <= i < |s.output| && i < |value| ==> o.state.output[i] == value[i]
    ensures forall i :: |value| <= i < |s.output| ==> o.state.output[i] == s.output[i]
    ensures o.reply.status == ATT_OK <==> copyRc == 0
    ensures o.reply.status != ATT_OK ==> o.reply.status == BLE_ATT_ERR_INVALID_ATTR_VALUE_LEN
    ensures o.reply.data == []
    ensures o.log.Some? && |o.log.value| == |OUTPUT_LOG_PREFIX| + 3 * |s.output|
    ensures o.log.Some? ==> o.log.value[..|OUTPUT_LOG_PREFIX|] == OUTPUT_LOG_PREFIX
    ensures o.log.Some? ==> HexDump.IsDumpOf(o.log.value[|OUTPUT_LOG_PREFIX|..], o.state.output)
  {
    var output := CopyToFlat(value, s.output);
    var log := OUTPUT_LOG_PREFIX + HexDump.Dump(output);
    assert log[|OUTPUT_LOG_PREFIX|..] == HexDump.Dump(output);
    Outcome(s.(output := output),
            Reply(if copyRc == 0 then ATT_OK else BLE_ATT_ERR_INVALID_ATTR_VALUE_LEN, []),
            Some(log))
  }

  /** A read: the whole output buffer, state unchanged, nothing logged. */
  function OutputReportRead(s: State, appendRc: int): (o: Outcome)
    ensures o.state == s && o.log == None
    ensures o.reply.status == ATT_OK <==> appendRc == 0
    ensures o.reply.status != ATT_OK ==> o.reply.status == BLE_ATT_ERR_INSUFFICIENT_RES
    ensures o.reply.status == ATT_OK ==> o.reply.data == s.output
  {
    Outcome(s, AppendReply(s.output, appendRc), None)
  }

  /** The Output Report access callback, dispatching on the operation. */
  function OutputReportAccess(s: State, a: Access): (o: Outcome)
    ensures a.Read? ==> o.state == s
    ensures a.Write? ==> o.state.(output := s.output) == s && o.log.Some?
  {
    match a
    case Read(appendRc) => OutputReportRead(s, appendRc)
    case Write(value, copyRc) => OutputReportWrite(s, value, copyRc)
  }

  // ---------------------------------------------------------------------
  // Timer
  // ---------------------------------------------------------------------

  /** A notification handed to the stack: connection, attribute handle and
      the value carried. */
  datatype Notification = Notification(connHandle: uint16, attrHandle: uint16, value: seq<byte>)

  datatype TimerOutcome = TimerOutcome(state: State, notification: Option<Notification>)

  /** The periodic timer: byte 0 of the input report counts up modulo 256,
      and if the host subscribed, the whole new input report is notified to
      the remembered connection on the input report handle. */
  function OnTimer(s: State): (t: TimerOutcome)
    requires |s.input| >= 1
    ensures |t.state.input| == |s.input|
    ensures t.state.input[0] == (s.input[0] as int + 1) % 256
    ensures forall i :: 1 <= i < |s.input| ==> t.state.input[i] == s.input[i]
    ensures t.state.(input := s.input) == s
    ensures t.notification.Some? <==> s.notifyEnabled
    ensures t.notification.Some? ==>
      t.notification.value == Notification(s.connHandle, s.inputReportHandle, t.state.input)
  {
    var s' := s.(input := s.input[0 := (s.input[0] as int + 1) % 256]);
    TimerOutcome(s', if s.notifyEnabled then Some(Notification(s.connHandle, s.inputReportHandle, s'.input)) else None)
  }

  /** `k` timer ticks in a row. */
  function Ticks(s: State, k: nat): (s': State)
    requires |s.input| >= 1
    ensures |s'.input| == |s.input|
    decreases k
  {
    if k == 0 then s else Ticks(OnTimer(s).state, k - 1)
  }

  /** After `k` ticks byte 0 has advanced by `k` modulo 256 and nothing else
      has changed. */
  lemma {:induction false} TicksCount(s: State, k: nat)
    requires |s.input| >= 1
    ensures Ticks(s, k).input[0] == (s.input[0] as int + k) % 256
    ensures Ticks(s, k).input[1..] == s.input[1..]
    ensures Ticks(s, k).(input := s.input) == s
    decreases k
  {
    if k > 0 {
      var t := OnTimer(s).state;
      TicksCount(t, k - 1);
      assert t.input[1..] == s.input[1..];
      assert ((s.input[0] as int + 1) % 256 + (k - 1)) % 256 == (s.input[0] as int + k) % 256;
    }
  }

  /** The counter wraps: any multiple of 256 ticks gives back the state
      they started from. */
  lemma {:induction false} TicksWrap(s: State, k: nat)
    requires |s.input| >= 1
    requires k % 256 == 0
    ensures Ticks(s, k) == s
  {
    TicksCount(s, k);
    var t := Ticks(s, k);
    assert t.input[0] == s.input[0];
    assert t.input == [t.input[0]] + t.input[1..];
    assert s.input == [s.input[0]] + s.input[1..];
  }

  // ---------------------------------------------------------------------
  // Subscribe events
  // ---------------------------------------------------------------------

  /** The fields of a GAP subscribe event the handler reads. */
  datatype SubscribeEvent = SubscribeEvent(connHandle: uint16, attrHandle: uint16, curNotify: bool)

  datatype SubscribeOutcome = SubscribeOutcome(state: State, status: int, log: Option<string>)

  function NotifyLog(enabled: bool): string
  {
    "Input report notification " + (if enabled then "enabled" else "disabled")
  }

  /** Only a subscription to the input report handle is acted on; it sets
      the notify flag and remembers the connection. The handler always
      returns 0. */
  function HandleSubscribe(s: State, e: SubscribeEvent): (o: SubscribeOutcome)
    ensures o.status == 0
    ensures o.state.input == s.input && o.state.output == s.output
    ensures o.state.inputReportHandle == s.inputReportHandle
    ensures e.attrHandle == s.inputReportHandle ==>
      o.state.notifyEnabled == e.curNotify && o.state.connHandle == e.connHandle
      && o.log == Some(NotifyLog(e.curNotify))
    ensures e.attrHandle != s.inputReportHandle ==> o.state == s && o.log == None
  {
    if e.attrHandle == s.inputReportHandle then
      SubscribeOutcome(s.(notifyEnabled := e.curNotify, connHandle := e.connHandle), 0, Some(NotifyLog(e.curNotify)))
    else
      SubscribeOutcome(s, 0, None)
  }

  /** Delivering the same subscribe event twice is the same as delivering it once. */
  lemma {:induction false} SubscribeIdempotent(s: State, e: SubscribeEvent)
    ensures HandleSubscribe(HandleSubscribe(s, e).state, e).state == HandleSubscribe(s, e).state
  {
  }

  /** After a subscription on the input report handle, the next tick notifies
      exactly when the subscription enabled notifications, on the event's
      connection, carrying what a read of the input report would return. */
  lemma {:induction false} SubscribeThenTick(s: State, e: SubscribeEvent)
    requires |s.input| >= 1
    requires e.attrHandle == s.inputReportHandle
    ensures var t := OnTimer(HandleSubscribe(s, e).state);
      && (t.notification.Some? <==> e.curNotify)
      && (t.notification.Some? ==>
            t.notification.value.connHandle == e.connHandle
            && t.notification.value.attrHandle == s.inputReportHandle
            && t.notification.value.value == InputReportRead(t.state, 0).data)
  {
    var s1 := HandleSubscribe(s, e).state;
    var t := OnTimer(s1);
    assert InputReportRead(t.state, 0).data == t.state.input;
  }

  // ---------------------------------------------------------------------
  // Writes and reads together
  // ---------------------------------------------------------------------

  /** A successful full-length write is read back verbatim, and its log line
      decodes to the same bytes. */
  lemma {:induction false} WriteThenRead(s: State, value: seq<byte>)
    requires |value| == |s.output|
    ensures var w := OutputReportWrite(s, value, 0);
      && w.reply.status == ATT_OK
      && OutputReportRead(w.state, 0).reply.data == value
      && HexDump.Parse(w.log.value[|OUTPUT_LOG_PREFIX|..]) == value
  {
    var w := OutputReportWrite(s, value, 0);
    assert w.state.output == value;
    HexDump.ParseDump(w.log.value[|OUTPUT_LOG_PREFIX|..], w.state.output);
  }

  /** A write shorter than the report replaces only the leading bytes; the
      tail keeps what the previous write left there. */
  lemma {:induction false} ShortWriteKeepsTail(s: State, value: seq<byte>, copyRc: int)
    requires |value| <= |s.output|
    ensures OutputReportWrite(s, value, copyRc).state.output == value + s.output[|value|..]
  {
    var out := OutputReportWrite(s, value, copyRc).state.output;
    assert |out| == |value + s.output[|value|..]|;
    forall i | 0 <= i < |out|
      ensures out[i] == (value + s.output[|value|..])[i]
    {
    }
  }

  /** A write longer than the report is cut to its first N bytes. */
  lemma {:induction false} LongWriteTruncates(s: State, value: seq<byte>, copyRc: int)
    requires |value| >= |s.output|
    ensures OutputReportWrite(s, value, copyRc).state.output == value[..|s.output|]
  {
    var out := OutputReportWrite(s, value, copyRc).state.output;
    assert |out| == |value[..|s.output|]|;
    forall i | 0 <= i < |out|
      ensures out[i] == value[..|s.output|][i]
    {
    }
  }

  // ---------------------------------------------------------------------
  // Event traces
  // ---------------------------------------------------------------------

  /** Everything that can reach the module. Reads of the report map, HID
      information, battery level, PnP ID and report references, and writes to
      the control point, touch no state and are lumped together. */
  datatype Event =
    | Tick
    | Subscribe(subscribe: SubscribeEvent)
    | OutputReport(access: Access)
    | InputReportReadEvent(appendRc: int)
    | Stateless

  function Step(s: State, e: Event): (s': State)
    requires |s.input| >= 1
    ensures |s'.input| == |s.input| && |s'.output| == |s.output|
  {
    match e
    case Tick => OnTimer(s).state
    case Subscribe(se) => HandleSubscribe(s, se).state
    case OutputReport(a) => OutputReportAccess(s, a).state
    case InputReportReadEvent(_) => s
    case Stateless => s
  }

  function Run(s: State, events: seq<Event>): (s': State)
    requires |s.input| >= 1
    ensures |s'.input| == |s.input| && |s'.output| == |s.output|
    decreases |events|
  {
    if events == [] then s else Run(Step(s, events[0]), events[1..])
  }

  /** The number of timer ticks in a trace. */
  function TickCount(events: seq<Event>): nat
  {
    if events == [] then 0 else (if events[0].Tick? then 1 else 0) + TickCount(events[1..])
  }

  /** True when no event of the trace writes the output report. */
  predicate NoOutputWrites(events: seq<Event>)
  {
    forall i :: 0 <= i < |events| ==> !(events[i].OutputReport? && events[i].access.Write?)
  }

  /** Over any trace: both buffers keep their length, the input report
      handle never changes, input bytes other than byte 0 never change, byte
      0 has advanced by the number of ticks modulo 256, and the output buffer
      changes only through writes. */
  lemma {:induction false} RunInvariant(s: State, n: PacketSize, events: seq<Event>)
    requires Valid(s, n)
    ensures Valid(Run(s, events), n)
    ensures Run(s, events).inputReportHandle == s.inputReportHandle
    ensures Run(s, events).input[1..] == s.input[1..]
    ensures Run(s, events).input[0] == (s.input[0] as int + TickCount(events)) % 256
    ensures NoOutputWrites(events) ==> Run(s, events).output == s.output
    decreases |events|
  {
    if events != [] {
      var s1 := Step(s, events[0]);
      var rest := events[1..];
      assert s1.inputReportHandle == s.inputReportHandle && s1.input[1..] == s.input[1..]
        && s1.input[0] == (s.input[0] as int + (if events[0].Tick? then 1 else 0)) % 256;
      assert NoOutputWrites(events) ==> s1.output == s.output && NoOutputWrites(rest) by {
        if NoOutputWrites(events) {
          assert !(events[0].OutputReport? && events[0].access.Write?);
          assert forall i :: 0 <= i < |rest| ==> rest[i] == events[i + 1];
        }
      }
      RunInvariant(s1, n, rest);
      assert ((s.input[0] as int + (if events[0].Tick? then 1 else 0)) % 256 + TickCount(rest)) % 256
        == (s.input[0] as int + TickCount(events)) % 256;
    }
  }
}

/**
 The state of one open channel and what each handler of channels.c and nchan.c does to it
 (sections 5.1 to 5.3 of RFC 4254).  Class Channel holds the code that updates the fields.
 */
module ChannelSpec {
  import opened Words

  type Bytes = seq<byte>

  datatype InState = InOpen | InWaitDrain | InWaitOclose | InClosed

  datatype OutState = OutOpen | OutWaitDrain | OutWaitIeof | OutClosed

  datatype ExtUse = ExtIgnore | ExtRead | ExtWrite

  /** SSH2_MSG_CHANNEL_* messages addressed to the channel. */
  datatype Packet = Data(bytes: Bytes) | Extended(code: u32, bytes: Bytes) | Adjust(amount: u32) | Eof | Close

  const STDERR: u32 := 1

  datatype Chan = Chan(
    istate: InState, ostate: OutState,
    input: Bytes, output: Bytes, extended: Bytes, extUse: ExtUse, efdOpen: bool,
    remoteWindow: u32, remoteMaxPacket: u32,
    localWindow: u32, localWindowMax: u32, localConsumed: u32, localMaxPacket: u32,
    closeSent: bool, closeRcvd: bool, eofSent: bool, eofRcvd: bool)

  /** What a handler leaves behind and the packets it queued. */
  datatype Outcome = Sent(c: Chan, packets: seq<Packet>)

  /** A received packet is absorbed, ends the connection, or ends the process. */
  datatype Receipt = Absorbed(c: Chan, packets: seq<Packet>) | Disconnect | Fatal

  function Add32(a: u32, b: int): (r: u32)
    ensures 0 <= a + b < 0x1_0000_0000 ==> r == a + b
  {
    (a + b) % 0x1_0000_0000
  }

  // ----- sending

  predicate EfdInputActive(c: Chan) {
    c.extUse == ExtRead && (c.efdOpen || c.extended != [])
  }

  predicate EfdOutputActive(c: Chan) {
    c.extUse == ExtWrite && c.efdOpen && (!(c.eofRcvd || c.closeRcvd) || c.extended != [])
  }

  /** How much of a buffer one packet may carry. */
  function Quota(c: Chan, buffered: nat): (n: nat)
    ensures n <= buffered && n <= c.remoteWindow && n <= c.remoteMaxPacket
  {
    Min(Min(buffered, c.remoteWindow), c.remoteMaxPacket)
  }

  /** channel_output_poll_input_open */
  function PollInput(c: Chan): Outcome {
    if c.input == [] then
      if c.istate == InWaitDrain && !EfdInputActive(c) then IbufEmpty(c) else Sent(c, [])
    else
      var n := Quota(c, |c.input|);
      if n == 0 then Sent(c, [])
      else Sent(c.(input := c.input[n..], remoteWindow := Sub32(c.remoteWindow, n)), [Data(c.input[..n])])
  }

  /** chan_ibuf_empty with chan_send_eof2. */
  function IbufEmpty(c: Chan): Outcome
    requires c.istate == InWaitDrain
  {
    if c.closeSent then Sent(c.(istate := InClosed), [])
    else Sent(c.(istate := InClosed, eofSent := true), [Eof])
  }

  /** channel_output_poll_extended_read */
  function PollExtended(c: Chan): Outcome {
    var n := Quota(c, |c.extended|);
    if n == 0 then Sent(c, [])
    else Sent(c.(extended := c.extended[n..], remoteWindow := Sub32(c.remoteWindow, n)),
              [Extended(STDERR, c.extended[..n])])
  }

  /** channel_output_poll for one open channel. */
  function OutputPoll(c: Chan): Outcome {
    if c.closeSent || c.closeRcvd then Sent(c, [])
    else
      var first := if c.istate == InOpen || c.istate == InWaitDrain then PollInput(c) else Sent(c, []);
      if !first.c.eofSent && c.extUse == ExtRead then
        var second := PollExtended(first.c);
        Sent(second.c, first.packets + second.packets)
      else first
  }

  // ----- local descriptors

  /** A successful read of c->rfd. */
  function ReadBytes(c: Chan, bytes: Bytes): Chan {
    c.(input := c.input + bytes)
  }

  /** chan_read_failed */
  function ReadFailed(c: Chan): Chan {
    if c.istate == InOpen then c.(istate := InWaitDrain) else c
  }

  /** A successful read of c->efd. */
  function ReadExtended(c: Chan, bytes: Bytes): Chan {
    if c.extUse == ExtIgnore then c else c.(extended := c.extended + bytes)
  }

  function CloseEfd(c: Chan): Chan {
    c.(efdOpen := false)
  }

  /** A write of the first n bytes of c->output. */
  function WriteOutput(c: Chan, n: nat): Chan
    requires n <= |c.output|
  {
    c.(output := c.output[n..], localConsumed := Add32(c.localConsumed, n))
  }

  /** chan_write_failed: chan_shutdown_write resets c->output. */
  function WriteFailed(c: Chan): Chan {
    if c.ostate == OutOpen || c.ostate == OutWaitDrain then c.(output := [], ostate := OutClosed) else c
  }

  function WriteExtended(c: Chan, n: nat): Chan
    requires n <= |c.extended|
  {
    c.(extended := c.extended[n..], localConsumed := Add32(c.localConsumed, n))
  }

  /** channel_pre_open: close the output once it has drained. */
  function DrainOutput(c: Chan): Chan {
    if c.ostate == OutWaitDrain && c.output == [] && !EfdOutputActive(c) then c.(ostate := OutClosed) else c
  }

  /** The window is worth reopening: three packets used, or more than half of it. */
  predicate WindowLow(c: Chan) {
    Sub32(c.localWindowMax, c.localWindow) > c.localMaxPacket * 3 % 0x1_0000_0000 || c.localWindow < c.localWindowMax / 2
  }

  /** channel_check_window */
  function CheckWindow(c: Chan): Outcome {
    if !c.closeSent && !c.closeRcvd && WindowLow(c) && c.localConsumed > 0 then
      Sent(c.(localWindow := Add32(c.localWindow, c.localConsumed), localConsumed := 0), [Adjust(c.localConsumed)])
    else Sent(c, [])
  }

  /** channel_garbage_collect: chan_is_dead sends CLOSE when both halves are closed. */
  function SendClose(c: Chan): Outcome {
    if c.istate == InClosed && c.ostate == OutClosed && !c.closeSent then Sent(c.(closeSent := true), [Close])
    else Sent(c, [])
  }

  // ----- receiving

  /** channel_input_data */
  function InputData(c: Chan, bytes: Bytes): Chan {
    var n := |bytes|;
    if c.ostate != OutOpen then
      c.(localWindow := Sub32(c.localWindow, n), localConsumed := Add32(c.localConsumed, n))
    else if n > c.localMaxPacket || n > c.localWindow then c
    else c.(localWindow := c.localWindow - n, output := c.output + bytes)
  }

  predicate AcceptsExtended(c: Chan, code: u32, n: nat) {
    c.efdOpen && c.extUse == ExtWrite && code == STDERR && n <= c.localWindow
  }

  /** channel_input_extended_data */
  function InputExtended(c: Chan, code: u32, bytes: Bytes): Receipt {
    if c.eofRcvd then Disconnect
    else if !AcceptsExtended(c, code, |bytes|) then Absorbed(c, [])
    else Absorbed(c.(extended := c.extended + bytes, localWindow := c.localWindow - |bytes|), [])
  }

  /** channel_input_window_adjust: an amount that wraps the window is fatal. */
  function InputAdjust(c: Chan, amount: u32): Receipt {
    var grown := Add32(c.remoteWindow, amount);
    if grown < c.remoteWindow then Fatal else Absorbed(c.(remoteWindow := grown), [])
  }

  /** chan_rcvd_ieof */
  function InputEof(c: Chan): Chan {
    var d := c.(eofRcvd := true, ostate := if c.ostate == OutOpen then OutWaitDrain else c.ostate);
    DrainOutput(d)
  }

  /** chan_rcvd_oclose */
  function InputClose(c: Chan): Outcome {
    var d := c.(closeRcvd := true, ostate := if c.ostate == OutOpen then OutWaitDrain else c.ostate);
    var shut := if c.extUse == ExtWrite then d else d.(efdOpen := false);
    if c.istate == InOpen then Sent(shut.(istate := InClosed), [])
    else if c.istate == InWaitDrain then Sent(shut.(istate := InClosed, eofSent := true), [Eof])
    else Sent(d, [])
  }

  function Receive(c: Chan, p: Packet): Receipt {
    match p
    case Data(bytes) => Absorbed(InputData(c, bytes), [])
    case Extended(code, bytes) => InputExtended(c, code, bytes)
    case Adjust(amount) => InputAdjust(c, amount)
    case Eof => Absorbed(InputEof(c), [])
    case Close => var o := InputClose(c); Absorbed(o.c, o.packets)
  }
}

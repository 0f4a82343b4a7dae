/** The handlers of channels.c and nchan.c on the fields of struct Channel. */
module ChannelCode {
  import opened Words
  import opened ChannelSpec

  class Channel {
    var istate: InState
    var ostate: OutState
    var input: Bytes
    var output: Bytes
    var extended: Bytes
    var extUse: ExtUse
    var efdOpen: bool
    var remoteWindow: u32
    var remoteMaxPacket: u32
    var localWindow: u32
    var localWindowMax: u32
    var localConsumed: u32
    var localMaxPacket: u32
    var closeSent: bool
    var closeRcvd: bool
    var eofSent: bool
    var eofRcvd: bool

    function View(): Chan
      reads this
    {
      Chan(istate, ostate, input, output, extended, extUse, efdOpen, remoteWindow, remoteMaxPacket,
           localWindow, localWindowMax, localConsumed, localMaxPacket, closeSent, closeRcvd, eofSent, eofRcvd)
    }

    /** channel_new, followed by the open confirmation that records the peer's window and packet size. */
    constructor (window: u32, maxPack: u32, use: ExtUse, efd: bool, peerWindow: u32, peerMaxPacket: u32)
      ensures View() == Chan(InOpen, OutOpen, [], [], [], use, efd, peerWindow, peerMaxPacket,
                             window, window, 0, maxPack, false, false, false, false)
    {
      istate, ostate := InOpen, OutOpen;
      input, output, extended := [], [], [];
      extUse, efdOpen := use, efd;
      localWindow, localWindowMax, localMaxPacket, localConsumed := window, window, maxPack, 0;
      remoteWindow, remoteMaxPacket := peerWindow, peerMaxPacket;
      closeSent, closeRcvd, eofSent, eofRcvd := false, false, false, false;
    }

    /** len is what read returned: the bytes, or none on error or end of file. */
    method HandleRfd(buf: Bytes)
      modifies this
      ensures View() == if buf == [] then ReadFailed(old(View())) else ReadBytes(old(View()), buf)
    {
      if buf == [] {
        if istate == InOpen {
          istate := InWaitDrain;
        }
        return;
      }
      input := input + buf;
    }

    /** len is what write returned, 0 for a failure. */
    method HandleWfd(len: nat)
      requires len <= |output|
      modifies this
      ensures View() == if len == 0 then WriteFailed(old(View())) else WriteOutput(old(View()), len)
    {
      var olen := |output|;
      if len == 0 {
        if ostate == OutOpen || ostate == OutWaitDrain {
          output := [];
          ostate := OutClosed;
        }
        return;
      }
      output := output[len..];
      localConsumed := Add32(localConsumed, olen - |output|);
    }

    method HandleEfdWrite(len: nat)
      requires len <= |extended|
      modifies this
      ensures View() == if len == 0 then CloseEfd(old(View())) else WriteExtended(old(View()), len)
    {
      if len == 0 {
        efdOpen := false;
      } else {
        extended := extended[len..];
        localConsumed := Add32(localConsumed, len);
      }
    }

    method HandleEfdRead(buf: Bytes)
      modifies this
      ensures View() == if buf == [] then CloseEfd(old(View())) else ReadExtended(old(View()), buf)
    {
      if buf == [] {
        efdOpen := false;
      } else if extUse != ExtIgnore {
        extended := extended + buf;
      }
    }

    method HandleCheckWindow() returns (sent: seq<Packet>)
      modifies this
      ensures Sent(View(), sent) == CheckWindow(old(View()))
    {
      sent := [];
      if !(closeSent || closeRcvd)
         && (Sub32(localWindowMax, localWindow) > localMaxPacket * 3 % 0x1_0000_0000 || localWindow < localWindowMax / 2)
         && localConsumed > 0 {
        sent := [Adjust(localConsumed)];
        localWindow := Add32(localWindow, localConsumed);
        localConsumed := 0;
      }
    }

    method OutputPollInputOpen() returns (sent: seq<Packet>)
      modifies this
      ensures Sent(View(), sent) == PollInput(old(View()))
    {
      sent := [];
      var len: int := |input|;
      if len == 0 {
        if istate == InWaitDrain && !(extUse == ExtRead && (efdOpen || extended != [])) {
          if !closeSent {
            sent := [Eof];
            eofSent := true;
          }
          istate := InClosed;
        }
        return;
      }
      if len > remoteWindow {
        len := remoteWindow;
      }
      if len > remoteMaxPacket {
        len := remoteMaxPacket;
      }
      if len == 0 {
        return;
      }
      sent := [Data(input[..len])];
      input := input[len..];
      remoteWindow := Sub32(remoteWindow, len);
    }

    method OutputPollExtendedRead() returns (sent: seq<Packet>)
      modifies this
      ensures Sent(View(), sent) == PollExtended(old(View()))
    {
      sent := [];
      var len: int := |extended|;
      if len > remoteWindow {
        len := remoteWindow;
      }
      if len > remoteMaxPacket {
        len := remoteMaxPacket;
      }
      if len == 0 {
        return;
      }
      sent := [Extended(STDERR, extended[..len])];
      extended := extended[len..];
      remoteWindow := Sub32(remoteWindow, len);
    }

    method HandleOutputPoll() returns (sent: seq<Packet>)
      modifies this
      ensures Sent(View(), sent) == OutputPoll(old(View()))
    {
      hide PollExtended;
      sent := [];
      ghost var c := View();
      if closeSent || closeRcvd {
        return;
      }
      if istate == InOpen || istate == InWaitDrain {
        sent := OutputPollInputOpen();
      }
      ghost var first := if c.istate == InOpen || c.istate == InWaitDrain then PollInput(c) else Sent(c, []);
      assert Sent(View(), sent) == first;
      if !eofSent && extUse == ExtRead {
        var more := OutputPollExtendedRead();
        assert Sent(View(), more) == PollExtended(first.c);
        sent := sent + more;
      }
    }

    method HandleInputData(data: Bytes)
      modifies this
      ensures View() == InputData(old(View()), data)
    {
      var winLen := |data|;
      if ostate != OutOpen {
        localWindow := Sub32(localWindow, winLen);
        localConsumed := Add32(localConsumed, winLen);
        return;
      }
      if winLen > localMaxPacket || winLen > localWindow {
        return;
      }
      localWindow := localWindow - winLen;
      output := output + data;
    }

    method HandleInputExtendedData(code: u32, data: Bytes) returns (ok: bool)
      modifies this
      ensures InputExtended(old(View()), code, data) == if ok then Absorbed(View(), []) else Disconnect
    {
      if eofRcvd {
        return false;
      }
      if !efdOpen || extUse != ExtWrite || code != STDERR || |data| > localWindow {
        return true;
      }
      extended := extended + data;
      localWindow := localWindow - |data|;
      return true;
    }

    method HandleInputWindowAdjust(adjust: u32) returns (ok: bool)
      modifies this
      ensures InputAdjust(old(View()), adjust) == if ok then Absorbed(View(), []) else Fatal
    {
      var newRwin := Add32(remoteWindow, adjust);
      if newRwin < remoteWindow {
        return false;
      }
      remoteWindow := newRwin;
      return true;
    }

    method HandleDrain()
      modifies this
      ensures View() == DrainOutput(old(View()))
    {
      if ostate == OutWaitDrain && output == []
         && !(extUse == ExtWrite && efdOpen && (!(eofRcvd || closeRcvd) || extended != [])) {
        output := [];
        ostate := OutClosed;
      }
    }

    method HandleInputEof()
      modifies this
      ensures View() == InputEof(old(View()))
    {
      hide DrainOutput;
      eofRcvd := true;
      if ostate == OutOpen {
        ostate := OutWaitDrain;
      }
      HandleDrain();
    }

    method HandleInputClose() returns (sent: seq<Packet>)
      modifies this
      ensures Sent(View(), sent) == InputClose(old(View()))
    {
      sent := [];
      closeRcvd := true;
      if ostate == OutOpen {
        ostate := OutWaitDrain;
      }
      match istate
      case InOpen =>
        if extUse != ExtWrite {
          efdOpen := false;
        }
        istate := InClosed;
      case InWaitDrain =>
        sent := [Eof];
        eofSent := true;
        if extUse != ExtWrite {
          efdOpen := false;
        }
        istate := InClosed;
      case _ =>
    }

    method GarbageCollect() returns (sent: seq<Packet>)
      modifies this
      ensures Sent(View(), sent) == SendClose(old(View()))
    {
      sent := [];
      if istate != InClosed || ostate != OutClosed {
        return;
      }
      if !closeSent {
        sent := [Close];
        closeSent := true;
      }
    }
  }
}

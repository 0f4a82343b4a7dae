/**
 Two endpoints of one channel joined by a FIFO link in each direction.  Every run keeps the
 windows in balance, delivers bytes in order, and loses none unless a write fails.
 */
module FlowControl {
  import opened Words
  import opened ChannelSpec

  /**
   An endpoint and its history: bytes read from and written to its descriptors, bytes dropped on
   arrival, bytes thrown away with the output buffer, and whether a write has failed.
   */
  datatype End = End(c: Chan, read: Bytes, written: Bytes, readExt: Bytes, writtenExt: Bytes,
                     lost: nat, discarded: nat, failed: bool)

  datatype Net = Net(a: End, b: End, ab: seq<Packet>, ba: seq<Packet>)

  /** What can happen at an endpoint besides receiving a packet. */
  datatype Event =
    | ReadOk(bytes: Bytes) | ReadFail | ReadExtOk(bytes: Bytes) | ExtFail
    | Poll | WriteOk(n: nat) | WriteFail | WriteExtOk(n: nat) | Check | Drain | Collect

  predicate TakesExtended(c: Chan) {
    c.efdOpen && c.extUse == ExtWrite
  }

  /** channel_pre_open no longer selects the descriptor once both halves are closed. */
  predicate WritesExtended(c: Chan) {
    TakesExtended(c) && !(c.istate == InClosed && c.ostate == OutClosed)
  }

  predicate Enabled(e: End, ev: Event) {
    match ev
    case ReadOk(bytes) => e.c.istate == InOpen
    case ReadExtOk(bytes) => e.c.efdOpen && e.c.extUse != ExtWrite
    case WriteOk(n) => n <= |e.c.output| && (e.c.ostate == OutOpen || e.c.ostate == OutWaitDrain)
    case WriteFail => e.c.ostate == OutOpen || e.c.ostate == OutWaitDrain
    case WriteExtOk(n) => WritesExtended(e.c) && n <= |e.c.extended|
    case _ => true
  }

  datatype Moved = Moved(e: End, packets: seq<Packet>)

  function Local(e: End, ev: Event): Moved
    requires Enabled(e, ev)
  {
    match ev
    case ReadOk(bytes) => Moved(e.(c := ReadBytes(e.c, bytes), read := e.read + bytes), [])
    case ReadFail => Moved(e.(c := ReadFailed(e.c)), [])
    case ReadExtOk(bytes) =>
      Moved(e.(c := ReadExtended(e.c, bytes), readExt := if e.c.extUse == ExtRead then e.readExt + bytes else e.readExt), [])
    case ExtFail => Moved(e.(c := CloseEfd(e.c)), [])
    case Poll => Moved(e.(c := OutputPoll(e.c).c), OutputPoll(e.c).packets)
    case WriteOk(n) => Moved(e.(c := WriteOutput(e.c, n), written := e.written + e.c.output[..n]), [])
    case WriteFail => Moved(e.(c := WriteFailed(e.c), discarded := e.discarded + |e.c.output|, failed := true), [])
    case WriteExtOk(n) => Moved(e.(c := WriteExtended(e.c, n), writtenExt := e.writtenExt + e.c.extended[..n]), [])
    case Check => Moved(e.(c := CheckWindow(e.c).c), CheckWindow(e.c).packets)
    case Drain => Moved(e.(c := DrainOutput(e.c)), [])
    case Collect => Moved(e.(c := SendClose(e.c).c), SendClose(e.c).packets)
  }

  /** The bytes of p that the receiver throws away without giving window back. */
  function Dropped(c: Chan, p: Packet): nat {
    match p
    case Data(bytes) =>
      if c.ostate == OutOpen && (|bytes| > c.localMaxPacket || |bytes| > c.localWindow) then |bytes| else 0
    case Extended(code, bytes) => if AcceptsExtended(c, code, |bytes|) then 0 else |bytes|
    case _ => 0
  }

  function Take(e: End, p: Packet): Moved
    requires Receive(e.c, p).Absorbed?
  {
    var r := Receive(e.c, p);
    Moved(e.(c := r.c, lost := e.lost + Dropped(e.c, p)), r.packets)
  }

  // ----- runs

  predicate LocalStep(n: Net, n': Net, ev: Event) {
    Enabled(n.a, ev) && var m := Local(n.a, ev); n' == n.(a := m.e, ab := n.ab + m.packets)
  }

  predicate TakeStep(n: Net, n': Net) {
    n.ba != [] && Receive(n.a.c, n.ba[0]).Absorbed?
    && var m := Take(n.a, n.ba[0]); n' == n.(a := m.e, ba := n.ba[1..], ab := n.ab + m.packets)
  }

  function Swap(n: Net): Net {
    Net(n.b, n.a, n.ba, n.ab)
  }

  ghost predicate HalfStep(n: Net, n': Net) {
    TakeStep(n, n') || exists ev :: LocalStep(n, n', ev)
  }

  /** Either endpoint moves. */
  ghost predicate Step(n: Net, n': Net) {
    HalfStep(n, n') || HalfStep(Swap(n), Swap(n'))
  }

  predicate FreshEnd(e: End) {
    && e.c.istate == InOpen && e.c.ostate == OutOpen && e.c.input == [] && e.c.output == [] && e.c.extended == []
    && e.c.localWindow == e.c.localWindowMax && e.c.localConsumed == 0
    && !e.c.closeSent && !e.c.closeRcvd && !e.c.eofSent && !e.c.eofRcvd
    && e.read == [] && e.written == [] && e.readExt == [] && e.writtenExt == []
    && e.lost == 0 && e.discarded == 0 && !e.failed
  }

  /** Both sides have just opened: each has recorded the other's window and packet size. */
  predicate Initial(n: Net) {
    && FreshEnd(n.a) && FreshEnd(n.b) && n.ab == [] && n.ba == []
    && n.a.c.remoteWindow == n.b.c.localWindow && n.a.c.remoteMaxPacket == n.b.c.localMaxPacket
    && n.b.c.remoteWindow == n.a.c.localWindow && n.b.c.remoteMaxPacket == n.a.c.localMaxPacket
  }

  ghost predicate IsRun(run: seq<Net>) {
    run != [] && Initial(run[0]) && forall i :: 0 <= i < |run| - 1 ==> Step(run[i], run[i + 1])
  }

  // ----- what is in flight

  function Payload(ps: seq<Packet>): nat {
    if ps == [] then 0
    else (if ps[0].Data? || ps[0].Extended? then |ps[0].bytes| else 0) + Payload(ps[1..])
  }

  function Credit(ps: seq<Packet>): nat {
    if ps == [] then 0 else (if ps[0].Adjust? then ps[0].amount else 0) + Credit(ps[1..])
  }

  function DataIn(ps: seq<Packet>): Bytes {
    if ps == [] then [] else (if ps[0].Data? then ps[0].bytes else []) + DataIn(ps[1..])
  }

  function ExtendedIn(ps: seq<Packet>): Bytes {
    if ps == [] then [] else (if ps[0].Extended? then ps[0].bytes else []) + ExtendedIn(ps[1..])
  }

  lemma {:induction false} AppendSums(ps: seq<Packet>, qs: seq<Packet>)
    ensures Payload(ps + qs) == Payload(ps) + Payload(qs)
    ensures Credit(ps + qs) == Credit(ps) + Credit(qs)
  {
    if ps == [] {
      assert ps + qs == qs;
    } else {
      assert (ps + qs)[1..] == ps[1..] + qs && (ps + qs)[0] == ps[0];
      AppendSums(ps[1..], qs);
    }
  }

  lemma {:induction false} AppendDataIn(ps: seq<Packet>, qs: seq<Packet>)
    ensures DataIn(ps + qs) == DataIn(ps) + DataIn(qs)
  {
    if ps == [] {
      assert ps + qs == qs;
    } else {
      assert (ps + qs)[1..] == ps[1..] + qs && (ps + qs)[0] == ps[0];
      AppendDataIn(ps[1..], qs);
      var h: Bytes := if ps[0].Data? then ps[0].bytes else [];
      assert h + (DataIn(ps[1..]) + DataIn(qs)) == h + DataIn(ps[1..]) + DataIn(qs);
    }
  }

  lemma {:induction false} AppendExtendedIn(ps: seq<Packet>, qs: seq<Packet>)
    ensures ExtendedIn(ps + qs) == ExtendedIn(ps) + ExtendedIn(qs)
  {
    if ps == [] {
      assert ps + qs == qs;
    } else {
      assert (ps + qs)[1..] == ps[1..] + qs && (ps + qs)[0] == ps[0];
      AppendExtendedIn(ps[1..], qs);
      var h: Bytes := if ps[0].Extended? then ps[0].bytes else [];
      assert h + (ExtendedIn(ps[1..]) + ExtendedIn(qs)) == h + ExtendedIn(ps[1..]) + ExtendedIn(qs);
    }
  }

  lemma Append(ps: seq<Packet>, qs: seq<Packet>)
    ensures Payload(ps + qs) == Payload(ps) + Payload(qs)
    ensures Credit(ps + qs) == Credit(ps) + Credit(qs)
    ensures DataIn(ps + qs) == DataIn(ps) + DataIn(qs)
    ensures ExtendedIn(ps + qs) == ExtendedIn(ps) + ExtendedIn(qs)
  {
    AppendSums(ps, qs);
    AppendDataIn(ps, qs);
    AppendExtendedIn(ps, qs);
  }

  lemma Single(p: Packet)
    ensures Payload([p]) == if p.Data? || p.Extended? then |p.bytes| else 0
    ensures Credit([p]) == if p.Adjust? then p.amount else 0
    ensures DataIn([p]) == if p.Data? then p.bytes else []
    ensures ExtendedIn([p]) == if p.Extended? then p.bytes else []
    ensures Payload([]) == 0 && Credit([]) == 0 && DataIn([]) == [] && ExtendedIn([]) == []
  {
  }

  lemma Head(ps: seq<Packet>)
    requires ps != []
    ensures Payload(ps) == Payload([ps[0]]) + Payload(ps[1..])
    ensures Credit(ps) == Credit([ps[0]]) + Credit(ps[1..])
    ensures DataIn(ps) == DataIn([ps[0]]) + DataIn(ps[1..])
    ensures ExtendedIn(ps) == ExtendedIn([ps[0]]) + ExtendedIn(ps[1..])
  {
    assert ps == [ps[0]] + ps[1..];
    Append([ps[0]], ps[1..]);
  }

  // ----- the invariant, for the direction from x to y

  /** Bytes the sender may still send, bytes and window on their way, and dropped bytes make up the receiver's window. */
  predicate Balanced(x: End, y: End, xy: seq<Packet>, yx: seq<Packet>) {
    x.c.remoteWindow + Payload(xy) + Credit(yx) + y.lost == y.c.localWindow
  }

  function Unwritten(c: Chan): Bytes {
    if c.extUse == ExtWrite then c.extended else []
  }

  function Unsent(c: Chan): Bytes {
    if c.extUse == ExtRead then c.extended else []
  }

  /** Open window, bytes owed back and bytes still buffered make up the initial window. */
  predicate Accounted(y: End) {
    y.c.localWindow + y.c.localConsumed + |y.c.output| + |Unwritten(y.c)| + y.discarded == y.c.localWindowMax
  }

  predicate Fits(x: End, y: End, xy: seq<Packet>) {
    x.c.remoteMaxPacket == y.c.localMaxPacket
    && forall i :: 0 <= i < |xy| ==> (xy[i].Data? ==> |xy[i].bytes| <= y.c.localMaxPacket)
                                     && (xy[i].Extended? ==> xy[i].code == STDERR)
  }

  predicate InOrder(x: End, y: End, xy: seq<Packet>) {
    && (y.c.ostate == OutOpen ==> x.read == y.written + y.c.output + DataIn(xy) + x.c.input)
    && y.written + y.c.output <= x.read
    && (y.c.ostate == OutClosed ==> y.c.output == [])
  }

  predicate ExtendedInOrder(x: End, y: End, xy: seq<Packet>) {
    && (y.c.extUse == ExtWrite && y.c.efdOpen ==>
          x.readExt == y.writtenExt + y.c.extended + ExtendedIn(xy) + Unsent(x.c))
    && y.writtenExt + Unwritten(y.c) <= x.readExt
  }

  /** Nothing but window adjustments follows EOF, and nothing at all follows CLOSE. */
  predicate Tidy(xy: seq<Packet>) {
    forall i: nat, j: nat :: i < j < |xy| ==> TidyPair(xy, i, j)
  }

  predicate Quiet(xy: seq<Packet>) {
    forall i :: 0 <= i < |xy| ==> xy[i].Adjust? || xy[i].Close?
  }

  predicate Closing(x: End, y: End, xy: seq<Packet>) {
    && (x.c.closeSent ==> x.c.istate == InClosed && x.c.ostate == OutClosed)
    && (Close in xy || y.c.closeRcvd ==> x.c.closeSent)
    && (x.c.istate == InClosed ==> x.c.eofSent || x.c.closeRcvd)
    && (x.c.eofSent ==> x.c.istate == InClosed && (!x.c.closeRcvd ==> x.c.input == []))
    && (x.c.eofSent <==> y.c.eofRcvd || Eof in xy)
    && Tidy(xy)
    && (y.c.eofRcvd ==> Quiet(xy))
    && (y.c.closeRcvd ==> xy == [])
    && (y.c.ostate == OutOpen ==> !y.c.eofRcvd && !y.c.closeRcvd)
    && (!y.failed && y.c.ostate != OutOpen ==> y.written + y.c.output == x.read && x.c.istate == InClosed)
  }

  predicate Direction(x: End, y: End, xy: seq<Packet>, yx: seq<Packet>) {
    Balanced(x, y, xy, yx) && Accounted(y) && Fits(x, y, xy) && InOrder(x, y, xy) && ExtendedInOrder(x, y, xy)
    && Closing(x, y, xy)
  }

  predicate Inv(n: Net) {
    Direction(n.a, n.b, n.ab, n.ba) && Direction(n.b, n.a, n.ba, n.ab)
  }

  lemma InitialInv(n: Net)
    requires Initial(n)
    ensures Inv(n)
  {
  }

  // ----- one endpoint acting alone

  /** The packets a handler may queue, and what they leave in the buffers and the window. */
  predicate Conserves(c: Chan, d: Chan, sent: seq<Packet>) {
    && d.remoteWindow + Payload(sent) == c.remoteWindow
    && DataIn(sent) + d.input == c.input
    && ExtendedIn(sent) + Unsent(d) == Unsent(c)
    && d.localWindow == c.localWindow + Credit(sent) && d.localConsumed == c.localConsumed - Credit(sent)
    && (forall i :: 0 <= i < |sent| ==> (sent[i].Data? ==> |sent[i].bytes| <= c.remoteMaxPacket)
                                        && (sent[i].Extended? ==> sent[i].code == STDERR))
  }

  /** Fields no sending handler touches. */
  predicate SameReceiver(c: Chan, d: Chan) {
    && d.output == c.output && d.ostate == c.ostate && Unwritten(d) == Unwritten(c) && d.extUse == c.extUse
    && d.efdOpen == c.efdOpen && d.localWindowMax == c.localWindowMax && d.localMaxPacket == c.localMaxPacket
    && d.remoteMaxPacket == c.remoteMaxPacket && d.closeRcvd == c.closeRcvd && d.eofRcvd == c.eofRcvd
  }

  lemma SplitInput(b: Bytes, n: nat)
    requires n <= |b|
    ensures b[..n] + b[n..] == b
  {
  }

  lemma SendInputEffect(c: Chan, n: nat)
    requires n <= |c.input| && n <= c.remoteWindow && n <= c.remoteMaxPacket
    ensures var d := c.(input := c.input[n..], remoteWindow := Sub32(c.remoteWindow, n));
            Conserves(c, d, [Data(c.input[..n])]) && SameReceiver(c, d)
  {
    hide Payload, DataIn, ExtendedIn, Credit, Sub32;
    Single(Data(c.input[..n]));
    SplitInput(c.input, n);
  }

  lemma SendEofEffect(c: Chan)
    requires c.istate == InWaitDrain
    ensures var o := IbufEmpty(c); Conserves(c, o.c, o.packets) && SameReceiver(c, o.c)
  {
    hide Payload, DataIn, ExtendedIn, Credit;
    Single(Eof);
  }

  lemma PollInputEffect(c: Chan)
    requires c.istate == InOpen || c.istate == InWaitDrain
    ensures var o := PollInput(c);
            && Conserves(c, o.c, o.packets) && SameReceiver(c, o.c) && o.c.closeSent == c.closeSent
            && |o.packets| <= 1
  {
    hide Conserves, SameReceiver, Sub32;
    if c.input == [] && c.istate == InWaitDrain {
      SendEofEffect(c);
    }
    IdleEffect(c);
    SendInputEffect(c, Quota(c, |c.input|));
  }

  lemma SendExtendedEffect(c: Chan, n: nat)
    requires c.extUse == ExtRead && n <= |c.extended| && n <= c.remoteWindow
    ensures var d := c.(extended := c.extended[n..], remoteWindow := Sub32(c.remoteWindow, n));
            Conserves(c, d, [Extended(STDERR, c.extended[..n])]) && SameReceiver(c, d)
  {
    hide Payload, DataIn, ExtendedIn, Credit, Sub32;
    Single(Extended(STDERR, c.extended[..n]));
    SplitInput(c.extended, n);
  }

  lemma PollExtendedEffect(c: Chan)
    requires c.extUse == ExtRead
    ensures var o := PollExtended(c);
            && Conserves(c, o.c, o.packets) && SameReceiver(c, o.c) && o.c.closeSent == c.closeSent
            && o.c.istate == c.istate && o.c.eofSent == c.eofSent
            && |o.packets| <= 1 && (o.packets != [] ==> o.packets[0].Extended?)
  {
    hide Conserves, SameReceiver, Sub32;
    IdleEffect(c);
    SendExtendedEffect(c, Quota(c, |c.extended|));
  }

  lemma ConservesTwice(c: Chan, d: Chan, e: Chan, p: seq<Packet>, q: seq<Packet>)
    requires Conserves(c, d, p) && Conserves(d, e, q) && SameReceiver(c, d)
    ensures Conserves(c, e, p + q)
  {
    hide Payload, Credit, DataIn, ExtendedIn, Unsent;
    Append(p, q);
  }

  lemma IdleEffect(c: Chan)
    ensures Conserves(c, c, []) && SameReceiver(c, c)
  {
    Single(Eof);
  }

  lemma SameReceiverTwice(c: Chan, d: Chan, e: Chan)
    requires SameReceiver(c, d) && SameReceiver(d, e)
    ensures SameReceiver(c, e)
  {
  }

  /** The half of channel_output_poll that serves c->input. */
  function PollFirst(c: Chan): Outcome {
    if c.istate == InOpen || c.istate == InWaitDrain then PollInput(c) else Sent(c, [])
  }

  lemma PollFirstEffect(c: Chan)
    ensures var o := PollFirst(c);
            && Conserves(c, o.c, o.packets) && SameReceiver(c, o.c) && o.c.closeSent == c.closeSent
            && o.c.extUse == c.extUse
  {
    if c.istate == InOpen || c.istate == InWaitDrain {
      PollInputEffect(c);
    } else {
      IdleEffect(c);
    }
  }

  lemma PollEffect(c: Chan)
    ensures Conserves(c, OutputPoll(c).c, OutputPoll(c).packets) && SameReceiver(c, OutputPoll(c).c)
    ensures OutputPoll(c).c.closeSent == c.closeSent
  {
    hide Conserves, SameReceiver, PollInput, PollExtended;
    IdleEffect(c);
    PollFirstEffect(c);
    var d := PollFirst(c).c;
    if c.extUse == ExtRead {
      PollExtendedEffect(d);
      ConservesTwice(c, d, PollExtended(d).c, PollFirst(c).packets, PollExtended(d).packets);
      SameReceiverTwice(c, d, PollExtended(d).c);
    }
  }

  /** EOF comes last, once, with an empty and closed input; nothing follows it or CLOSE. */
  lemma PollOrder(c: Chan)
    requires c.eofSent ==> c.istate == InClosed
    ensures var o := OutputPoll(c);
            && (forall i :: 0 <= i < |o.packets| ==>
                  o.packets[i].Data? || o.packets[i].Extended? || (o.packets[i].Eof? && i == |o.packets| - 1))
            && (o.c.eofSent <==> c.eofSent || Eof in o.packets)
            && (Eof in o.packets ==> o.c.istate == InClosed && o.c.input == [])
            && (o.c.istate == InClosed ==> c.istate == InClosed || o.c.eofSent)
            && (c.istate == InClosed ==> o.c.istate == InClosed && o.c.input == c.input)
            && (c.eofSent || c.closeSent || c.closeRcvd ==> o.packets == [] && o.c == c)
  {
    var first := PollFirst(c);
    if Eof in first.packets {
      assert first.packets == [Eof];
    }
  }

  // ----- the sender's side of a direction

  /** What a move takes from the peer's window is exactly what it puts on the link. */
  predicate WindowSpent(x: End, m: Moved) {
    && m.e.c.remoteWindow + Payload(m.packets) == x.c.remoteWindow
    && m.e.c.remoteMaxPacket == x.c.remoteMaxPacket
    && forall i :: 0 <= i < |m.packets| ==> (m.packets[i].Data? ==> |m.packets[i].bytes| <= x.c.remoteMaxPacket)
                                            && (m.packets[i].Extended? ==> m.packets[i].code == STDERR)
  }

  lemma PollSpends(x: End)
    ensures WindowSpent(x, Local(x, Poll))
  {
    hide Payload, DataIn, ExtendedIn, Credit, OutputPoll;
    PollEffect(x.c);
  }

  lemma EventWindow(x: End, ev: Event)
    requires Enabled(x, ev)
    ensures WindowSpent(x, Local(x, ev))
  {
    hide Payload, DataIn, ExtendedIn, Credit, OutputPoll, CheckWindow, SendClose, Add32, Sub32, WindowSpent;
    match ev
    case Poll => PollSpends(x);
    case Check => CheckSpends(x);
    case Collect => CollectSpends(x);
    case _ => SilentSpends(x, Local(x, ev).e);
  }

  lemma CheckSpends(x: End)
    ensures WindowSpent(x, Local(x, Check))
  {
    hide Payload, Add32, Sub32, WindowLow;
    Single(Adjust(x.c.localConsumed));
  }

  lemma CollectSpends(x: End)
    ensures WindowSpent(x, Local(x, Collect))
  {
    hide Payload;
    Single(Close);
  }

  lemma SilentSpends(x: End, e: End)
    requires e.c.remoteWindow == x.c.remoteWindow && e.c.remoteMaxPacket == x.c.remoteMaxPacket
    ensures WindowSpent(x, Moved(e, []))
  {
    hide Payload;
    Single(Close);
  }

  lemma SenderWindow(x: End, y: End, xy: seq<Packet>, yx: seq<Packet>, ev: Event)
    requires Balanced(x, y, xy, yx) && Fits(x, y, xy) && Enabled(x, ev)
    ensures var m := Local(x, ev); Balanced(m.e, y, xy + m.packets, yx) && Fits(m.e, y, xy + m.packets)
  {
    hide Local, Payload, DataIn, ExtendedIn, Credit;
    EventWindow(x, ev);
    Append(xy, Local(x, ev).packets);
  }

  /** What an event adds to the bytes read from the two descriptors. */
  function NewlyRead(x: End, ev: Event): Bytes {
    if ev.ReadOk? then ev.bytes else []
  }

  function NewlyReadExt(x: End, ev: Event): Bytes {
    if ev.ReadExtOk? && x.c.extUse == ExtRead then ev.bytes else []
  }

  predicate StreamKept(x: End, m: Moved, more: Bytes, moreExt: Bytes) {
    && m.e.read == x.read + more && m.e.readExt == x.readExt + moreExt
    && DataIn(m.packets) + m.e.c.input == x.c.input + more
    && ExtendedIn(m.packets) + Unsent(m.e.c) == Unsent(x.c) + moreExt
  }

  lemma PollStream(x: End)
    ensures StreamKept(x, Local(x, Poll), [], [])
  {
    hide Payload, DataIn, ExtendedIn, Credit, OutputPoll;
    PollEffect(x.c);
  }

  lemma SilentStream(x: End, ev: Event)
    requires Enabled(x, ev) && !ev.Poll?
    ensures var m := Local(x, ev); DataIn(m.packets) == [] && ExtendedIn(m.packets) == []
  {
    Single(Close);
    Single(Adjust(x.c.localConsumed));
  }

  lemma EventStream(x: End, ev: Event)
    requires Enabled(x, ev)
    ensures StreamKept(x, Local(x, ev), NewlyRead(x, ev), NewlyReadExt(x, ev))
  {
    hide Payload, DataIn, ExtendedIn, Credit, OutputPoll;
    if ev.Poll? {
      PollStream(x);
    } else {
      SilentStream(x, ev);
    }
  }

  lemma SenderStream(x: End, y: End, xy: seq<Packet>, ev: Event)
    requires InOrder(x, y, xy) && ExtendedInOrder(x, y, xy) && Enabled(x, ev)
    ensures var m := Local(x, ev); InOrder(m.e, y, xy + m.packets) && ExtendedInOrder(m.e, y, xy + m.packets)
  {
    hide Local, Payload, DataIn, ExtendedIn, Credit, NewlyRead, NewlyReadExt, Unwritten, Unsent;
    EventStream(x, ev);
    var m := Local(x, ev);
    Append(xy, m.packets);
    Rejoin(y.written + y.c.output + DataIn(xy), DataIn(m.packets), m.e.c.input, x.c.input, NewlyRead(x, ev));
    Rejoin(y.writtenExt + y.c.extended + ExtendedIn(xy), ExtendedIn(m.packets), Unsent(m.e.c), Unsent(x.c), NewlyReadExt(x, ev));
  }

  lemma Rejoin(front: Bytes, sent: Bytes, left: Bytes, before: Bytes, more: Bytes)
    requires sent + left == before + more
    ensures front + sent + left == front + before + more
  {
    assert front + sent + left == front + (sent + left);
    assert front + before + more == front + (before + more);
  }

  // ----- the receiver's side of a direction

  /** A local event keeps the receiver's account and moves its window only by what it announces. */
  predicate WindowKept(y: End, m: Moved) {
    && Accounted(m.e) && m.e.c.localWindow == y.c.localWindow + Credit(m.packets)
    && m.e.lost == y.lost && m.e.c.localMaxPacket == y.c.localMaxPacket
  }

  lemma PollWindow(y: End)
    requires Accounted(y)
    ensures WindowKept(y, Local(y, Poll))
  {
    hide OutputPoll, Payload, DataIn, ExtendedIn, Credit;
    PollEffect(y.c);
  }

  lemma WriteAccount(y: End, ev: Event)
    requires Accounted(y) && Enabled(y, ev) && (ev.WriteOk? || ev.WriteExtOk? || ev.WriteFail?)
    ensures WindowKept(y, Local(y, ev))
  {
    hide Add32, Sub32;
  }

  lemma CheckAccount(y: End)
    requires Accounted(y)
    ensures WindowKept(y, Local(y, Check))
  {
    hide Add32, Sub32, WindowLow, Credit;
    Single(Adjust(y.c.localConsumed));
  }

  lemma EventAccount(y: End, ev: Event)
    requires Accounted(y) && Enabled(y, ev)
    ensures WindowKept(y, Local(y, ev))
  {
    hide OutputPoll, CheckWindow, SendClose, Payload, DataIn, ExtendedIn, Credit, Add32, Sub32, WindowKept, Accounted;
    match ev
    case Poll => PollWindow(y);
    case Check => CheckAccount(y);
    case Collect => CollectAccount(y);
    case WriteOk(n) => WriteAccount(y, ev);
    case WriteExtOk(n) => WriteAccount(y, ev);
    case WriteFail => WriteAccount(y, ev);
    case _ => SilentAccount(y, Local(y, ev).e);
  }

  lemma CollectAccount(y: End)
    requires Accounted(y)
    ensures WindowKept(y, Local(y, Collect))
  {
    hide Credit;
    Single(Close);
  }

  lemma SilentAccount(y: End, e: End)
    requires Accounted(y) && e.lost == y.lost && e.discarded == y.discarded
    requires e.c.output == y.c.output && Unwritten(e.c) == Unwritten(y.c)
    requires e.c.localWindow == y.c.localWindow && e.c.localConsumed == y.c.localConsumed
    requires e.c.localWindowMax == y.c.localWindowMax && e.c.localMaxPacket == y.c.localMaxPacket
    ensures WindowKept(y, Moved(e, []))
  {
    hide Credit;
    Single(Close);
  }

  lemma ReceiverLocal(x: End, y: End, xy: seq<Packet>, yx: seq<Packet>, ev: Event)
    requires Balanced(x, y, xy, yx) && Accounted(y) && Fits(x, y, xy) && Enabled(y, ev)
    ensures var m := Local(y, ev); Balanced(x, m.e, xy, yx + m.packets) && Accounted(m.e) && Fits(x, m.e, xy)
  {
    hide Payload, DataIn, ExtendedIn, Credit, Local, Accounted, Enabled;
    EventAccount(y, ev);
    Append(yx, Local(y, ev).packets);
  }

  lemma ReceiverStream(x: End, y: End, xy: seq<Packet>, ev: Event)
    requires InOrder(x, y, xy) && ExtendedInOrder(x, y, xy) && Enabled(y, ev)
    ensures var m := Local(y, ev); InOrder(x, m.e, xy) && ExtendedInOrder(x, m.e, xy)
  {
    hide Payload, DataIn, ExtendedIn, Credit, OutputPoll;
    if ev.Poll? {
      PollReceiver(y);
    } else if ev.WriteOk? {
      Shift(y.written, y.c.output, ev.n);
    } else if ev.WriteExtOk? {
      Shift(y.writtenExt, y.c.extended, ev.n);
    }
  }

  lemma PollReceiver(y: End)
    ensures var e := Local(y, Poll).e;
            && e.written == y.written && e.writtenExt == y.writtenExt && e.c.output == y.c.output && e.c.ostate == y.c.ostate
            && Unwritten(e.c) == Unwritten(y.c) && e.c.extUse == y.c.extUse && e.c.efdOpen == y.c.efdOpen
            && (y.c.extUse == ExtWrite ==> e.c.extended == y.c.extended)
  {
    hide OutputPoll;
    PollEffect(y.c);
  }

  lemma Shift(done: Bytes, buffer: Bytes, n: nat)
    requires n <= |buffer|
    ensures done + buffer[..n] + buffer[n..] == done + buffer
  {
  }

  // ----- EOF and CLOSE under local events

  /** What the closing clauses say about the sender alone. */
  predicate Coherent(c: Chan) {
    && (c.closeSent ==> c.istate == InClosed && c.ostate == OutClosed)
    && (c.istate == InClosed ==> c.eofSent || c.closeRcvd)
    && (c.eofSent ==> c.istate == InClosed && (!c.closeRcvd ==> c.input == []))
  }

  /** A move that keeps the sender coherent and its packets in order. */
  predicate OrderlyMove(x: End, m: Moved) {
    && Coherent(m.e.c)
    && (x.c.closeSent ==> m.packets == [] && m.e.c.closeSent)
    && (forall i :: 0 <= i < |m.packets| ==>
          (x.c.eofSent ==> m.packets[i].Adjust? || m.packets[i].Close?)
          && (m.packets[i].Close? ==> i == |m.packets| - 1 && m.e.c.closeSent)
          && (m.packets[i].Eof? ==> i == |m.packets| - 1))
    && (m.e.c.eofSent <==> x.c.eofSent || Eof in m.packets)
    && (x.c.istate == InClosed ==> m.e.c.istate == InClosed && m.e.read == x.read)
  }

  lemma PollMove(x: End)
    requires Coherent(x.c)
    ensures OrderlyMove(x, Local(x, Poll)) && Local(x, Poll).e.c.closeRcvd == x.c.closeRcvd
  {
    hide OutputPoll;
    PollOrder(x.c);
    PollEffect(x.c);
  }

  lemma EventOrder(x: End, ev: Event)
    requires Coherent(x.c) && Enabled(x, ev)
    ensures OrderlyMove(x, Local(x, ev)) && Local(x, ev).e.c.closeRcvd == x.c.closeRcvd
  {
    hide OutputPoll;
    if ev.Poll? {
      PollMove(x);
    }
  }

  /** Appending an orderly move to the link keeps every clause about the direction it feeds. */
  lemma SenderClosing(x: End, y: End, xy: seq<Packet>, m: Moved)
    requires Closing(x, y, xy) && OrderlyMove(x, m) && (x.c.closeRcvd ==> m.e.c.closeRcvd)
    ensures Closing(m.e, y, xy + m.packets)
  {
    var link := xy + m.packets;
    TidyAppend(xy, m.packets);
    assert Eof in link <==> Eof in xy || Eof in m.packets;
    assert Close in link <==> Close in xy || Close in m.packets;
  }

  predicate TidyPair(ps: seq<Packet>, i: nat, j: nat)
    requires i < j < |ps|
  {
    !ps[i].Close? && (ps[i].Eof? ==> ps[j].Adjust? || ps[j].Close?)
  }

  lemma Constants(p: Packet)
    ensures (p.Close? <==> p == Close) && (p.Eof? <==> p == Eof)
  {
  }

  lemma TidyAppend(xy: seq<Packet>, sent: seq<Packet>)
    requires Tidy(xy) && (Close in xy ==> sent == [])
    requires forall i :: 0 <= i < |sent| ==> (Eof in xy ==> sent[i].Adjust? || sent[i].Close?)
                                             && (sent[i].Close? || sent[i].Eof? ==> i == |sent| - 1)
    ensures Tidy(xy + sent)
  {
    var link := xy + sent;
    forall i: nat, j: nat | i < j < |link|
      ensures TidyPair(link, i, j)
    {
      if i < |xy| {
        assert xy[i] in xy;
        Constants(xy[i]);
        if |xy| <= j {
          assert link[j] == sent[j - |xy|];
        } else {
          assert TidyPair(xy, i, j);
          assert link[j] == xy[j] && link[i] == xy[i];
        }
      } else {
        assert link[i] == sent[i - |xy|];
      }
    }
  }

  lemma ReceiverClosing(x: End, y: End, xy: seq<Packet>, ev: Event)
    requires Closing(x, y, xy) && InOrder(x, y, xy) && Enabled(y, ev)
    ensures Closing(x, Local(y, ev).e, xy)
  {
    hide OutputPoll, Tidy, Quiet;
    if ev.Poll? {
      PollReceiver(y);
      PollEffect(y.c);
    } else if ev.WriteOk? {
      Shift(y.written, y.c.output, ev.n);
    }
  }

  lemma ClosingIsCoherent(x: End, y: End, xy: seq<Packet>)
    requires Closing(x, y, xy)
    ensures Coherent(x.c)
  {
  }

  lemma LocalKeepsInv(n: Net, n': Net, ev: Event)
    requires Inv(n) && LocalStep(n, n', ev)
    ensures Inv(n')
  {
    hide Local, Balanced, Accounted, Fits, InOrder, ExtendedInOrder, Closing;
    SenderWindow(n.a, n.b, n.ab, n.ba, ev);
    SenderStream(n.a, n.b, n.ab, ev);
    ClosingIsCoherent(n.a, n.b, n.ab);
    EventOrder(n.a, ev);
    SenderClosing(n.a, n.b, n.ab, Local(n.a, ev));
    ReceiverLocal(n.b, n.a, n.ba, n.ab, ev);
    ReceiverStream(n.b, n.a, n.ba, ev);
    ReceiverClosing(n.b, n.a, n.ba, ev);
  }

  // ----- receiving a packet

  /** A packet from the head of a link in a good state is absorbed, and no data is dropped. */
  lemma ReceiptIsSafe(x: End, y: End, xy: seq<Packet>, yx: seq<Packet>)
    requires Direction(x, y, xy, yx) && Direction(y, x, yx, xy) && xy != []
    ensures Receive(y.c, xy[0]).Absorbed?
    ensures xy[0].Data? ==> Dropped(y.c, xy[0]) == 0
    ensures xy[0].Data? || xy[0].Extended? ==> |xy[0].bytes| <= y.c.localWindow
  {
    Head(xy);
    Single(xy[0]);
    if xy[0].Adjust? {
      AdjustFits(x, y, xy, yx);
    }
  }

  /** An adjustment never wraps the window it enlarges. */
  lemma AdjustFits(x: End, y: End, xy: seq<Packet>, yx: seq<Packet>)
    requires Balanced(y, x, yx, xy) && xy != [] && xy[0].Adjust?
    ensures y.c.remoteWindow + xy[0].amount < 0x1_0000_0000
  {
    Head(xy);
    Single(xy[0]);
  }

  lemma TakenData(y: End, p: Packet)
    requires Accounted(y) && p.Data? && Dropped(y.c, p) == 0 && |p.bytes| <= y.c.localWindow
    ensures var m := Take(y, p);
            && Accounted(m.e) && m.e.c.localWindow + |p.bytes| == y.c.localWindow && m.e.lost == y.lost && m.packets == []
  {
    hide Add32, Sub32;
    if y.c.ostate != OutOpen {
      assert y.c.localConsumed + |p.bytes| <= y.c.localWindowMax;
    }
  }

  lemma TakenOther(y: End, p: Packet)
    requires Accounted(y) && Receive(y.c, p).Absorbed? && !p.Data? && (p.Extended? ==> |p.bytes| <= y.c.localWindow)
    ensures var m := Take(y, p);
            && Accounted(m.e) && (m.packets == [] || m.packets == [Eof])
            && m.e.c.localWindow + (if p.Extended? then |p.bytes| else 0) == y.c.localWindow + (m.e.lost - y.lost)
  {
  }

  lemma TakenWindow(y: End, p: Packet)
    requires Accounted(y) && Receive(y.c, p).Absorbed? && (p.Data? ==> Dropped(y.c, p) == 0)
    requires p.Data? || p.Extended? ==> |p.bytes| <= y.c.localWindow
    ensures var m := Take(y, p);
            && Accounted(m.e) && m.e.c.localWindow + Payload([p]) == y.c.localWindow + (m.e.lost - y.lost)
            && Credit(m.packets) == 0 && m.e.c.localMaxPacket == y.c.localMaxPacket
  {
    Single(p);
    Single(Eof);
    hide Accounted, Payload, Credit, Dropped;
    if p.Data? {
      TakenData(y, p);
    } else {
      TakenOther(y, p);
    }
  }

  lemma TakerWindow(x: End, y: End, xy: seq<Packet>, yx: seq<Packet>)
    requires Direction(x, y, xy, yx) && xy != []
    requires Receive(y.c, xy[0]).Absorbed? && (xy[0].Data? ==> Dropped(y.c, xy[0]) == 0)
    requires xy[0].Data? || xy[0].Extended? ==> |xy[0].bytes| <= y.c.localWindow
    ensures var m := Take(y, xy[0]);
            Balanced(x, m.e, xy[1..], yx + m.packets) && Accounted(m.e) && Fits(x, m.e, xy[1..])
  {
    hide Payload, Credit, DataIn, ExtendedIn, InOrder, ExtendedInOrder, Closing, Take, Receive, Dropped, Accounted;
    Head(xy);
    TakenWindow(y, xy[0]);
    Append(yx, Take(y, xy[0]).packets);
    assert forall i :: 0 <= i < |xy[1..]| ==> xy[1..][i] == xy[i + 1];
  }

  lemma TakenOutput(y: End, p: Packet)
    requires Receive(y.c, p).Absorbed? && (p.Data? ==> Dropped(y.c, p) == 0)
    ensures var e := Take(y, p).e;
            && e.written == y.written && e.read == y.read && e.failed == y.failed
            && e.c.output == (if y.c.ostate == OutOpen then y.c.output + DataIn([p]) else y.c.output)
            && (e.c.ostate == OutOpen ==> y.c.ostate == OutOpen && !p.Eof? && !p.Close?)
            && (e.c.ostate == OutClosed ==> y.c.ostate == OutClosed || e.c.output == [])
  {
    Single(p);
  }

  lemma TakenExtended(y: End, p: Packet)
    requires Receive(y.c, p).Absorbed? && (p.Extended? ==> |p.bytes| <= y.c.localWindow && p.code == STDERR)
    ensures var e := Take(y, p).e;
            && e.writtenExt == y.writtenExt && e.readExt == y.readExt && e.c.extUse == y.c.extUse
            && (e.c.efdOpen ==> y.c.efdOpen) && Unsent(e.c) == Unsent(y.c)
            && Unwritten(e.c) == (if y.c.extUse == ExtWrite && y.c.efdOpen then y.c.extended + ExtendedIn([p]) else Unwritten(y.c))
  {
    Single(p);
  }

  lemma TakerInOrder(x: End, y: End, xy: seq<Packet>)
    requires InOrder(x, y, xy) && xy != []
    requires Receive(y.c, xy[0]).Absorbed? && (xy[0].Data? ==> Dropped(y.c, xy[0]) == 0)
    ensures InOrder(x, Take(y, xy[0]).e, xy[1..])
  {
    hide Payload, Credit, DataIn, ExtendedIn, Take, Receive;
    Head(xy);
    TakenOutput(y, xy[0]);
    var d, rest := DataIn([xy[0]]), DataIn(xy[1..]) + x.c.input;
    Regather(y.written, y.c.output, d, rest);
    PrefixOf(y.written + (y.c.output + d), rest);
    assert y.written + y.c.output + (d + DataIn(xy[1..])) + x.c.input == y.written + y.c.output + (d + rest);
    assert y.written + (y.c.output + d) + DataIn(xy[1..]) + x.c.input == y.written + (y.c.output + d) + rest;
  }

  lemma TakerExtendedInOrder(x: End, y: End, xy: seq<Packet>)
    requires ExtendedInOrder(x, y, xy) && xy != [] && Receive(y.c, xy[0]).Absorbed?
    requires xy[0].Extended? ==> |xy[0].bytes| <= y.c.localWindow && xy[0].code == STDERR
    ensures ExtendedInOrder(x, Take(y, xy[0]).e, xy[1..])
  {
    hide Payload, Credit, DataIn, ExtendedIn, Take, Receive, Unsent;
    Head(xy);
    TakenExtended(y, xy[0]);
    var d, rest := ExtendedIn([xy[0]]), ExtendedIn(xy[1..]) + Unsent(x.c);
    Regather(y.writtenExt, y.c.extended, d, rest);
    PrefixOf(y.writtenExt + (y.c.extended + d), rest);
    assert y.writtenExt + y.c.extended + (d + ExtendedIn(xy[1..])) + Unsent(x.c) == y.writtenExt + y.c.extended + (d + rest);
    assert y.writtenExt + (y.c.extended + d) + ExtendedIn(xy[1..]) + Unsent(x.c) == y.writtenExt + (y.c.extended + d) + rest;
  }

  lemma Regather(a: Bytes, b: Bytes, c: Bytes, d: Bytes)
    ensures a + b + (c + d) == a + (b + c) + d
    ensures a + b + c == a + (b + c)
  {
  }

  lemma PrefixOf(a: Bytes, b: Bytes)
    ensures a <= a + b
  {
  }

  lemma {:induction false} QuietCarriesNoData(ps: seq<Packet>)
    requires Quiet(ps)
    ensures DataIn(ps) == [] && ExtendedIn(ps) == []
  {
    if ps != [] {
      assert ps[0].Adjust? || ps[0].Close?;
      assert forall i :: 0 <= i < |ps[1..]| ==> ps[1..][i] == ps[i + 1];
      QuietCarriesNoData(ps[1..]);
    }
  }

  lemma TidyTail(ps: seq<Packet>)
    requires Tidy(ps) && ps != []
    ensures Tidy(ps[1..])
    ensures ps[0].Eof? ==> Quiet(ps[1..])
    ensures ps[0].Close? ==> ps[1..] == []
    ensures Quiet(ps) ==> Quiet(ps[1..])
    ensures forall p :: p in ps <==> p == ps[0] || p in ps[1..]
  {
    var t := ps[1..];
    assert ps == [ps[0]] + t;
    forall i: nat, j: nat | i < j < |t|
      ensures TidyPair(t, i, j)
    {
      assert TidyPair(ps, i + 1, j + 1);
    }
    if |t| > 0 {
      assert TidyPair(ps, 0, 1);
    }
    forall j | 0 <= j < |t|
      ensures !ps[0].Close? && (ps[0].Eof? ==> t[j].Adjust? || t[j].Close?)
    {
      assert TidyPair(ps, 0, j + 1);
    }
    if Quiet(ps) {
      assert forall i :: 0 <= i < |t| ==> t[i] == ps[i + 1];
    }
  }

  /** EOF reaches an open output only after every byte its sender read. */
  lemma EofAfterEverything(x: End, y: End, xy: seq<Packet>, yx: seq<Packet>)
    requires Closing(x, y, xy) && Closing(y, x, yx) && InOrder(x, y, xy) && xy != [] && xy[0].Eof? && y.c.ostate == OutOpen
    ensures x.read == y.written + y.c.output && x.c.istate == InClosed
  {
    hide DataIn;
    Constants(xy[0]);
    assert xy[0] in xy;
    TidyTail(xy);
    QuietCarriesNoData(xy[1..]);
    Head(xy);
    Single(xy[0]);
  }

  /** CLOSE finds the output no longer open: its sender would first have sent EOF or received our CLOSE. */
  lemma CloseFindsOutputShut(x: End, y: End, xy: seq<Packet>, yx: seq<Packet>)
    requires Closing(x, y, xy) && Closing(y, x, yx) && xy != [] && xy[0].Close?
    ensures y.c.ostate != OutOpen
  {
    Constants(xy[0]);
    assert xy[0] in xy;
    TidyTail(xy);
    assert Eof !in xy;
  }

  lemma TakerClosing(x: End, y: End, xy: seq<Packet>, yx: seq<Packet>)
    requires Direction(x, y, xy, yx) && Direction(y, x, yx, xy) && xy != []
    requires Receive(y.c, xy[0]).Absorbed? && (xy[0].Data? ==> Dropped(y.c, xy[0]) == 0)
    ensures Closing(x, Take(y, xy[0]).e, xy[1..])
  {
    hide Payload, Credit, DataIn, ExtendedIn, Balanced, Accounted, Fits, ExtendedInOrder, Dropped;
    if xy[0].Eof? && y.c.ostate == OutOpen {
      EofAfterEverything(x, y, xy, yx);
    }
    if xy[0].Close? {
      CloseFindsOutputShut(x, y, xy, yx);
    }
    TakenOutput(y, xy[0]);
    TakenFlags(y, xy[0]);
    ClosingAfter(x, y, Take(y, xy[0]).e, xy);
  }

  lemma TakenFlags(y: End, p: Packet)
    requires Receive(y.c, p).Absorbed?
    ensures var e := Take(y, p).e;
            && (e.c.eofRcvd <==> y.c.eofRcvd || p.Eof?) && (e.c.closeRcvd <==> y.c.closeRcvd || p.Close?)
            && (y.c.ostate == OutOpen && !p.Eof? && !p.Close? ==> e.c.ostate == OutOpen)
  {
    hide Add32, Sub32, Dropped, AcceptsExtended, EfdOutputActive;
    match p
    case Data(bytes) =>
    case Extended(code, bytes) =>
    case Adjust(amount) =>
    case Eof =>
    case Close =>
  }

  lemma ClosingAfter(x: End, y: End, y': End, xy: seq<Packet>)
    requires Closing(x, y, xy) && xy != []
    requires y'.c.eofRcvd <==> y.c.eofRcvd || xy[0].Eof?
    requires y'.c.closeRcvd <==> y.c.closeRcvd || xy[0].Close?
    requires y'.c.ostate == OutOpen ==> !xy[0].Eof? && !xy[0].Close? && y.c.ostate == OutOpen
    requires y'.failed == y.failed && y'.written == y.written
    requires y'.c.ostate != OutOpen ==>
               y'.c.output == y.c.output && (y.c.ostate != OutOpen || (x.read == y.written + y.c.output && x.c.istate == InClosed))
    ensures Closing(x, y', xy[1..])
  {
    Constants(xy[0]);
    TidyTail(xy);
    hide Tidy, Quiet;
  }

  /** The taker is also the sender of the other direction. */
  lemma TakerAsSender(x: End, y: End, xy: seq<Packet>, yx: seq<Packet>)
    requires Direction(x, y, xy, yx) && Direction(y, x, yx, xy) && xy != [] && Receive(y.c, xy[0]).Absorbed?
    requires xy[0].Adjust? ==> y.c.remoteWindow + xy[0].amount < 0x1_0000_0000
    ensures var m := Take(y, xy[0]);
            Balanced(m.e, x, yx + m.packets, xy[1..]) && Fits(m.e, x, yx + m.packets)
            && InOrder(m.e, x, yx + m.packets) && ExtendedInOrder(m.e, x, yx + m.packets) && Closing(m.e, x, yx + m.packets)
  {
    hide Payload, Credit, DataIn, ExtendedIn, Take, Closing, InOrder, ExtendedInOrder, Accounted, Receive, Dropped;
    var m := Take(y, xy[0]);
    Head(xy);
    TakenAsSender(y, xy[0]);
    Append(yx, m.packets);
    ClosingIsCoherent(y, x, yx);
    TakenMove(y, xy[0]);
    SenderClosing(y, x, yx, m);
    TakenStreams(y, x, yx, m);
  }

  predicate SilentMove(y: End, m: Moved) {
    && DataIn(m.packets) == [] && ExtendedIn(m.packets) == [] && Payload(m.packets) == 0 && Credit(m.packets) == 0
    && m.e.read == y.read && m.e.readExt == y.readExt && m.e.c.input == y.c.input && Unsent(m.e.c) == Unsent(y.c)
    && forall i :: 0 <= i < |m.packets| ==> !m.packets[i].Data? && !m.packets[i].Extended?
  }

  lemma TakenAsSender(y: End, p: Packet)
    requires Receive(y.c, p).Absorbed? && (p.Adjust? ==> y.c.remoteWindow + p.amount < 0x1_0000_0000)
    ensures var m := Take(y, p);
            SilentMove(y, m) && m.e.c.remoteWindow == y.c.remoteWindow + Credit([p])
            && m.e.c.remoteMaxPacket == y.c.remoteMaxPacket
  {
    hide Payload, Credit, DataIn, ExtendedIn, Add32, Sub32, Dropped;
    Single(p);
    Single(Eof);
  }

  lemma TakenStreams(y: End, x: End, yx: seq<Packet>, m: Moved)
    requires InOrder(y, x, yx) && ExtendedInOrder(y, x, yx) && SilentMove(y, m)
    ensures InOrder(m.e, x, yx + m.packets) && ExtendedInOrder(m.e, x, yx + m.packets)
  {
    hide DataIn, ExtendedIn, Payload, Credit;
    Append(yx, m.packets);
    assert DataIn(yx) + [] == DataIn(yx) && ExtendedIn(yx) + [] == ExtendedIn(yx);
  }

  lemma TakenMove(y: End, p: Packet)
    requires Coherent(y.c) && Receive(y.c, p).Absorbed?
    ensures OrderlyMove(y, Take(y, p)) && (y.c.closeRcvd ==> Take(y, p).e.c.closeRcvd)
  {
  }

  lemma HeadIsStderr(x: End, y: End, xy: seq<Packet>)
    requires Fits(x, y, xy) && xy != [] && xy[0].Extended?
    ensures xy[0].code == STDERR
  {
  }

  lemma TakeKeepsInv(n: Net, n': Net)
    requires Inv(n) && TakeStep(n, n')
    ensures Inv(n')
  {
    hide Take, Receive, Balanced, Accounted, Fits, InOrder, ExtendedInOrder, Closing, Dropped;
    ReceiptIsSafe(n.b, n.a, n.ba, n.ab);
    if n.ba[0].Extended? {
      HeadIsStderr(n.b, n.a, n.ba);
    }
    TakerWindow(n.b, n.a, n.ba, n.ab);
    TakerInOrder(n.b, n.a, n.ba);
    TakerExtendedInOrder(n.b, n.a, n.ba);
    TakerClosing(n.b, n.a, n.ba, n.ab);
    if n.ba[0].Adjust? {
      AdjustFits(n.b, n.a, n.ba, n.ab);
    }
    TakerAsSender(n.b, n.a, n.ba, n.ab);
  }

  lemma SwapKeepsInv(n: Net)
    ensures Inv(Swap(n)) <==> Inv(n)
    ensures Swap(Swap(n)) == n
  {
  }

  lemma HalfStepKeepsInv(n: Net, n': Net)
    requires Inv(n) && HalfStep(n, n')
    ensures Inv(n')
  {
    hide Inv, LocalStep, TakeStep;
    if TakeStep(n, n') {
      TakeKeepsInv(n, n');
    } else {
      var ev :| LocalStep(n, n', ev);
      LocalKeepsInv(n, n', ev);
    }
  }

  lemma StepKeepsInv(n: Net, n': Net)
    requires Inv(n) && Step(n, n')
    ensures Inv(n')
  {
    hide Inv, HalfStep, Swap;
    SwapKeepsInv(n);
    SwapKeepsInv(n');
    if HalfStep(n, n') {
      HalfStepKeepsInv(n, n');
    } else {
      HalfStepKeepsInv(Swap(n), Swap(n'));
    }
  }

  // ----- main results, for every state of every run

  lemma {:induction false} RunKeepsInv(run: seq<Net>, k: nat)
    requires IsRun(run) && k < |run|
    ensures Inv(run[k])
  {
    hide Inv, Initial, Step;
    if k == 0 {
      InitialInv(run[0]);
    } else {
      RunKeepsInv(run, k - 1);
      assert Step(run[k - 1], run[k - 1 + 1]);
      StepKeepsInv(run[k - 1], run[k]);
    }
  }

  /**
   Window conservation in every reachable state: what the sender may still send, what is in
   flight and what was dropped add up to the receiver's window, which with the bytes it still
   owes back, buffers or has discarded adds up to the window it opened with.
   */
  lemma WindowConservation(run: seq<Net>, k: nat)
    requires IsRun(run) && k < |run|
    ensures var n := run[k];
            && n.a.c.remoteWindow + Payload(n.ab) + Credit(n.ba) + n.b.lost == n.b.c.localWindow
            && n.b.c.remoteWindow + Payload(n.ba) + Credit(n.ab) + n.a.lost == n.a.c.localWindow
            && Accounted(n.a) && Accounted(n.b)
  {
    hide Payload, Credit;
    RunKeepsInv(run, k);
  }

  /** Whatever packet is next, it is absorbed: no disconnect, no window overflow, and no data is dropped. */
  lemma NothingIsRefused(run: seq<Net>, k: nat)
    requires IsRun(run) && k < |run| && run[k].ba != []
    ensures var n := run[k]; Receive(n.a.c, n.ba[0]).Absorbed? && (n.ba[0].Data? ==> Dropped(n.a.c, n.ba[0]) == 0)
  {
    hide Direction, Receive, Dropped;
    RunKeepsInv(run, k);
    ReceiptIsSafe(run[k].b, run[k].a, run[k].ba, run[k].ab);
  }

  /**
   Stream integrity: while b's output is open, a's bytes are split in order between what b wrote,
   b's buffer, the link and a's buffer; and in any state what b wrote is a prefix of what a read.
   */
  lemma StreamIntegrity(run: seq<Net>, k: nat)
    requires IsRun(run) && k < |run|
    ensures var n := run[k];
            && (n.b.c.ostate == OutOpen ==> n.a.read == n.b.written + n.b.c.output + DataIn(n.ab) + n.a.c.input)
            && n.b.written <= n.a.read && n.b.writtenExt <= n.a.readExt
            && (n.b.c.extUse == ExtWrite && n.b.c.efdOpen ==>
                  n.a.readExt == n.b.writtenExt + n.b.c.extended + ExtendedIn(n.ab) + Unsent(n.a.c))
  {
    hide DataIn, ExtendedIn, Balanced, Accounted, Fits, Closing, Unsent;
    RunKeepsInv(run, k);
    PrefixOf(run[k].b.written, run[k].b.c.output);
    PrefixOf(run[k].b.writtenExt, Unwritten(run[k].b.c));
  }

  /** An output that closed without a failed write has written every byte its peer read. */
  lemma CloseLosesNothing(run: seq<Net>, k: nat)
    requires IsRun(run) && k < |run| && run[k].b.c.ostate == OutClosed && !run[k].b.failed
    ensures run[k].b.written == run[k].a.read && run[k].a.c.istate == InClosed
  {
    hide Balanced, Accounted, Fits, ExtendedInOrder;
    RunKeepsInv(run, k);
    assert run[k].b.written + [] == run[k].b.written;
  }

  // ----- the other direction

  function Mirrored(run: seq<Net>): (m: seq<Net>)
    ensures |m| == |run| && forall i :: 0 <= i < |run| ==> m[i] == Swap(run[i])
  {
    seq(|run|, i requires 0 <= i < |run| => Swap(run[i]))
  }

  /** A run with its endpoints exchanged is a run, so every result holds for both directions. */
  lemma MirroredIsRun(run: seq<Net>)
    requires IsRun(run)
    ensures IsRun(Mirrored(run))
  {
    hide HalfStep;
    var m := Mirrored(run);
    forall i | 0 <= i < |m| - 1
      ensures Step(m[i], m[i + 1])
    {
      assert Step(run[i], run[i + 1]);
      SwapKeepsInv(run[i]);
      SwapKeepsInv(run[i + 1]);
    }
  }
}

/**
 When the window one endpoint may send into sticks at zero.  Bytes dropped on arrival, thrown away
 with the output buffer or stranded behind a closed descriptor never come back to the sender, and
 a window that is not low is not enlarged; a run that avoids these never sticks.
 */
module WindowStall {
  import opened Words
  import opened ChannelSpec
  import opened FlowControl

  ghost predicate Continues(run: seq<Net>, n: Net) {
    run != [] && run[0] == n && forall i :: 0 <= i < |run| - 1 ==> Step(run[i], run[i + 1])
  }

  /** However n goes on, a may never send another byte. */
  ghost predicate Stuck(n: Net) {
    forall run: seq<Net> :: Continues(run, n) ==> run[|run| - 1].a.c.remoteWindow == 0
  }

  predicate Writable(c: Chan) {
    c.output != [] && (c.ostate == OutOpen || c.ostate == OutWaitDrain)
  }

  /** The payload of ps that an endpoint will keep, and that it will drop. */
  function Arriving(c: Chan, ps: seq<Packet>): nat {
    |DataIn(ps)| + if TakesExtended(c) then |ExtendedIn(ps)| else 0
  }

  function Doomed(c: Chan, ps: seq<Packet>): nat {
    if TakesExtended(c) then 0 else |ExtendedIn(ps)|
  }

  /** The window would be worth reopening if w of it were left. */
  predicate LowAt(c: Chan, w: int) {
    c.localWindowMax - w > c.localMaxPacket * 3 % 0x1_0000_0000 || w < c.localWindowMax / 2
  }

  predicate HoldsSomething(c: Chan) {
    c.localConsumed > 0 || Writable(c) || (WritesExtended(c) && c.extended != [])
  }

  /**
   Once what is on its way has arrived, an endpoint that is not closing finds its window low, and
   owes something or can write something.
   */
  predicate CanGiveBack(c: Chan, ps: seq<Packet>) {
    && !c.closeSent && !c.closeRcvd && LowAt(c, c.localWindow - Arriving(c, ps))
    && (HoldsSomething(c) || DataIn(ps) != [] || (WritesExtended(c) && ExtendedIn(ps) != []))
  }

  predicate Stalled(n: Net) {
    n.a.c.remoteWindow == 0 && Credit(n.ba) == 0 && !CanGiveBack(n.b.c, n.ab)
  }

  // ----- what arrives

  lemma {:induction false} PayloadIs(ps: seq<Packet>)
    ensures Payload(ps) == |DataIn(ps)| + |ExtendedIn(ps)|
  {
    if ps != [] {
      PayloadIs(ps[1..]);
    }
  }

  lemma WindowLowIs(c: Chan)
    requires c.localWindow <= c.localWindowMax
    ensures WindowLow(c) <==> LowAt(c, c.localWindow)
  {
  }

  /** A quiet addition to the link changes nothing for the receiver. */
  lemma SameArrivals(c: Chan, ps: seq<Packet>, more: seq<Packet>)
    requires Payload(more) == 0
    ensures CanGiveBack(c, ps + more) <==> CanGiveBack(c, ps)
  {
    hide Payload, DataIn, ExtendedIn, Credit, LowAt, HoldsSomething, WritesExtended, TakesExtended;
    Append(ps, more);
    PayloadIs(more);
    assert DataIn(ps) + [] == DataIn(ps) && ExtendedIn(ps) + [] == ExtendedIn(ps);
  }

  // ----- a stalled state stays stalled

  lemma SenderStays(n: Net, n': Net, ev: Event)
    requires Inv(n) && Stalled(n) && LocalStep(n, n', ev)
    ensures Stalled(n')
  {
    hide Payload, Credit, Local, Enabled, CanGiveBack, Direction;
    EventWindow(n.a, ev);
    SameArrivals(n.b.c, n.ab, Local(n.a, ev).packets);
  }

  lemma SenderTakes(n: Net, n': Net)
    requires Inv(n) && Stalled(n) && TakeStep(n, n')
    ensures Stalled(n')
  {
    hide Payload, Credit, CanGiveBack, Take, Receive, Direction;
    Head(n.ba);
    Single(n.ba[0]);
    TakenAsSender(n.a, n.ba[0]);
    SameArrivals(n.b.c, n.ab, Take(n.a, n.ba[0]).packets);
  }

  /** d can give back no more than c: it is no less closed, and holds something only if c does. */
  predicate NoBetter(c: Chan, d: Chan) {
    && (c.closeSent ==> d.closeSent) && (c.closeRcvd ==> d.closeRcvd)
    && d.localWindow == c.localWindow && d.localWindowMax == c.localWindowMax && d.localMaxPacket == c.localMaxPacket
    && (TakesExtended(d) ==> TakesExtended(c)) && (WritesExtended(d) ==> WritesExtended(c))
    && (HoldsSomething(d) ==> HoldsSomething(c))
  }

  lemma NoBetterGives(c: Chan, d: Chan, ps: seq<Packet>)
    requires NoBetter(c, d) && !CanGiveBack(c, ps)
    ensures !CanGiveBack(d, ps)
  {
    hide DataIn, ExtendedIn, TakesExtended, WritesExtended, HoldsSomething;
  }

  lemma EventNoBetter(y: End, ev: Event)
    requires Accounted(y) && Enabled(y, ev) && !ev.Check? && Coherent(y.c)
    ensures NoBetter(y.c, Local(y, ev).e.c) && Credit(Local(y, ev).packets) == 0
  {
    hide OutputPoll, Payload, DataIn, ExtendedIn, Credit, Sub32;
    Single(Close);
    match ev
    case Poll => PollNoBetter(y.c);
    case _ =>
  }

  lemma PollNoBetter(c: Chan)
    requires Coherent(c)
    ensures NoBetter(c, OutputPoll(c).c) && Credit(OutputPoll(c).packets) == 0
  {
    PollEffect(c);
    PollOrder(c);
    PollCredit(c);
    hide OutputPoll, Payload, DataIn, ExtendedIn, Credit, Sub32;
  }

  lemma PollCredit(c: Chan)
    ensures Credit(OutputPoll(c).packets) == 0 && OutputPoll(c).c.localConsumed == c.localConsumed
  {
    hide Payload, DataIn, ExtendedIn, Credit, Sub32;
    PollEffect(c);
  }

  /** An endpoint that cannot give back does not announce anything either. */
  lemma CheckIsSilent(y: End, ps: seq<Packet>)
    requires Accounted(y) && !CanGiveBack(y.c, ps) && Arriving(y.c, ps) <= y.c.localWindow
    ensures Local(y, Check) == Moved(y, [])
  {
    hide DataIn, ExtendedIn, Add32, Sub32, WindowLow;
    WindowLowIs(y.c);
  }

  lemma ReceiverStays(n: Net, n': Net, ev: Event)
    requires Inv(n) && Stalled(n) && LocalStep(Swap(n), Swap(n'), ev)
    ensures Stalled(n')
  {
    hide Payload, Credit, Local, Enabled, CanGiveBack, Arriving, InOrder, ExtendedInOrder, Fits, Closing, Accounted;
    ArrivingFits(n);
    if ev.Check? {
      CheckIsSilent(n.b, n.ab);
      assert n.ba + [] == n.ba;
    } else {
      ClosingIsCoherent(n.b, n.a, n.ba);
      EventNoBetter(n.b, ev);
      NoBetterGives(n.b.c, Local(n.b, ev).e.c, n.ab);
    }
    Append(n.ba, Local(n.b, ev).packets);
  }

  lemma ArrivingFits(n: Net)
    requires Inv(n)
    ensures Arriving(n.b.c, n.ab) <= n.b.c.localWindow <= n.b.c.localWindowMax
    ensures Arriving(n.b.c, n.ab) + Doomed(n.b.c, n.ab) == Payload(n.ab)
  {
    hide Payload, Credit, DataIn, ExtendedIn, InOrder, ExtendedInOrder, Fits, Closing;
    PayloadIs(n.ab);
  }

  /** What the packet at the head of the link changes, apart from EOF and CLOSE, it was counted on to change. */
  lemma ArrivalCounted(y: End, p: Packet, rest: seq<Packet>)
    requires Accounted(y) && Receive(y.c, p).Absorbed? && (p.Data? ==> Dropped(y.c, p) == 0)
    requires p.Data? || p.Extended? ==> |p.bytes| <= y.c.localWindow
    requires p.Extended? ==> p.code == STDERR
    ensures var d := Take(y, p).e.c;
            && (!p.Eof? && !p.Close? ==> (CanGiveBack(d, rest) <==> CanGiveBack(y.c, [p] + rest)))
            && (CanGiveBack(d, rest) ==> CanGiveBack(y.c, [p] + rest))
  {
    hide Payload, Credit, DataIn, ExtendedIn, CanGiveBack, Receive, Take, Dropped, Accounted;
    Append([p], rest);
    Single(p);
    match p
    case Data(bytes) => DataCounted(y, bytes, rest);
    case Extended(code, bytes) => ExtendedCounted(y, bytes, rest);
    case _ => OtherCounted(y, p, rest);
  }

  lemma DataCounted(y: End, bytes: Bytes, rest: seq<Packet>)
    requires Accounted(y) && Dropped(y.c, Data(bytes)) == 0 && |bytes| <= y.c.localWindow
    requires DataIn([Data(bytes)] + rest) == bytes + DataIn(rest) && ExtendedIn([Data(bytes)] + rest) == [] + ExtendedIn(rest)
    ensures CanGiveBack(Take(y, Data(bytes)).e.c, rest) <==> CanGiveBack(y.c, [Data(bytes)] + rest)
  {
    hide DataIn, ExtendedIn, LowAt, Take, Accounted, Dropped;
    assert [] + ExtendedIn(rest) == ExtendedIn(rest);
    var d := Take(y, Data(bytes)).e.c;
    DataTaken(y, bytes);
    SameLow(y.c, d, y.c.localWindow - Arriving(y.c, [Data(bytes)] + rest));
  }

  lemma DataTaken(y: End, bytes: Bytes)
    requires Accounted(y) && Dropped(y.c, Data(bytes)) == 0 && |bytes| <= y.c.localWindow
    ensures var c, d := y.c, Take(y, Data(bytes)).e.c;
            && d == c.(localWindow := d.localWindow, localConsumed := d.localConsumed, output := d.output)
            && d.localWindow == c.localWindow - |bytes|
            && (HoldsSomething(d) <==> HoldsSomething(c) || bytes != [])
  {
    hide Add32, Sub32, HoldsSomething;
    if y.c.ostate == OutOpen {
      Appended(y.c, bytes);
    } else {
      Credited(y.c, |bytes|);
    }
  }

  lemma Appended(c: Chan, bytes: Bytes)
    requires c.ostate == OutOpen && |bytes| <= c.localWindow
    ensures var d := c.(localWindow := c.localWindow - |bytes|, output := c.output + bytes);
            HoldsSomething(d) <==> HoldsSomething(c) || bytes != []
  {
    assert bytes == [] ==> c.output + bytes == c.output;
  }

  lemma Credited(c: Chan, n: nat)
    requires n <= c.localWindow && c.localConsumed + n < 0x1_0000_0000
    ensures var d := c.(localWindow := Sub32(c.localWindow, n), localConsumed := Add32(c.localConsumed, n));
            d.localWindow == c.localWindow - n && (HoldsSomething(d) <==> HoldsSomething(c) || n > 0)
  {
    hide Add32, Sub32;
  }

  lemma SameLow(c: Chan, d: Chan, w: int)
    requires d.localWindowMax == c.localWindowMax && d.localMaxPacket == c.localMaxPacket
    ensures LowAt(c, w) <==> LowAt(d, w)
  {
  }

  lemma ExtendedCounted(y: End, bytes: Bytes, rest: seq<Packet>)
    requires Receive(y.c, Extended(STDERR, bytes)).Absorbed? && |bytes| <= y.c.localWindow
    requires DataIn([Extended(STDERR, bytes)] + rest) == [] + DataIn(rest)
    requires ExtendedIn([Extended(STDERR, bytes)] + rest) == bytes + ExtendedIn(rest)
    ensures CanGiveBack(Take(y, Extended(STDERR, bytes)).e.c, rest) <==> CanGiveBack(y.c, [Extended(STDERR, bytes)] + rest)
  {
    hide DataIn, ExtendedIn, Add32, Sub32, LowAt;
    assert [] + DataIn(rest) == DataIn(rest);
    var d := Take(y, Extended(STDERR, bytes)).e.c;
    if bytes == [] {
      assert y.c.extended + bytes == y.c.extended && bytes + ExtendedIn(rest) == ExtendedIn(rest);
    }
    SameLow(y.c, d, y.c.localWindow - Arriving(y.c, [Extended(STDERR, bytes)] + rest));
  }

  lemma OtherCounted(y: End, p: Packet, rest: seq<Packet>)
    requires p.Adjust? || p.Eof? || p.Close?
    requires Receive(y.c, p).Absorbed?
    requires DataIn([p] + rest) == [] + DataIn(rest) && ExtendedIn([p] + rest) == [] + ExtendedIn(rest)
    ensures var d := Take(y, p).e.c;
            && (p.Adjust? ==> (CanGiveBack(d, rest) <==> CanGiveBack(y.c, [p] + rest)))
            && (CanGiveBack(d, rest) ==> CanGiveBack(y.c, [p] + rest))
  {
    hide DataIn, ExtendedIn, Add32, LowAt;
    assert [] + DataIn(rest) == DataIn(rest) && [] + ExtendedIn(rest) == ExtendedIn(rest);
    var d := Take(y, p).e.c;
    SameLow(y.c, d, y.c.localWindow - Arriving(y.c, rest));
    SameLow(y.c, d, y.c.localWindow - Arriving(d, rest));
  }

  lemma HeadCounted(n: Net)
    requires Inv(n) && n.ab != [] && Receive(n.b.c, n.ab[0]).Absorbed?
    ensures var d := Take(n.b, n.ab[0]).e.c;
            && (!n.ab[0].Eof? && !n.ab[0].Close? ==> (CanGiveBack(d, n.ab[1..]) <==> CanGiveBack(n.b.c, n.ab)))
            && (CanGiveBack(d, n.ab[1..]) ==> CanGiveBack(n.b.c, n.ab))
  {
    hide Payload, Credit, CanGiveBack, Take, Receive, Dropped, Balanced, Accounted, InOrder, ExtendedInOrder, Closing;
    ReceiptIsSafe(n.a, n.b, n.ab, n.ba);
    assert [n.ab[0]] + n.ab[1..] == n.ab;
    ArrivalCounted(n.b, n.ab[0], n.ab[1..]);
  }

  lemma ReceiverTakes(n: Net, n': Net)
    requires Inv(n) && Stalled(n) && TakeStep(Swap(n), Swap(n'))
    ensures Stalled(n')
  {
    hide Payload, Credit, CanGiveBack, Take, Receive, Inv;
    HeadCounted(n);
    TakenQuietly(n.b, n.ab[0]);
    Append(n.ba, Take(n.b, n.ab[0]).packets);
  }

  lemma TakenQuietly(y: End, p: Packet)
    requires Receive(y.c, p).Absorbed?
    ensures Credit(Take(y, p).packets) == 0
  {
    hide Credit, Dropped, AcceptsExtended, Add32, Sub32;
    Single(Eof);
  }

  lemma StepStaysStalled(n: Net, n': Net)
    requires Inv(n) && Stalled(n) && Step(n, n')
    ensures Stalled(n')
  {
    hide Inv, Stalled, LocalStep, TakeStep, Swap;
    if TakeStep(n, n') {
      SenderTakes(n, n');
    } else if TakeStep(Swap(n), Swap(n')) {
      ReceiverTakes(n, n');
    } else if HalfStep(n, n') {
      var ev :| LocalStep(n, n', ev);
      SenderStays(n, n', ev);
    } else {
      var ev :| LocalStep(Swap(n), Swap(n'), ev);
      ReceiverStays(n, n', ev);
    }
  }

  lemma {:induction false} StalledForGood(run: seq<Net>, n: Net)
    requires Continues(run, n) && Inv(n) && Stalled(n)
    ensures Inv(run[|run| - 1]) && Stalled(run[|run| - 1])
  {
    hide Inv, Stalled, Step;
    if |run| > 1 {
      var front := run[..|run| - 1];
      assert forall i :: 0 <= i < |front| - 1 ==> Step(front[i], front[i + 1]) by {
        assert forall i :: 0 <= i < |run| - 1 ==> Step(run[i], run[i + 1]);
      }
      StalledForGood(front, n);
      assert Step(run[|run| - 2], run[|run| - 2 + 1]);
      StepStaysStalled(run[|run| - 2], run[|run| - 1]);
      StepKeepsInv(run[|run| - 2], run[|run| - 1]);
    }
  }

  // ----- any other state can open the window again

  /** n can go on to a state in which a may send. */
  ghost predicate Opens(n: Net) {
    exists run: seq<Net> :: Continues(run, n) && run[|run| - 1].a.c.remoteWindow > 0
  }

  lemma OpensAfter(n: Net, n': Net)
    requires Step(n, n') && Opens(n')
    ensures Opens(n)
  {
    hide Step;
    var run: seq<Net> :| Continues(run, n') && run[|run| - 1].a.c.remoteWindow > 0;
    var longer := [n] + run;
    forall i | 0 <= i < |longer| - 1
      ensures Step(longer[i], longer[i + 1])
    {
      if i > 0 {
        assert Step(run[i - 1], run[i - 1 + 1]);
      }
    }
    assert Continues(longer, n);
  }

  lemma OpensNow(n: Net)
    requires n.a.c.remoteWindow > 0
    ensures Opens(n)
  {
    assert Continues([n], n);
  }

  /** Window already on its way arrives: every packet before it is absorbed. */
  lemma {:induction false} CreditArrives(n: Net)
    requires Inv(n) && Credit(n.ba) > 0
    ensures Opens(n)
    decreases |n.ba|
  {
    hide Inv, Credit, Take, Receive, Opens, Direction;
    SafeToTake(n);
    var m := Take(n.a, n.ba[0]);
    var n' := n.(a := m.e, ba := n.ba[1..], ab := n.ab + m.packets);
    assert TakeStep(n, n') && HalfStep(n, n');
    Head(n.ba);
    TakenCredit(n);
    if m.e.c.remoteWindow > 0 {
      OpensNow(n');
    } else {
      StepKeepsInv(n, n');
      CreditArrives(n');
    }
    OpensAfter(n, n');
  }

  lemma SafeToTake(n: Net)
    requires Inv(n) && Credit(n.ba) > 0
    ensures n.ba != [] && Receive(n.a.c, n.ba[0]).Absorbed?
  {
    hide Direction, Receive;
    ReceiptIsSafe(n.b, n.a, n.ba, n.ab);
  }

  lemma TakenCredit(n: Net)
    requires Inv(n) && n.ba != [] && Receive(n.a.c, n.ba[0]).Absorbed?
    ensures Take(n.a, n.ba[0]).e.c.remoteWindow == n.a.c.remoteWindow + Credit([n.ba[0]])
  {
    hide Payload, Credit, Take, Receive, InOrder, ExtendedInOrder, Closing, Accounted, Fits;
    if n.ba[0].Adjust? {
      AdjustFits(n.b, n.a, n.ba, n.ab);
    }
    TakenAsSender(n.a, n.ba[0]);
  }

  /** b's checking its window puts an adjustment on the link. */
  lemma CheckOpens(n: Net)
    requires Inv(n) && CanGiveBack(n.b.c, n.ab) && Payload(n.ab) == 0 && n.b.c.localConsumed > 0
    ensures Opens(n)
  {
    hide Inv, Credit, Payload, Opens, Add32, Sub32, Step, DataIn, ExtendedIn, WindowLow, LowAt, HoldsSomething;
    ArrivingFits(n);
    WindowLowIs(n.b.c);
    var m := Local(n.b, Check);
    var n' := n.(b := m.e, ba := n.ba + m.packets);
    assert LocalStep(Swap(n), Swap(n'), Check);
    TakesAStep(n, n', Check);
    Single(Adjust(n.b.c.localConsumed));
    Append(n.ba, m.packets);
    StepKeepsInv(n, n');
    CreditArrives(n');
    OpensAfter(n, n');
  }

  lemma TakesAStep(n: Net, n': Net, ev: Event)
    requires LocalStep(Swap(n), Swap(n'), ev)
    ensures Step(n, n')
  {
  }

  lemma WriteOpens(n: Net)
    requires Inv(n) && CanGiveBack(n.b.c, n.ab) && Payload(n.ab) == 0 && n.b.c.localConsumed == 0
    ensures Opens(n)
  {
    hide Inv, Opens, Sub32, Step, Payload, DataIn, ExtendedIn, LowAt;
    PayloadIs(n.ab);
    var c := n.b.c;
    var ev := if Writable(c) then WriteOk(|c.output|) else WriteExtOk(|c.extended|);
    var m := Local(n.b, ev);
    var n' := n.(b := m.e, ba := n.ba + m.packets);
    assert LocalStep(Swap(n), Swap(n'), ev);
    TakesAStep(n, n', ev);
    BufferFits(n);
    SameLow(c, m.e.c, c.localWindow - Arriving(c, n.ab));
    StepKeepsInv(n, n');
    CheckOpens(n');
    OpensAfter(n, n');
  }

  /** The payload on the link is taken first: EOF and CLOSE only come after it. */
  lemma {:induction false} PayloadArrives(n: Net)
    requires Inv(n) && CanGiveBack(n.b.c, n.ab)
    ensures Opens(n)
    decreases |n.ab|
  {
    hide Inv, Payload, Take, Receive, Opens, Step, CanGiveBack;
    if Payload(n.ab) == 0 {
      if n.b.c.localConsumed > 0 {
        CheckOpens(n);
      } else {
        WriteOpens(n);
      }
    } else {
      PayloadHead(n);
      var m := Take(n.b, n.ab[0]);
      var n' := n.(b := m.e, ab := n.ab[1..], ba := n.ba + m.packets);
      assert TakeStep(Swap(n), Swap(n'));
      assert HalfStep(Swap(n), Swap(n'));
      IsAStep(n, n');
      HeadCounted(n);
      StepKeepsInv(n, n');
      PayloadArrives(n');
      OpensAfter(n, n');
    }
  }

  lemma IsAStep(n: Net, n': Net)
    requires HalfStep(Swap(n), Swap(n'))
    ensures Step(n, n')
  {
  }

  lemma PayloadHead(n: Net)
    requires Inv(n) && Payload(n.ab) > 0
    ensures n.ab != [] && Receive(n.b.c, n.ab[0]).Absorbed? && !n.ab[0].Eof? && !n.ab[0].Close?
  {
    hide Receive, Payload, DataIn, ExtendedIn, Credit, Balanced, Accounted, Fits, InOrder, ExtendedInOrder, Quiet, Tidy;
    PayloadIs(n.ab);
    EmptyLink();
    ReceiptIsSafe(n.a, n.b, n.ab, n.ba);
    Head(n.ab);
    Single(n.ab[0]);
    TidyTail(n.ab);
    PayloadIs(n.ab[1..]);
    EmptyLink();
    if n.ab[0].Eof? {
      QuietCarriesNoData(n.ab[1..]);
    }
  }

  lemma EmptyLink()
    ensures Payload([]) == 0
  {
  }

  lemma BufferFits(n: Net)
    requires Inv(n)
    ensures |n.b.c.output| + |Unwritten(n.b.c)| < 0x1_0000_0000
  {
    hide Balanced, Fits, InOrder, ExtendedInOrder, Closing;
    assert Accounted(n.b);
  }

  // ----- main results

  /**
   What a may send once nothing is under way: the window b opened with, less what b still owes or
   buffers, what it dropped on arrival, and what it threw away with its output buffer.
   */
  lemma SenderWindowLeft(run: seq<Net>, k: nat)
    requires IsRun(run) && k < |run| && Payload(run[k].ab) == 0 && Credit(run[k].ba) == 0
    ensures var n := run[k];
            n.a.c.remoteWindow == n.b.c.localWindowMax - n.b.c.localConsumed - |n.b.c.output| - |Unwritten(n.b.c)|
                                  - n.b.lost - n.b.discarded
  {
    hide Payload, Credit;
    WindowConservation(run, k);
  }

  /**
   In any reachable state: a never sends again exactly when its window is zero, none is on its way,
   and b, once the payload under way has arrived, cannot give any back.
   */
  lemma StuckIff(run: seq<Net>, k: nat)
    requires IsRun(run) && k < |run|
    ensures Stuck(run[k]) <==> Stalled(run[k])
  {
    hide Inv, Payload, Credit, CanGiveBack, Step;
    var n := run[k];
    RunKeepsInv(run, k);
    if Stalled(n) {
      forall more: seq<Net> | Continues(more, n)
        ensures more[|more| - 1].a.c.remoteWindow == 0
      {
        StalledForGood(more, n);
      }
    } else {
      if n.a.c.remoteWindow > 0 {
        OpensNow(n);
      } else if Credit(n.ba) > 0 {
        CreditArrives(n);
      } else {
        PayloadArrives(n);
      }
      var more: seq<Net> :| Continues(more, n) && more[|more| - 1].a.c.remoteWindow > 0;
    }
  }

  /** Bytes that arrived, or will arrive, and can no longer be written. */
  function Stranded(c: Chan, ps: seq<Packet>): nat {
    (if Writable(c) then 0 else |c.output|)
    + (if WritesExtended(c) then 0 else |Unwritten(c)| + if TakesExtended(c) then |ExtendedIn(ps)| else 0)
  }

  /**
   The same in terms of what is lost, while b is not closing: either everything b's window held is
   dropped, thrown away or stranded, or what is dropped keeps b from finding its window low.  Bytes
   on their way to a descriptor that will not take them count as dropped.
   */
  lemma StuckByLoss(run: seq<Net>, k: nat)
    requires IsRun(run) && k < |run| && !run[k].b.c.closeSent && !run[k].b.c.closeRcvd
    requires run[k].a.c.remoteWindow == 0 && Credit(run[k].ba) == 0
    ensures var y, ps := run[k].b, run[k].ab;
            var max, lost := y.c.localWindowMax, y.lost + Doomed(y.c, ps);
            Stuck(run[k]) <==>
              || max == lost + y.discarded + Stranded(y.c, ps)
              || (lost >= max / 2 && max - lost <= y.c.localMaxPacket * 3 % 0x1_0000_0000)
  {
    hide Payload, Credit, DataIn, ExtendedIn, IsRun, Stuck, InOrder, ExtendedInOrder, Fits, Closing;
    StuckIff(run, k);
    RunKeepsInv(run, k);
    ArrivingFits(run[k]);
  }

  /** b drops the bytes of an extended packet because its descriptor is closed or serves something else. */
  predicate DropsExtended(n: Net, n': Net) {
    && TakeStep(Swap(n), Swap(n')) && n.ab[0].Extended? && n.ab[0].bytes != []
    && !(n.b.c.efdOpen && n.b.c.extUse == ExtWrite)
  }

  /** A write to b's descriptor fails with bytes still in the buffer. */
  predicate LosesOutput(n: Net, n': Net) {
    LocalStep(Swap(n), Swap(n'), WriteFail) && n.b.c.output != []
  }

  lemma StepLoss(n: Net, n': Net)
    requires Inv(n) && Step(n, n')
    ensures n'.b.lost >= n.b.lost && (n'.b.lost > n.b.lost <==> DropsExtended(n, n'))
    ensures n'.b.discarded >= n.b.discarded && (n'.b.discarded > n.b.discarded <==> LosesOutput(n, n'))
  {
    hide Inv, OutputPoll, Receive, Dropped, CheckWindow, SendClose;
    if TakeStep(Swap(n), Swap(n')) {
      DropIff(n);
    }
  }

  lemma DropIff(n: Net)
    requires Inv(n) && n.ab != []
    ensures Dropped(n.b.c, n.ab[0]) > 0
       <==> n.ab[0].Extended? && n.ab[0].bytes != [] && !(n.b.c.efdOpen && n.b.c.extUse == ExtWrite)
  {
    hide Receive, Payload, Credit, Balanced, Accounted, InOrder, ExtendedInOrder, Closing;
    ReceiptIsSafe(n.a, n.b, n.ab, n.ba);
  }

  /** Nothing is lost exactly in the runs in which every extended packet meets an open descriptor of the right use. */
  lemma {:induction false} LostIff(run: seq<Net>, k: nat)
    requires IsRun(run) && k < |run|
    ensures run[k].b.lost == 0 <==> forall i: nat :: i < k ==> !DropsExtended(run[i], run[i + 1])
    ensures run[k].b.discarded == 0 <==> forall i: nat :: i < k ==> !LosesOutput(run[i], run[i + 1])
  {
    hide Step, DropsExtended, LosesOutput, Inv;
    if k > 0 {
      LostIff(run, k - 1);
      RunKeepsInv(run, k - 1);
      assert Step(run[k - 1], run[k - 1 + 1]);
      StepLoss(run[k - 1], run[k]);
    } else {
      assert run[0].b.lost == 0 && run[0].b.discarded == 0;
    }
  }

  /**
   A run that loses nothing sticks only in a window of at most one byte that three packets cover:
   channel_check_window then never finds it low.
   */
  lemma StuckWithoutLoss(run: seq<Net>, k: nat)
    requires IsRun(run) && k < |run| && !run[k].b.c.closeSent && !run[k].b.c.closeRcvd
    requires Stranded(run[k].b.c, run[k].ab) == 0 && Doomed(run[k].b.c, run[k].ab) == 0
    requires run[k].a.c.remoteWindow == 0 && Credit(run[k].ba) == 0
    requires forall i: nat :: i < k ==> !DropsExtended(run[i], run[i + 1]) && !LosesOutput(run[i], run[i + 1])
    ensures var c := run[k].b.c;
            Stuck(run[k]) <==> c.localWindowMax <= 1 && c.localWindowMax <= c.localMaxPacket * 3 % 0x1_0000_0000
  {
    hide IsRun, Stuck, DropsExtended, LosesOutput, Payload, Credit, Stranded, Doomed;
    LostIff(run, k);
    StuckByLoss(run, k);
  }

  // ----- a run that sticks although no write fails

  function Opened(use: ExtUse): End {
    End(Chan(InOpen, OutOpen, [], [], [], use, true, 2, 2, 2, 2, 0, 2, false, false, false, false),
        [], [], [], [], 0, 0, false)
  }

  function ErrorOutput(): Bytes {
    [0, 0]
  }

  /** The sending endpoint holding bytes of standard error, with so much window left. */
  function Sender(held: Bytes, window: u32, read: Bytes): End {
    var e := Opened(ExtRead);
    e.(c := e.c.(extended := held, remoteWindow := window), readExt := read)
  }

  /** a reads and sends two bytes of standard error, which fill b's window; b has no use for them. */
  function DroppingRun(): seq<Net> {
    var e, b := ErrorOutput(), Opened(ExtIgnore);
    [Net(Sender([], 2, []), b, [], []),
     Net(Sender(e, 2, e), b, [], []),
     Net(Sender([], 0, e), b, [Extended(STDERR, e)], []),
     Net(Sender([], 0, e), b.(lost := 2), [], [])]
  }

  lemma ReadsError()
    ensures Step(DroppingRun()[0], DroppingRun()[1])
  {
    var n, n' := DroppingRun()[0], DroppingRun()[1];
    assert [] + ErrorOutput() == ErrorOutput();
    assert LocalStep(n, n', ReadExtOk(ErrorOutput()));
    hide *;
    LocallyStepped(n, n', ReadExtOk(ErrorOutput()));
  }

  lemma LocallyStepped(n: Net, n': Net, ev: Event)
    requires LocalStep(n, n', ev)
    ensures Step(n, n')
  {
    hide LocalStep;
    assert HalfStep(n, n');
  }

  lemma SendsError()
    ensures Step(DroppingRun()[1], DroppingRun()[2])
  {
    var n, n' := DroppingRun()[1], DroppingRun()[2];
    PolledError(n.a.c);
    hide OutputPoll;
    assert [] + [Extended(STDERR, ErrorOutput())] == [Extended(STDERR, ErrorOutput())];
    assert LocalStep(n, n', Poll);
    hide *;
    LocallyStepped(n, n', Poll);
  }

  lemma PolledError(c: Chan)
    requires c == Sender(ErrorOutput(), 2, ErrorOutput()).c
    ensures OutputPoll(c) == Sent(c.(extended := [], remoteWindow := 0), [Extended(STDERR, ErrorOutput())])
  {
    assert Quota(c, 2) == 2 && |c.extended| == 2 && Sub32(2, 2) == 0;
    assert c.extended[..2] == ErrorOutput() && c.extended[2..] == [];
    assert PollExtended(c) == Sent(c.(extended := [], remoteWindow := 0), [Extended(STDERR, ErrorOutput())]);
    hide PollExtended;
    assert PollInput(c) == Sent(c, []);
    hide PollInput;
    assert [] + PollExtended(c).packets == PollExtended(c).packets;
  }

  lemma DropsError()
    ensures Step(DroppingRun()[2], DroppingRun()[3]) && Stalled(DroppingRun()[3])
  {
    var n, n' := DroppingRun()[2], DroppingRun()[3];
    var y, p := n.b, Extended(STDERR, ErrorOutput());
    assert Receive(y.c, p) == Absorbed(y.c, []);
    assert Dropped(y.c, p) == 2;
    assert Take(y, p) == Moved(y.(lost := 2), []);
    hide Take, Receive, Dropped;
    assert TakeStep(Swap(n), Swap(n'));
    hide TakeStep;
    assert HalfStep(Swap(n), Swap(n'));
  }

  /** No write fails and nothing is thrown away, b's own window is full again, and a may never send. */
  lemma DroppedBytesStick()
    ensures var run := DroppingRun();
            && IsRun(run) && |run| == 4 && Stuck(run[3])
            && !run[3].b.failed && run[3].b.discarded == 0 && run[3].b.c.localWindow == run[3].b.c.localWindowMax
  {
    assert Initial(DroppingRun()[0]) && DroppingRun()[3].ab == [];
    ReadsError();
    SendsError();
    DropsError();
    hide Step, Initial, Stuck, Stalled;
    StuckIff(DroppingRun(), 3);
  }
}

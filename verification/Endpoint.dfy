/**
 The handlers on a Channel take the steps of FlowControl: what an endpoint does in a run is what
 the code does, so the results about runs are about the code.
 */
module Endpoint {
  import opened Words
  import opened ChannelSpec
  import opened ChannelCode
  import opened FlowControl

  /** One event at an endpoint, by the handler that serves it. */
  method Act(c: Channel, ghost e: End, ev: Event) returns (sent: seq<Packet>, ghost after: End)
    requires c.View() == e.c && Enabled(e, ev)
    modifies c
    ensures Moved(after, sent) == Local(e, ev) && c.View() == after.c
  {
    hide OutputPoll, CheckWindow, DrainOutput, SendClose;
    sent := [];
    after := Local(e, ev).e;
    match ev
    case ReadOk(bytes) => Read(c, bytes);
    case ReadFail => c.HandleRfd([]);
    case ReadExtOk(bytes) => ReadExt(c, bytes);
    case ExtFail => c.HandleEfdRead([]);
    case Poll => sent := c.HandleOutputPoll();
    case WriteOk(n) => Write(c, n);
    case WriteFail => c.HandleWfd(0);
    case WriteExtOk(n) => WriteExt(c, n);
    case Check => sent := c.HandleCheckWindow();
    case Drain => c.HandleDrain();
    case Collect => sent := c.GarbageCollect();
  }

  /** A call that moves no bytes, for EINTR or EAGAIN, leaves the channel alone. */
  method Read(c: Channel, bytes: Bytes)
    modifies c
    ensures c.View() == ReadBytes(old(c.View()), bytes)
  {
    if bytes != [] {
      c.HandleRfd(bytes);
    }
  }

  method ReadExt(c: Channel, bytes: Bytes)
    modifies c
    ensures c.View() == ReadExtended(old(c.View()), bytes)
  {
    if bytes != [] {
      c.HandleEfdRead(bytes);
    }
  }

  method Write(c: Channel, n: nat)
    requires n <= |c.output|
    modifies c
    ensures c.View() == WriteOutput(old(c.View()), n)
  {
    if n > 0 {
      c.HandleWfd(n);
    }
  }

  method WriteExt(c: Channel, n: nat)
    requires n <= |c.extended|
    modifies c
    ensures c.View() == WriteExtended(old(c.View()), n)
  {
    if n > 0 {
      c.HandleEfdWrite(n);
    }
  }

  /** A packet, by the handler of its type; ok is false where the code ends the connection or the process. */
  method Accept(c: Channel, ghost e: End, p: Packet) returns (ok: bool, sent: seq<Packet>, ghost after: End)
    requires c.View() == e.c
    modifies c
    ensures ok <==> Receive(e.c, p).Absorbed?
    ensures ok ==> Moved(after, sent) == Take(e, p) && c.View() == after.c
  {
    hide InputData, InputExtended, InputAdjust, InputEof, InputClose, Dropped;
    ok, sent := true, [];
    match p {
      case Data(bytes) => c.HandleInputData(bytes);
      case Extended(code, bytes) => ok := c.HandleInputExtendedData(code, bytes);
      case Adjust(amount) => ok := c.HandleInputWindowAdjust(amount);
      case Eof => c.HandleInputEof();
      case Close => sent := c.HandleInputClose();
    }
    after := if ok then Take(e, p).e else e;
  }

  // ----- two channels and two links

  lemma Extend(run: seq<Net>, n: Net)
    requires IsRun(run) && Step(run[|run| - 1], n)
    ensures IsRun(run + [n])
  {
    hide Step, Initial;
    var longer := run + [n];
    forall i | 0 <= i < |longer| - 1
      ensures Step(longer[i], longer[i + 1])
    {
      if i < |run| - 1 {
        assert Step(run[i], run[i + 1]);
      }
    }
  }

  lemma ASteps(n: Net, n': Net, ev: Event)
    ensures LocalStep(n, n', ev) || TakeStep(n, n') ==> Step(n, n')
    ensures LocalStep(Swap(n), Swap(n'), ev) || TakeStep(Swap(n), Swap(n')) ==> Step(n, n')
  {
    hide LocalStep, TakeStep, Swap;
    assert LocalStep(n, n', ev) || TakeStep(n, n') ==> HalfStep(n, n');
    assert LocalStep(Swap(n), Swap(n'), ev) || TakeStep(Swap(n), Swap(n')) ==> HalfStep(Swap(n), Swap(n'));
  }

  /** The two channels of a connection and what is on its links; every call extends a run of FlowControl. */
  class Connection {
    var a: Channel
    var b: Channel
    var ab: seq<Packet>
    var ba: seq<Packet>
    ghost var run: seq<Net>

    ghost predicate Valid()
      reads this, a, b
    {
      && a != b && IsRun(run)
      && a.View() == run[|run| - 1].a.c && b.View() == run[|run| - 1].b.c
      && ab == run[|run| - 1].ab && ba == run[|run| - 1].ba
    }

    /** Both ends open, each with the window and packet size the other announced. */
    constructor (windowA: u32, maxA: u32, useA: ExtUse, efdA: bool, windowB: u32, maxB: u32, useB: ExtUse, efdB: bool)
      ensures Valid() && |run| == 1 && fresh(a) && fresh(b)
    {
      var x := new Channel(windowA, maxA, useA, efdA, windowB, maxB);
      var y := new Channel(windowB, maxB, useB, efdB, windowA, maxA);
      a, b, ab, ba := x, y, [], [];
      run := [Net(End(x.View(), [], [], [], [], 0, 0, false), End(y.View(), [], [], [], [], 0, 0, false), [], [])];
    }

    /** An event at end a. */
    method ActA(ev: Event)
      requires Valid() && Enabled(run[|run| - 1].a, ev)
      modifies this, a
      ensures Valid() && a == old(a) && b == old(b)
      ensures exists n :: run == old(run) + [n] && LocalStep(old(run)[|old(run)| - 1], n, ev)
    {
      assert run != [];
      hide Enabled, Local, IsRun, Step;
      ghost var n := run[|run| - 1];
      var sent;
      ghost var after;
      sent, after := Act(a, n.a, ev);
      ab := ab + sent;
      ghost var n' := n.(a := after, ab := ab);
      assert LocalStep(n, n', ev);
      ASteps(n, n', ev);
      Extend(run, n');
      run := run + [n'];
    }

    method ActB(ev: Event)
      requires Valid() && Enabled(run[|run| - 1].b, ev)
      modifies this, b
      ensures Valid() && a == old(a) && b == old(b)
      ensures exists n :: run == old(run) + [n] && LocalStep(Swap(old(run)[|old(run)| - 1]), Swap(n), ev)
    {
      assert run != [];
      hide Enabled, Local, IsRun, Step;
      ghost var n := run[|run| - 1];
      var sent;
      ghost var after;
      sent, after := Act(b, n.b, ev);
      ba := ba + sent;
      ghost var n' := n.(b := after, ba := ba);
      assert LocalStep(Swap(n), Swap(n'), ev);
      ASteps(n, n', ev);
      Extend(run, n');
      run := run + [n'];
    }

    /** End a takes the next packet, whatever it is: in a run nothing is refused. */
    method DeliverToA()
      requires Valid() && ba != []
      modifies this, a
      ensures Valid() && a == old(a) && b == old(b)
      ensures exists n :: run == old(run) + [n] && TakeStep(old(run)[|old(run)| - 1], n)
    {
      assert run != [];
      hide Receive, Take, IsRun, Step, Dropped;
      NothingIsRefused(run, |run| - 1);
      ghost var n := run[|run| - 1];
      var ok, sent;
      ghost var after;
      ok, sent, after := Accept(a, n.a, ba[0]);
      ba, ab := ba[1..], ab + sent;
      ghost var n' := n.(a := after, ba := ba, ab := ab);
      assert TakeStep(n, n');
      ASteps(n, n', Check);
      Extend(run, n');
      run := run + [n'];
    }

    method DeliverToB()
      requires Valid() && ab != []
      modifies this, b
      ensures Valid() && a == old(a) && b == old(b)
      ensures exists n :: run == old(run) + [n] && TakeStep(Swap(old(run)[|old(run)| - 1]), Swap(n))
    {
      assert run != [];
      hide Receive, Take, IsRun, Step, Dropped;
      MirroredIsRun(run);
      NothingIsRefused(Mirrored(run), |run| - 1);
      ghost var n := run[|run| - 1];
      var ok, sent;
      ghost var after;
      ok, sent, after := Accept(b, n.b, ab[0]);
      ab, ba := ab[1..], ba + sent;
      ghost var n' := n.(b := after, ab := ab, ba := ba);
      assert TakeStep(Swap(n), Swap(n'));
      ASteps(n, n', Check);
      Extend(run, n');
      run := run + [n'];
    }
  }
}

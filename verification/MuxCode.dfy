/** The mux proxy handlers of channels.c over the growing array of channels, tied to MuxSpec. */
module MuxCode {
  import opened Words
  import opened Optional
  import opened MuxSpec

  const MAX_CHANNELS := 16 * 1024

  /** Connection-protocol messages as the proxy reads them: the ids it inspects, and bytes it passes on. */
  datatype Message =
    | Open(ctype: seq<byte>, sender: u32, rest: seq<byte>)
    | Confirm(recipient: u32, sender: u32, rest: seq<byte>)
    | Close(recipient: u32, rest: seq<byte>)
    | About(kind: byte, recipient: u32, rest: seq<byte>)

  /** What the server is sent for a client's message, given the upstream id if it opened a channel. */
  function Translated(m: Message, up: u32): Message {
    match m
    case Open(ctype, _, rest) => Open(ctype, up, rest)
    case Confirm(recipient, _, rest) => Confirm(recipient, up, rest)
    case _ => m
  }

  /** What a client's message does to the table. */
  function AfterDown(t: Table, client: nat, m: Message): Table {
    match m
    case Open(_, sender, _) => Place(t, FreshProxy(client, sender, None))
    case Confirm(recipient, sender, _) => Place(t, FreshProxy(client, sender, Some(recipient)))
    case Close(recipient, _) => CloseDown(t, recipient)
    case About(_, _, _) => t
  }

  /** A server message under the id its client knows. */
  function Restored(m: Message, down: u32): Message {
    match m
    case Open(_, _, _) => m
    case Confirm(_, sender, rest) => Confirm(down, sender, rest)
    case Close(_, rest) => Close(down, rest)
    case About(kind, _, rest) => About(kind, down, rest)
  }

  /** What a server message for proxy s does to the table; a bare confirmation carries no id to record. */
  function AfterUp(t: Table, s: nat, m: Message): Table
    requires IsProxy(t, s)
  {
    match m
    case Confirm(_, sender, rest) => if rest != [] then Bind(t, s, sender) else t
    case Close(_, _) => CloseUp(t, s)
    case _ => t
  }

  /** Where a server message for upstream id s goes: to the client behind a proxy, under that client's id. */
  function Routed(t: Table, s: nat, m: Message): Option<(nat, Message)> {
    if IsProxy(t, s) then Some((t[s].value.client, Restored(m, t[s].value.down))) else None
  }

  class Chan {
    var self: nat
    var proxy: bool
    var muxClient: nat
    var muxDownstreamId: u32
    var remoteId: u32
    var haveRemoteId: bool
    var closeSent: bool
    var closeRcvd: bool

    constructor (self: nat, proxy: bool, muxClient: nat, muxDownstreamId: u32)
      ensures this.self == self && View() == Slot(proxy, muxClient, muxDownstreamId, None, false, false)
    {
      this.self, this.proxy, this.muxClient, this.muxDownstreamId := self, proxy, muxClient, muxDownstreamId;
      remoteId, haveRemoteId, closeSent, closeRcvd := 0, false, false, false;
    }

    function View(): Slot
      reads this
    {
      Slot(proxy, muxClient, muxDownstreamId, if haveRemoteId then Some(remoteId) else None, closeSent, closeRcvd)
    }
  }

  class Mux {
    var channels: array<Chan?>

    /** The live channels. */
    ghost function Chans(): set<Chan?>
      reads this, channels
    {
      set i | 0 <= i < channels.Length && channels[i] != null :: channels[i]
    }

    /** Every channel sits in the slot that bears its number, and in no other. */
    ghost predicate Valid()
      reads this, channels, Chans()
    {
      && channels.Length <= MAX_CHANNELS + 10
      && forall i :: 0 <= i < channels.Length && channels[i] != null ==> channels[i].self == i
    }

    ghost function View(): Table
      reads this, channels, Chans()
    {
      seq(channels.Length, i requires 0 <= i < channels.Length reads this, channels, Chans() =>
        if channels[i] == null then None else Some(channels[i].View()))
    }

    constructor ()
      ensures Valid() && View() == EmptyTable() && fresh(channels)
    {
      channels := new Chan?[10](_ => null);
    }

    /** channel_by_remote_id */
    method ByRemoteId(remote: u32) returns (c: Chan?)
      requires Valid()
      ensures var f := FindRemote(View(), remote);
              if f < channels.Length then c != null && c.self == f && c == channels[f] else c == null
    {
      var i := 0;
      while i < channels.Length
        invariant i <= channels.Length && forall k: nat :: k < i ==> !Bears(View(), k, remote)
      {
        c := channels[i];
        if c != null && c.haveRemoteId && c.remoteId == remote {
          assert Bears(View(), i, remote);
          return;
        }
        i := i + 1;
      }
      c := null;
    }

    /** channel_new: the first free slot, or ten new ones; too many channels are fatal. */
    method New(proxy: bool, muxClient: nat, muxDownstreamId: u32) returns (c: Chan?)
      requires Valid()
      modifies this, channels
      ensures Valid() && (channels == old(channels) || fresh(channels))
      ensures c == null ==> View() == old(View()) && channels == old(channels) && channels.Length > MAX_CHANNELS
      ensures c != null ==> fresh(c) && c.View() == Slot(proxy, muxClient, muxDownstreamId, None, false, false)
      ensures c != null ==> c.self == FirstFree(old(View())) && c in Chans() && Chans() == old(Chans()) + {c}
      ensures c != null ==> View() == Place(old(View()), Slot(proxy, muxClient, muxDownstreamId, None, false, false))
    {
      var found := 0;
      while found < channels.Length && channels[found] != null
        invariant found <= channels.Length && forall k: nat :: k < found ==> Live(View(), k)
      {
        found := found + 1;
      }
      ghost var t := View();
      assert !Live(t, found);
      if found >= channels.Length {
        if channels.Length > MAX_CHANNELS {
          return null;
        }
        Expand();
      }
      ghost var g := View();
      assert g == Grown(t);
      c := new Chan(found, proxy, muxClient, muxDownstreamId);
      channels[found] := c;
      assert View() == g[found := Some(c.View())];
    }

    /** xrecallocarray by ten slots */
    method Expand()
      requires Valid() && channels.Length <= MAX_CHANNELS
      modifies this
      ensures Valid() && fresh(channels) && View() == old(View()) + EmptyTable() && Chans() == old(Chans())
    {
      var bigger := new Chan?[channels.Length + 10];
      var i := 0;
      while i < bigger.Length
        invariant i <= bigger.Length
        invariant forall k :: 0 <= k < i ==> bigger[k] == if k < channels.Length then channels[k] else null
        modifies bigger
      {
        bigger[i] := if i < channels.Length then channels[i] else null;
        i := i + 1;
      }
      ghost var before := channels;
      channels := bigger;
      forall c | c in old(Chans())
        ensures c in Chans()
      {
        var k :| 0 <= k < before.Length && before[k] == c;
        assert channels[k] == c;
      }
    }

    /** channel_free */
    method Free(c: Chan)
      requires Valid() && c in Chans()
      modifies channels
      ensures Valid() && View() == old(View())[c.self := None]
    {
      channels[c.self] := null;
    }

    method NewProxy(client: nat, id: u32, remote: Option<u32>) returns (up: Option<u32>)
      requires Valid()
      modifies this, channels
      ensures Valid()
      ensures up.Some? ==> View() == Place(old(View()), FreshProxy(client, id, remote)) && up.value == FirstFree(old(View()))
      ensures up.None? ==> View() == old(View()) && |View()| > MAX_CHANNELS
    {
      var c := New(true, client, id);
      if c == null {
        return None;
      }
      ghost var t := View();
      if remote.Some? {
        c.remoteId, c.haveRemoteId := remote.value, true;
      }
      assert View() == t[c.self := Some(c.View())];
      up := Some(c.self);
    }

    /** A CLOSE on its way to the server. */
    method CloseFromClient(remote: u32)
      requires Valid()
      modifies channels, Chans()
      ensures Valid() && View() == CloseDown(old(View()), remote)
    {
      var c := ByRemoteId(remote);
      if c != null {
        ghost var f := c.self;
        if c.closeRcvd {
          Free(c);
        } else {
          c.closeSent := true;
          assert View() == old(View())[f := Some(c.View())];
        }
      }
    }

    /** channel_proxy_downstream: nothing is sent only if the array of channels is beyond its limit. */
    method Downstream(client: nat, m: Message) returns (sent: Option<Message>)
      requires Valid()
      modifies this, channels, Chans()
      ensures Valid()
      ensures sent.Some? ==> FirstFree(old(View())) <= MAX_CHANNELS + 10
      ensures sent.Some? ==> View() == AfterDown(old(View()), client, m)
                             && sent.value == Translated(m, FirstFree(old(View())))
      ensures sent.None? ==> View() == old(View()) && |View()| > MAX_CHANNELS && (m.Open? || m.Confirm?)
    {
      match m {
        case Open(ctype, id, rest) =>
          var up := NewProxy(client, id, None);
          sent := if up.None? then None else Some(Open(ctype, up.value, rest));
        case Confirm(remote, id, rest) =>
          var up := NewProxy(client, id, Some(remote));
          sent := if up.None? then None else Some(Confirm(remote, up.value, rest));
        case Close(remote, rest) =>
          CloseFromClient(remote);
          sent := Some(m);
        case About(_, _, _) =>
          sent := Some(m);
      }
    }

    /**
     channel_proxy_upstream: a message for a proxy goes to the client that opened it, under that client's id;
     any other message is left to the owner of the connection.
     */
    method Upstream(s: nat, m: Message) returns (routed: Option<(nat, Message)>)
      requires Valid() && !m.Open?
      modifies channels, Chans()
      ensures Valid()
      ensures routed == Routed(old(View()), s, m)
      ensures View() == if routed.Some? then AfterUp(old(View()), s, m) else old(View())
    {
      var c := if s < channels.Length then channels[s] else null;
      if c == null || !c.proxy {
        return None;
      }
      routed := Some((c.muxClient, Restored(m, c.muxDownstreamId)));
      match m {
        case Confirm(_, sender, rest) =>
          if rest != [] {
            c.remoteId, c.haveRemoteId := sender, true;
          }
        case Close(_, _) =>
          if c.closeSent {
            Free(c);
          } else {
            c.closeRcvd := true;
          }
        case _ =>
      }
    }
  }

  // ----- traffic through the handlers

  /** A call of Downstream or Upstream, or the owner's use of the same array. */
  datatype Passing =
    | FromClient(client: nat, m: Message)
    | FromServer(up: nat, m: Message)
    | OwnOpens(remote: Option<u32>)
    | OwnFrees(up: nat)

  function After(t: Table, p: Passing): Table {
    match p
    case FromClient(client, m) => AfterDown(t, client, m)
    case FromServer(up, m) => if IsProxy(t, up) then AfterUp(t, up, m) else t
    case OwnOpens(remote) => Place(t, FreshOwn(remote))
    case OwnFrees(up) => if up < |t| then t[up := None] else t
  }

  function EventOf(t: Table, p: Passing): Event {
    match p
    case FromClient(client, Open(_, sender, _)) => Opened(FirstFree(t), client, sender, None)
    case FromClient(client, Confirm(recipient, sender, _)) => Opened(FirstFree(t), client, sender, Some(recipient))
    case FromClient(client, Close(recipient, _)) => ClientClose(client, recipient)
    case FromServer(up, Confirm(_, sender, rest)) => if IsProxy(t, up) && rest != [] then Bound(up, sender) else Passed
    case FromServer(up, Close(_, _)) => if IsProxy(t, up) then ServerClose(up) else Passed
    case OwnOpens(remote) => OwnOpened(FirstFree(t), remote)
    case OwnFrees(up) => OwnFreed(up)
    case _ => Passed
  }

  ghost predicate IsTraffic(ps: seq<Passing>, tables: seq<Table>) {
    && |tables| == |ps| + 1 && tables[0] == EmptyTable()
    && forall n :: 0 <= n < |ps| ==> Enabled(tables[n], EventOf(tables[n], ps[n])) && tables[n + 1] == After(tables[n], ps[n])
  }

  lemma HandlerIsStep(t: Table, p: Passing)
    requires Enabled(t, EventOf(t, p))
    ensures Step(t, EventOf(t, p)) == After(t, p)
  {
  }

  function Events(ps: seq<Passing>, tables: seq<Table>): (evs: seq<Event>)
    requires |tables| == |ps| + 1
    ensures |evs| == |ps| && forall n :: 0 <= n < |ps| ==> evs[n] == EventOf(tables[n], ps[n])
  {
    seq(|ps|, n requires 0 <= n < |ps| => EventOf(tables[n], ps[n]))
  }

  /** Whatever the handlers are called with is a run, so that all results about runs hold of them. */
  lemma TrafficIsRun(ps: seq<Passing>, tables: seq<Table>)
    requires IsTraffic(ps, tables)
    ensures IsRun(Events(ps, tables), tables)
  {
    hide Enabled, Step, EventOf, After;
    forall n | 0 <= n < |ps|
      ensures Step(tables[n], EventOf(tables[n], ps[n])) == After(tables[n], ps[n])
    {
      HandlerIsStep(tables[n], ps[n]);
    }
  }

  /** A client's message that was sent on under upstream id s. */
  predicate OpensAs(t: Table, p: Passing, s: nat) {
    p.FromClient? && (p.m.Open? || p.m.Confirm?) && FirstFree(t) == s
  }

  /**
   What Upstream returns for id s goes to the client whose message was the last to be sent on as s,
   and carries the id that client chose.
   */
  lemma RoutedToItsOpener(ps: seq<Passing>, tables: seq<Table>, n: nat, s: nat, m: Message)
    requires IsTraffic(ps, tables) && n < |tables| && Routed(tables[n], s, m).Some?
    ensures exists i: nat ::
              && i < n && OpensAs(tables[i], ps[i], s) && (forall k :: i < k < n ==> !OpensAs(tables[k], ps[k], s))
              && Routed(tables[n], s, m).value == (ps[i].client, Restored(m, ps[i].m.sender))
  {
    TrafficIsRun(ps, tables);
    var evs := Events(ps, tables);
    LiveProxyHasOpener(evs, tables, n, s);
    var i: nat :| OpenedAt(evs, i, n, s) && tables[n][s].value.client == evs[i].client && tables[n][s].value.down == evs[i].down;
    forall k | 0 <= k < n
      ensures OpensAs(tables[k], ps[k], s) <==> evs[k].Opened? && evs[k].up == s
      ensures OpensAs(tables[k], ps[k], s) ==> evs[k].client == ps[k].client && evs[k].down == ps[k].m.sender
    {
      OpenedIsOpens(tables[k], ps[k], s);
    }
    assert OpensAs(tables[i], ps[i], s);
  }

  lemma OpenedIsOpens(t: Table, p: Passing, s: nat)
    ensures var e := EventOf(t, p);
            && (OpensAs(t, p, s) <==> e.Opened? && e.up == s)
            && (OpensAs(t, p, s) ==> e.client == p.client && e.down == p.m.sender)
  {
  }
}

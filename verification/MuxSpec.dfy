/**
 Routing for mux clients (channels.c): clients may use clashing channel ids, so the shared
 connection gives each of their channels a slot of its own, and the slot number is the id the
 server sees.  A run is the sequence of messages that passed.
 */
module MuxSpec {
  import opened Words
  import opened Optional

  datatype Slot = Slot(proxy: bool, client: nat, down: u32, remote: Option<u32>, closeSent: bool, closeRcvd: bool)

  type Table = seq<Option<Slot>>

  datatype Event =
    | Opened(up: nat, client: nat, down: u32, remote: Option<u32>) // a client's OPEN or OPEN_CONFIRMATION, sent on as up
    | Bound(up: nat, serverId: u32)                                 // the server's OPEN_CONFIRMATION for up
    | ClientClose(client: nat, serverId: u32)                       // a client's CLOSE for the server's id
    | ServerClose(up: nat)                                         // the server's CLOSE for up
    | OwnOpened(up: nat, remote: Option<u32>)                      // a channel of the connection's owner
    | OwnFreed(up: nat)
    | Passed                                                       // a message that changes no slot

  predicate Live(t: Table, s: nat) {
    s < |t| && t[s].Some?
  }

  predicate IsProxy(t: Table, s: nat) {
    Live(t, s) && t[s].value.proxy
  }

  // ----- the table, as the code searches and updates it

  /** The first free slot from position at on, or the table's length. */
  function FirstFree(t: Table, at: nat := 0): (f: nat)
    requires at <= |t|
    ensures at <= f <= |t| && !Live(t, f) && forall k: nat :: at <= k < f ==> Live(t, k)
    decreases |t| - at
  {
    if at == |t| || t[at].None? then at else FirstFree(t, at + 1)
  }

  predicate Bears(t: Table, s: nat, remote: u32) {
    Live(t, s) && t[s].value.remote == Some(remote)
  }

  /** The first slot, from position at on, bound to the server's id, or the table's length. */
  function FindRemote(t: Table, remote: u32, at: nat := 0): (f: nat)
    requires at <= |t|
    ensures at <= f <= |t| && (f < |t| ==> Bears(t, f, remote)) && forall k: nat :: at <= k < f ==> !Bears(t, k, remote)
    decreases |t| - at
  {
    if at == |t| || Bears(t, at, remote) then at else FindRemote(t, remote, at + 1)
  }

  /** Room for one more: ten slots are added when all are taken. */
  function Grown(t: Table): (g: Table)
    ensures FirstFree(t) < |g| && |t| <= |g| && g[..|t|] == t && forall k :: |t| <= k < |g| ==> g[k].None?
  {
    if FirstFree(t) < |t| then t else t + EmptyTable()
  }

  function Place(t: Table, s: Slot): Table {
    Grown(t)[FirstFree(t) := Some(s)]
  }

  /** A CLOSE passing down the wire: the second of the two frees the slot. */
  function CloseDown(t: Table, remote: u32): Table {
    var f := FindRemote(t, remote);
    if f == |t| then t
    else if t[f].value.closeRcvd then t[f := None]
    else t[f := Some(t[f].value.(closeSent := true))]
  }

  function CloseUp(t: Table, s: nat): Table
    requires Live(t, s)
  {
    if t[s].value.closeSent then t[s := None] else t[s := Some(t[s].value.(closeRcvd := true))]
  }

  function Bind(t: Table, s: nat, remote: u32): Table
    requires Live(t, s)
  {
    t[s := Some(t[s].value.(remote := Some(remote)))]
  }

  function FreshProxy(client: nat, down: u32, remote: Option<u32>): Slot {
    Slot(true, client, down, remote, false, false)
  }

  function FreshOwn(remote: Option<u32>): Slot {
    Slot(false, 0, 0, remote, false, false)
  }

  /** channel_init_channels: ten free slots. */
  function EmptyTable(): Table {
    seq(10, _ => None)
  }

  // ----- runs

  /** No live channel other than s is bound to the server's id. */
  ghost predicate Unused(t: Table, s: nat, remote: u32) {
    forall k: nat :: Bears(t, k, remote) ==> k == s
  }

  /**
   What the surroundings owe: the server gives no id to two live channels, and sends only to live ones;
   a client closes only channels of its own.
   */
  ghost predicate Enabled(t: Table, e: Event) {
    match e
    case Opened(up, _, _, remote) => up == FirstFree(t) && (remote.Some? ==> Unused(t, up, remote.value))
    case Bound(up, remote) => IsProxy(t, up) && Unused(t, up, remote)
    case ClientClose(client, remote) =>
      forall s: nat :: Bears(t, s, remote) ==> t[s].value.proxy && t[s].value.client == client
    case ServerClose(up) => IsProxy(t, up)
    case OwnOpened(up, remote) => up == FirstFree(t) && (remote.Some? ==> Unused(t, up, remote.value))
    case OwnFreed(up) => Live(t, up) && !IsProxy(t, up)
    case Passed => true
  }

  function Step(t: Table, e: Event): Table
    requires Enabled(t, e)
  {
    match e
    case Opened(_, client, down, remote) => Place(t, FreshProxy(client, down, remote))
    case Bound(up, remote) => Bind(t, up, remote)
    case ClientClose(_, remote) => CloseDown(t, remote)
    case ServerClose(up) => CloseUp(t, up)
    case OwnOpened(_, remote) => Place(t, FreshOwn(remote))
    case OwnFreed(up) => t[up := None]
    case Passed => t
  }

  ghost predicate IsRun(evs: seq<Event>, tables: seq<Table>) {
    && |tables| == |evs| + 1 && tables[0] == EmptyTable()
    && forall n :: 0 <= n < |evs| ==> Enabled(tables[n], evs[n]) && tables[n + 1] == Step(tables[n], evs[n])
  }

  // ----- each proxy on its own: no table, no search

  /** The session behind upstream id s after one more event, by that event's effect on its own owner and peer. */
  function NextSession(prev: Option<Slot>, s: nat, e: Event): Option<Slot> {
    match e
    case Opened(up, client, down, remote) => if up == s then Some(FreshProxy(client, down, remote)) else prev
    case Bound(up, remote) => if up == s && prev.Some? then Some(prev.value.(remote := Some(remote))) else prev
    case ClientClose(client, remote) =>
      if prev.Some? && prev.value.remote == Some(remote) then
        if prev.value.closeRcvd then None else Some(prev.value.(closeSent := true))
      else prev
    case ServerClose(up) =>
      if up == s && prev.Some? then
        if prev.value.closeSent then None else Some(prev.value.(closeRcvd := true))
      else prev
    case _ => prev
  }

  function At(t: Table, s: nat): Option<Slot> {
    if IsProxy(t, s) then t[s] else None
  }

  ghost predicate UniqueRemotes(t: Table) {
    forall i: nat, j: nat, r :: Bears(t, i, r) && Bears(t, j, r) ==> i == j
  }

  /** With unique ids the search of the table touches the one session the message is about. */
  lemma StepIsPerSession(t: Table, e: Event, s: nat)
    requires UniqueRemotes(t) && Enabled(t, e)
    ensures At(Step(t, e), s) == NextSession(At(t, s), s, e)
  {
    if e.ClientClose? {
      var f := FindRemote(t, e.serverId);
      if Bears(t, s, e.serverId) {
        assert s == f;
      } else {
        assert At(Step(t, e), s) == At(t, s);
      }
    }
  }

  lemma StepKeepsUnique(t: Table, e: Event)
    requires UniqueRemotes(t) && Enabled(t, e)
    ensures UniqueRemotes(Step(t, e))
  {
    var t' := Step(t, e);
    forall i: nat, j: nat, r | Bears(t', i, r) && Bears(t', j, r)
      ensures i == j
    {
      assert Bears(t, i, r) || (e.Opened? && i == e.up) || (e.Bound? && i == e.up) || (e.OwnOpened? && i == e.up);
      assert Bears(t, j, r) || (e.Opened? && j == e.up) || (e.Bound? && j == e.up) || (e.OwnOpened? && j == e.up);
    }
  }

  lemma {:induction false} RunUnique(evs: seq<Event>, tables: seq<Table>, n: nat)
    requires IsRun(evs, tables) && n < |tables|
    ensures UniqueRemotes(tables[n])
  {
    hide Enabled, Step, UniqueRemotes;
    if n == 0 {
      EmptyUnique();
    } else {
      RunUnique(evs, tables, n - 1);
      StepKeepsUnique(tables[n - 1], evs[n - 1]);
      assert tables[n - 1 + 1] == Step(tables[n - 1], evs[n - 1]);
    }
  }

  lemma EmptyUnique()
    ensures UniqueRemotes(EmptyTable())
  {
  }

  lemma RunStep(evs: seq<Event>, tables: seq<Table>, n: nat, s: nat)
    requires IsRun(evs, tables) && n < |evs|
    ensures At(tables[n + 1], s) == NextSession(At(tables[n], s), s, evs[n])
    ensures Enabled(tables[n], evs[n])
  {
    hide Enabled, Step, At, NextSession, UniqueRemotes;
    RunUnique(evs, tables, n);
    StepIsPerSession(tables[n], evs[n], s);
  }

  // ----- what passed since a session was opened

  /** Event i opened upstream id s, and nothing has opened it again before event n. */
  ghost predicate OpenedAt(evs: seq<Event>, i: nat, n: nat, s: nat) {
    && i < n <= |evs| && evs[i].Opened? && evs[i].up == s
    && forall k :: i < k < n ==> !(evs[k].Opened? && evs[k].up == s)
  }

  ghost predicate ServerClosed(evs: seq<Event>, i: nat, n: nat, s: nat)
    requires n <= |evs|
  {
    exists k :: i < k < n && evs[k] == ServerClose(s)
  }

  /** Event e is the owner's CLOSE of session s in table t. */
  predicate IsOwnersClose(t: Table, s: nat, e: Event) {
    e.ClientClose? && Bears(t, s, e.serverId)
  }

  ghost predicate ClientClosed(evs: seq<Event>, tables: seq<Table>, i: nat, n: nat, s: nat)
    requires n <= |evs| < |tables|
  {
    exists k :: i < k < n && IsOwnersClose(tables[k], s, evs[k])
  }

  /** What a live session remembers of the messages since its opening. */
  ghost predicate Remembers(evs: seq<Event>, tables: seq<Table>, i: nat, n: nat, s: nat)
    requires n <= |evs| < |tables| && i < |evs| && evs[i].Opened?
  {
    IsProxy(tables[n], s) ==>
      && tables[n][s].value.client == evs[i].client && tables[n][s].value.down == evs[i].down
      && (tables[n][s].value.closeRcvd <==> ServerClosed(evs, i, n, s))
      && (tables[n][s].value.closeSent <==> ClientClosed(evs, tables, i, n, s))
  }

  lemma {:induction false} SessionHistory(evs: seq<Event>, tables: seq<Table>, i: nat, n: nat, s: nat)
    requires IsRun(evs, tables) && OpenedAt(evs, i, n, s)
    ensures Remembers(evs, tables, i, n, s)
    ensures IsProxy(tables[n], s) || (ServerClosed(evs, i, n, s) && ClientClosed(evs, tables, i, n, s))
    decreases n
  {
    hide IsRun, Enabled;
    RunStep(evs, tables, n - 1, s);
    assert IsRun(evs, tables) ==> |tables| == |evs| + 1 by { Lengths(evs, tables); }
    if i < n - 1 {
      SessionHistory(evs, tables, i, n - 1, s);
      ClosedGrows(evs, tables, i, n - 1, s);
    }
  }

  lemma Lengths(evs: seq<Event>, tables: seq<Table>)
    ensures IsRun(evs, tables) ==> |tables| == |evs| + 1 && tables[0] == EmptyTable()
  {
  }

  lemma ClosedGrows(evs: seq<Event>, tables: seq<Table>, i: nat, n: nat, s: nat)
    requires i < n < |evs| < |tables|
    ensures ServerClosed(evs, i, n + 1, s) <==> ServerClosed(evs, i, n, s) || evs[n] == ServerClose(s)
    ensures ClientClosed(evs, tables, i, n + 1, s) <==> ClientClosed(evs, tables, i, n, s) || IsOwnersClose(tables[n], s, evs[n])
  {
  }

  // ----- main results

  /** Every live proxy was opened by exactly one earlier message, and still carries that opener's client and id. */
  lemma {:induction false} LiveProxyHasOpener(evs: seq<Event>, tables: seq<Table>, n: nat, s: nat)
    requires IsRun(evs, tables) && n < |tables| && IsProxy(tables[n], s)
    ensures exists i: nat :: OpenedAt(evs, i, n, s) && tables[n][s].value.client == evs[i].client && tables[n][s].value.down == evs[i].down
    decreases n
  {
    hide Enabled, Step;
    assert n > 0;
    RunStep(evs, tables, n - 1, s);
    if evs[n - 1].Opened? && evs[n - 1].up == s {
      assert OpenedAt(evs, n - 1, n, s);
    } else {
      LiveProxyHasOpener(evs, tables, n - 1, s);
      var i: nat :| OpenedAt(evs, i, n - 1, s) && tables[n - 1][s].value.client == evs[i].client && tables[n - 1][s].value.down == evs[i].down;
      assert OpenedAt(evs, i, n, s);
    }
  }

  /** A session ends at the second CLOSE, whichever side sends it, and at no other event. */
  lemma FreedBySecondClose(evs: seq<Event>, tables: seq<Table>, i: nat, n: nat, s: nat)
    requires IsRun(evs, tables) && n < |evs| && OpenedAt(evs, i, n, s) && IsProxy(tables[n], s)
    ensures !IsProxy(tables[n + 1], s) <==>
              || (evs[n] == ServerClose(s) && ClientClosed(evs, tables, i, n, s))
              || (IsOwnersClose(tables[n], s, evs[n]) && ServerClosed(evs, i, n, s))
  {
    hide IsRun, Enabled, ClientClosed, ServerClosed;
    SessionHistory(evs, tables, i, n, s);
    RunStep(evs, tables, n, s);
    Lengths(evs, tables);
  }

  /** An upstream id is given out again only after both CLOSEs of its previous session have passed. */
  lemma IdsReusedOnlyAfterBothCloses(evs: seq<Event>, tables: seq<Table>, i: nat, j: nat, s: nat)
    requires IsRun(evs, tables) && OpenedAt(evs, i, j, s) && j < |evs| && evs[j].Opened? && evs[j].up == s
    ensures ServerClosed(evs, i, j, s) && ClientClosed(evs, tables, i, j, s)
  {
    hide ClientClosed, ServerClosed, Step;
    SessionHistory(evs, tables, i, j, s);
    assert Enabled(tables[j], evs[j]);
  }
}

/**
 The authentication context of auth2.c, updated in place by the request handlers.  Every method
 is tied to the state machine of AuthSpec, whose runs carry the results.
 */
module AuthCode {
  import opened Words
  import opened Optional
  import opened Strings
  import opened AuthLists
  import opened AuthSpec

  /** One entry of the server's table authmethods[]. */
  datatype Authmethod = Authmethod(name: string, enabled: bool)

  predicate DistinctNames(table: seq<Authmethod>) {
    forall i, j :: 0 <= i < j < |table| ==> table[i].name != table[j].name
  }

  function EnabledNames(table: seq<Authmethod>): set<string> {
    set m | m in table && m.enabled :: m.name
  }

  lemma EnabledAt(table: seq<Authmethod>, i: nat)
    requires DistinctNames(table) && i < |table|
    ensures table[i].name in EnabledNames(table) <==> table[i].enabled
  {
    assert table[i] in table;
    forall m | m in table && m.name == table[i].name
      ensures m == table[i]
    {
      var j :| 0 <= j < |table| && table[j] == m;
    }
  }

  // ----- comma-separated lists

  function Join(names: seq<string>): string {
    if names == [] then ""
    else if |names| == 1 then names[0]
    else Join(names[..|names| - 1]) + "," + names[|names| - 1]
  }

  lemma {:induction false} ItemsAppend(s: string, t: string)
    requires ',' !in t
    ensures Items(s + "," + t) == Items(s) + [t]
    decreases |s|
  {
    var all := s + "," + t;
    var i := IndexOf(s, ',');
    Absent(s, i, ',');
    if i < |s| {
      assert all[..i] == s[..i];
      IndexOfIs(all, ',', i);
      assert all[i + 1..] == s[i + 1..] + "," + t;
      ItemsAppend(s[i + 1..], t);
    } else {
      assert all[..i] == s;
      IndexOfIs(all, ',', i);
      assert all[i + 1..] == t;
      OneItem(t);
    }
  }

  /** Joining and splitting again gives the names back. */
  lemma {:induction false} ItemsJoin(names: seq<string>)
    requires names != [] && forall n :: n in names ==> ',' !in n
    ensures Items(Join(names)) == names
  {
    hide Items;
    if |names| == 1 {
      assert names[0] in names;
      OneItem(names[0]);
    } else {
      var last := names[|names| - 1];
      assert last in names;
      ItemsJoin(names[..|names| - 1]);
      ItemsAppend(Join(names[..|names| - 1]), last);
    }
  }

  /** All pieces of s name an enabled method. */
  predicate AllEnabled(items: seq<string>, enabled: set<string>) {
    forall i :: 0 <= i < |items| ==> ParseElem(items[i]).name in enabled
  }

  lemma AllEnabledSplit(item: string, rest: seq<string>, enabled: set<string>)
    ensures AllEnabled([item] + rest, enabled) <==> ParseElem(item).name in enabled && AllEnabled(rest, enabled)
  {
    var items := [item] + rest;
    assert items[0] == item;
    assert forall i :: 0 <= i < |rest| ==> items[i + 1] == rest[i];
    if AllEnabled(items, enabled) {
      forall i | 0 <= i < |rest|
        ensures ParseElem(rest[i]).name in enabled
      {
        assert ParseElem(items[i + 1]).name in enabled;
      }
    }
  }

  lemma AllEnabledIs(methods: string, enabled: set<string>)
    ensures MethodsValid(methods, enabled) <==> methods != "" && AllEnabled(Items(methods), enabled)
    ensures AllEnabled([], enabled)
  {
    hide ParseElem, Items;
  }

  /** Look a name up in the table of methods; only an enabled one will do. */
  method FindEnabled(table: seq<Authmethod>, name: string) returns (found: bool)
    requires DistinctNames(table)
    ensures found <==> name in EnabledNames(table)
  {
    var i := 0;
    while i < |table|
      invariant i <= |table|
      invariant forall k :: 0 <= k < i ==> table[k].name != name
    {
      if table[i].name == name {
        EnabledAt(table, i);
        return table[i].enabled;
      }
      i := i + 1;
    }
    found := false;
  }

  /** auth2_methods_valid: walk the list with strsep, look each name up. */
  method CheckMethodsList(table: seq<Authmethod>, methods: string) returns (ok: bool)
    requires DistinctNames(table)
    ensures ok == MethodsValid(methods, EnabledNames(table))
  {
    ghost var enabled := EnabledNames(table);
    hide ParseElem, Items, AllEnabled;
    AllEnabledIs(methods, enabled);
    if methods == "" {
      return false;
    }
    var rest := Some(methods);
    while rest.Some?
      invariant AllEnabled(Items(methods), enabled) <==> (rest.Some? ==> AllEnabled(Items(rest.value), enabled))
      decreases if rest.Some? then |rest.value| + 1 else 0
    {
      var i := IndexOf(rest.value, ',');
      var item := rest.value[..i];
      ItemsSplit(rest.value);
      AllEnabledSplit(item, if i < |rest.value| then Items(rest.value[i + 1..]) else [], enabled);
      var found := FindEnabled(table, ParseElem(item).name);
      if !found {
        return false;
      }
      rest := if i < |rest.value| then Some(rest.value[i + 1..]) else None;
    }
    ok := true;
  }

  lemma NothingKept(enabled: set<string>)
    ensures KeepValid([], enabled) == []
  {
  }

  lemma KeepValidPush(lists: seq<string>, i: nat, enabled: set<string>)
    requires i < |lists|
    ensures KeepValid(lists[..i + 1], enabled)
         == KeepValid(lists[..i], enabled) + (if MethodsValid(lists[i], enabled) then [lists[i]] else [])
  {
    hide MethodsValid;
    KeepValidAppend(lists[..i], lists[i], enabled);
    assert lists[..i + 1] == lists[..i] + [lists[i]];
  }

  lemma {:induction false} KeepValidAppend(lists: seq<string>, s: string, enabled: set<string>)
    ensures KeepValid(lists + [s], enabled)
         == KeepValid(lists, enabled) + (if MethodsValid(s, enabled) then [s] else [])
  {
    hide MethodsValid;
    if lists == [] {
      assert lists + [s] == [s];
      assert [s][1..] == [];
    } else {
      assert (lists + [s])[1..] == lists[1..] + [s] && (lists + [s])[0] == lists[0];
      KeepValidAppend(lists[1..], s, enabled);
    }
  }

  /** The names offered to the client for its next try. */
  function Offered(table: seq<Authmethod>, c: Ctx): (r: seq<string>)
    ensures forall n :: n in r ==> exists i :: 0 <= i < |table| && table[i].name == n
  {
    if table == [] then []
    else
      var m := table[|table| - 1];
      Offered(table[..|table| - 1], c)
      + (if m.enabled && !IsNone(m.name) && MethodAllowed(c, m.name, None) then [m.name] else [])
  }

  lemma {:induction false} OfferedIff(table: seq<Authmethod>, c: Ctx, name: string)
    ensures name in Offered(table, c) <==>
              name in EnabledNames(table) && !IsNone(name) && MethodAllowed(c, name, None)
  {
    hide IsNone, MethodAllowed;
    if table != [] {
      var front, m := table[..|table| - 1], table[|table| - 1];
      OfferedIff(front, c, name);
      assert table == front + [m];
      assert EnabledNames(table) == EnabledNames(front) + (if m.enabled then {m.name} else {});
    }
  }

  /** The list in a failure packet names exactly the methods, other than none, that a next request may use. */
  lemma OfferedAreUsable(o: Options, table: seq<Authmethod>, c: Ctx, name: string)
    requires WellFormedOptions(o) && o.enabled == EnabledNames(table) && !IsNone(name)
    requires forall m :: m in table ==> ',' !in m.name
    ensures var list := Join(Offered(table, c));
            LookupOk(o, c, name) <==> Offered(table, c) != [] && name in Items(list)
  {
    hide IsNone, MethodAllowed, Items;
    OfferedIff(table, c, name);
    var names := Offered(table, c);
    if names != [] {
      forall n | n in names
        ensures ',' !in n
      {
        var i :| 0 <= i < |table| && table[i].name == n;
        assert table[i] in table;
      }
      ItemsJoin(names);
    }
  }

  /** A method that heads no list leaves every list as it is. */
  lemma {:induction false} UnmatchedUnchanged(lists: seq<string>, i: nat, meth: string, sub: Option<string>)
    requires i <= |lists|
    ensures var u := UpdateFrom(lists, i, meth, sub, false); u.found || (u.lists == lists && !u.complete)
    decreases |lists| - i
  {
    hide RemoveMethod;
    if i < |lists| {
      match RemoveMethod(lists[i], meth, sub)
      case None => UnmatchedUnchanged(lists, i + 1, meth, sub);
      case Some(rest) => UpdateNotFound(lists[i := rest], i + 1, meth, sub);
    }
  }

  class Authctxt {
    const o: Options
    const table: seq<Authmethod>

    var status: Status
    var attempt: nat
    var failures: nat
    var valid: bool
    var user: string
    var service: string
    var postponed: bool
    var exchange: Option<string>
    var serverCausedFailure: bool
    var noneUsed: bool
    var restricted: bool
    var authMethods: seq<string>
    var prevKeys: seq<Key>

    ghost var origins: seq<string>
    ghost var accepted: seq<Event>

    ghost function View(): Ctx
      reads this
    {
      Ctx(status, attempt, failures, valid, user, service, postponed, exchange, serverCausedFailure,
          noneUsed, restricted, authMethods, origins, prevKeys, accepted)
    }

    ghost predicate Valid()
      reads this
    {
      && WellFormedOptions(o) && DistinctNames(table) && o.enabled == EnabledNames(table)
      && (attempt == 0 ==> View() == InitialCtx())
    }

    constructor (o: Options, table: seq<Authmethod>)
      requires WellFormedOptions(o) && DistinctNames(table) && o.enabled == EnabledNames(table)
      ensures Valid() && View() == InitialCtx() && this.o == o && this.table == table
    {
      this.o, this.table := o, table;
      status, attempt, failures, valid, user, service := Awaiting, 0, 0, false, "", "";
      postponed, exchange, serverCausedFailure, noneUsed := false, None, false, false;
      restricted, authMethods, prevKeys := false, [], [];
      origins, accepted := [], [];
    }

    /** auth2_setup_methods_lists */
    method SetupMethodsLists() returns (ok: bool)
      requires DistinctNames(table) && o.enabled == EnabledNames(table)
      modifies this`restricted, this`authMethods, this`origins
      ensures var configured := Normalised(o.configured);
              && restricted == (configured != [])
              && (configured != [] ==> authMethods == KeepValid(configured, o.enabled) && origins == authMethods)
              && (configured == [] ==> authMethods == old(authMethods) && origins == old(origins))
              && ok == (configured == [] || authMethods != [])
    {
      hide MethodsValid;
      var configured := if |o.configured| == 1 && o.configured[0] == "any" then [] else o.configured;
      assert configured == Normalised(o.configured);
      restricted := configured != [];
      if configured == [] {
        return true;
      }
      authMethods := [];
      var i := 0;
      while i < |configured|
        invariant i <= |configured|
        invariant authMethods == KeepValid(configured[..i], o.enabled)
        invariant restricted == (configured != [])
      {
        KeepValidPush(configured, i, o.enabled);
        var listed := CheckMethodsList(table, configured[i]);
        if listed {
          authMethods := authMethods + [configured[i]];
        }
        i := i + 1;
      }
      assert configured[..|configured|] == configured;
      origins := authMethods;
      ok := authMethods != [];
    }

    /** auth2_method_allowed */
    method IsAllowed(meth: string, sub: Option<string>) returns (allowed: bool)
      ensures allowed == MethodAllowed(View(), meth, sub)
    {
      if !restricted {
        return true;
      }
      var i := 0;
      while i < |authMethods|
        invariant i <= |authMethods|
        invariant forall k :: 0 <= k < i ==> ListStartsWith(authMethods[k], meth, sub) == MatchNone
      {
        if ListStartsWith(authMethods[i], meth, sub) != MatchNone {
          return true;
        }
        i := i + 1;
      }
      allowed := false;
    }

    /** authmethods_get */
    method MethodsThatCanContinue() returns (list: string)
      ensures list == Join(Offered(table, View()))
    {
      hide IsNone, MethodAllowed;
      var names: seq<string> := [];
      list := "";
      var i := 0;
      while i < |table|
        invariant i <= |table|
        invariant names == Offered(table[..i], View()) && list == Join(names)
      {
        var m := table[i];
        assert table[..i + 1][..i] == table[..i];
        var allowed := IsAllowed(m.name, None);
        if !IsNone(m.name) && m.enabled && allowed {
          list := if names != [] then list + "," + m.name else m.name;
          assert (names + [m.name])[..|names|] == names;
          names := names + [m.name];
        }
        i := i + 1;
      }
      assert table[..|table|] == table;
    }

    /** authmethod_lookup */
    method Lookup(meth: string) returns (ok: bool)
      requires DistinctNames(table) && o.enabled == EnabledNames(table)
      ensures ok == LookupOk(o, View(), meth)
    {
      hide MethodAllowed;
      ok := FindEnabled(table, meth);
      if ok {
        ok := IsAllowed(meth, None);
        ok := ok && (IsNone(meth) ==> !noneUsed);
      }
    }

    /** auth2_update_methods_lists: cut the method off the head of each list, up to the first list it completes. */
    method UpdateMethodsLists(meth: string, sub: Option<string>) returns (complete: bool)
      modifies this`authMethods, this`status
      ensures var u := UpdateFrom(old(authMethods), 0, meth, sub, false);
              && authMethods == u.lists && complete == u.complete
              && status == if u.complete || u.found then old(status) else Died
    {
      hide RemoveMethod;
      var found := false;
      var i := 0;
      while i < |authMethods|
        invariant i <= |authMethods|
        invariant UpdateFrom(authMethods, i, meth, sub, found) == UpdateFrom(old(authMethods), 0, meth, sub, false)
        invariant status == old(status)
        decreases |authMethods| - i
      {
        var rest := RemoveMethod(authMethods[i], meth, sub);
        if rest.Some? {
          authMethods := authMethods[i := rest.value];
          found := true;
          if rest.value == "" {
            return true;
          }
        }
        i := i + 1;
      }
      if !found {
        status := Died;
      }
      complete := false;
    }

    /** auth2_key_already_used */
    method KeyAlreadyUsed(key: Key) returns (used: bool)
      ensures used <==> key in prevKeys
    {
      var i := 0;
      while i < |prevKeys|
        invariant i <= |prevKeys|
        invariant key !in prevKeys[..i]
      {
        if key == prevKeys[i] {
          return true;
        }
        i := i + 1;
      }
      used := false;
    }

    /** m->userauth of the method that was looked up, with its verdict v. */
    method TryUserauth(meth: string, v: Verdict) returns (authenticated: bool)
      modifies this`postponed, this`serverCausedFailure, this`exchange, this`noneUsed, this`prevKeys
      ensures var t := Userauth(old(View()), meth, v); View() == t.c && authenticated == t.authenticated
    {
      authenticated := false;
      if meth == Publickey() {
        if v.key.None? {
          postponed, serverCausedFailure := v.postponed, v.serverFault;
        } else {
          var used := KeyAlreadyUsed(v.key.value);
          if !used && valid {
            serverCausedFailure := v.serverFault;
            authenticated := v.ok;
            if authenticated {
              prevKeys := prevKeys + [v.key.value];
            }
          }
        }
      } else if IsExchange(meth) {
        postponed, serverCausedFailure := v.postponed, v.serverFault;
        exchange := if v.postponed then Some(meth) else None;
      } else {
        serverCausedFailure := v.serverFault;
        if IsNone(meth) {
          noneUsed := true;
        }
        authenticated := v.ok;
      }
    }

    /** The failure arm of userauth_finish. */
    method CountFailure(partial: bool, meth: string)
      requires status == Awaiting && attempt > 0
      modifies this`status, this`failures
      ensures View() == Fail(o, old(View()), partial, meth)
    {
      hide IsNone;
      if !partial && !serverCausedFailure && (attempt > 1 || !IsNone(meth)) {
        failures := failures + 1;
      }
      if failures >= o.maxTries {
        status := Disconnected;
      }
    }

    /** userauth_finish */
    method UserauthFinish(authenticated': bool, meth: string, sub: Option<string>, v: Verdict)
      requires Valid() && attempt > 0 && status == Awaiting
      modifies this`status, this`failures, this`authMethods, this`accepted
      ensures Valid() && View() == Finish(o, old(View()), authenticated', meth, sub, v)
    {
      hide UpdateFrom, EnabledNames, Fail;
      var authenticated, partial := authenticated', false;
      if authenticated && (!valid || postponed) {
        status := Died;
        return;
      }
      if authenticated && v.rootDenied {
        authenticated := false;
      }
      if authenticated && restricted {
        UnmatchedUnchanged(authMethods, 0, meth, sub);
        var complete := UpdateMethodsLists(meth, sub);
        if status == Died {
          return;
        }
        accepted := accepted + [Accepted(meth, sub, v)];
        if !complete {
          authenticated, partial := false, true;
        }
      } else if authenticated {
        accepted := accepted + [Accepted(meth, sub, v)];
      }
      if postponed {
        return;
      }
      if authenticated {
        status := if v.pamDenied then Died else Succeeded;
      } else {
        CountFailure(partial, meth);
      }
    }

    /** The first request fixes user and service; a later one must repeat them. */
    method AdmitRequest(user': string, service': string, pwOk: bool)
      requires Valid() && status == Awaiting
      modifies this
      ensures Valid() && View() == Admit(o, old(View()), user', service', pwOk)
    {
      hide Setup, InitialCtx, EnabledNames, Admit, WellFormedOptions, DistinctNames;
      AdmitCases(o, View(), user', service', pwOk);
      if attempt == 0 {
        SetupContext(user', service', pwOk);
      } else {
        attempt := attempt + 1;
        if user' != user || service' != service {
          status := Disconnected;
        }
      }
    }

    /** The first request sets the context up and prunes the lists. */
    method SetupContext(user': string, service': string, pwOk: bool)
      requires Valid() && attempt == 0
      modifies this
      ensures View() == Setup(o, old(View()), user', service', pwOk)
    {
      hide KeepValid, Normalised, EnabledNames, ConnectionService;
      NothingKept(o.enabled);
      attempt := 1;
      user, service := user', service';
      if pwOk && service' == ConnectionService() {
        valid := true;
      }
      var ok := SetupMethodsLists();
      if !ok {
        status := Disconnected;
      }
    }

    /** input_userauth_request, from a parsed packet. */
    method InputUserauthRequest(user': string, service': string, meth: string, v: Verdict)
      requires Valid() && status == Awaiting
      modifies this
      ensures Valid() && View() == Request(o, old(View()), user', service', meth, v)
    {
      hide Admit, TryMethod, Reset, EnabledNames, InitialCtx;
      var colon := IndexOf(user', ':');
      AdmitCounts(o, View(), user'[..colon], service', v.pwOk);
      AdmitRequest(user'[..colon], service', v.pwOk);
      if status != Awaiting {
        return;
      }
      TryRequested(meth, v);
    }

    /** Reset what an earlier request left, try the method and finish. */
    method TryRequested(meth: string, v: Verdict)
      requires Valid() && status == Awaiting && attempt > 0
      modifies this
      ensures Valid() && View() == TryMethod(o, Reset(old(View())), meth, v)
    {
      hide LookupOk, Userauth, Finish, EnabledNames, InitialCtx, Publickey;
      exchange, postponed, serverCausedFailure := None, false, false;
      var authenticated := false;
      var ok := Lookup(meth);
      if ok && failures < o.maxTries {
        ghost var before := View();
        UserauthEffect(before, meth, v);
        authenticated := TryUserauth(meth, v);
      }
      UserauthFinish(authenticated, meth, None, v);
    }

    /** input_userauth_info_response: the answer to an open exchange, and what the device makes of it. */
    method InputInfoResponse(sub: Option<string>, v: Verdict)
      requires Valid() && status == Awaiting && exchange.Some? && attempt > 0
      modifies this
      ensures Valid() && View() == Response(o, old(View()), sub, v)
    {
      hide Finish, EnabledNames;
      var meth := exchange.value;
      postponed := false;
      var authenticated := v.ok && valid;
      serverCausedFailure := v.serverFault;
      if !authenticated {
        postponed := v.postponed;
      }
      if !postponed {
        exchange := None;
      }
      UserauthFinish(authenticated, meth, sub, v);
    }
  }

  lemma AdmitCases(o: Options, c: Ctx, user: string, service: string, pwOk: bool)
    requires c.status == Awaiting
    ensures c.attempt == 0 ==> Admit(o, c, user, service, pwOk) == Setup(o, c, user, service, pwOk)
                               && Setup(o, c, user, service, pwOk).attempt == 1
    ensures var last := if user != c.user || service != c.service then Disconnected else Awaiting;
            c.attempt > 0 ==> Admit(o, c, user, service, pwOk) == c.(attempt := c.attempt + 1, status := last)
  {
    hide KeepValid, Normalised, ConnectionService;
  }

  lemma AdmitCounts(o: Options, c: Ctx, user: string, service: string, pwOk: bool)
    ensures Admit(o, c, user, service, pwOk).attempt == c.attempt + 1
  {
    hide KeepValid, Normalised;
  }
}

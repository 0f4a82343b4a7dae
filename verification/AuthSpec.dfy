/**
 The user authentication server of auth2.c as a state machine over requests (section 5 of
 RFC 4252), and what every run of it keeps.
 */
module AuthSpec {
  import opened Words
  import opened Optional
  import opened Strings
  import opened AuthLists

  /** A public key, compared as sshkey_equal_public does. */
  type Key = seq<byte>

  /** An accepted method, its submethod, and for publickey the key it used. */
  datatype Event = Event(meth: string, sub: Option<string>, key: Option<Key>)

  datatype Status = Awaiting | Succeeded | Disconnected | Died

  datatype Options = Options(maxTries: nat, configured: seq<string>, enabled: set<string>)

  /** The fields of Authctxt, with the history of accepted methods and the lists as configured. */
  datatype Ctx = Ctx(
    status: Status, attempt: nat, failures: nat, valid: bool, user: string, service: string,
    postponed: bool, exchange: Option<string>, serverFault: bool, noneUsed: bool,
    restricted: bool, lists: seq<string>, origins: seq<string>,
    keys: seq<Key>, accepted: seq<Event>)

  /** What the world answers to one request: passwd lookup, the method's verdict, policy. */
  datatype Verdict = Verdict(pwOk: bool, ok: bool, postponed: bool, serverFault: bool, key: Option<Key>,
                             rootDenied: bool, pamDenied: bool)

  function InitialCtx(): Ctx {
    Ctx(Awaiting, 0, 0, false, "", "", false, None, false, false, false, [], [], [], [])
  }

  predicate WellFormedOptions(o: Options) {
    o.maxTries >= 1 && forall m :: m in o.enabled ==> PlainName(m)
  }

  // ----- method lists

  /** auth2_methods_valid with need_enable set. */
  predicate MethodsValid(s: string, enabled: set<string>) {
    s != "" && forall i :: 0 <= i < |Items(s)| ==> ParseElem(Items(s)[i]).name in enabled
  }

  function KeepValid(lists: seq<string>, enabled: set<string>): (r: seq<string>)
    ensures forall s :: s in r ==> s in lists && MethodsValid(s, enabled)
  {
    if lists == [] then []
    else (if MethodsValid(lists[0], enabled) then [lists[0]] else []) + KeepValid(lists[1..], enabled)
  }

  /** "any" alone switches the restriction off. */
  function Normalised(configured: seq<string>): seq<string> {
    if configured == ["any"] then [] else configured
  }

  datatype Update = Update(lists: seq<string>, found: bool, complete: bool)

  /** auth2_update_methods_lists from list i on: it stops at the first list it completes. */
  function UpdateFrom(lists: seq<string>, i: nat, meth: string, sub: Option<string>, found: bool): (r: Update)
    requires i <= |lists|
    ensures |r.lists| == |lists|
    decreases |lists| - i
  {
    if i == |lists| then Update(lists, found, false)
    else
      match RemoveMethod(lists[i], meth, sub)
      case None => UpdateFrom(lists, i + 1, meth, sub, found)
      case Some(rest) =>
        if rest == "" then Update(lists[i := rest], true, true)
        else UpdateFrom(lists[i := rest], i + 1, meth, sub, true)
  }

  predicate MethodAllowed(c: Ctx, meth: string, sub: Option<string>) {
    c.restricted ==> exists i :: 0 <= i < |c.lists| && ListStartsWith(c.lists[i], meth, sub) != MatchNone
  }

  predicate LookupOk(o: Options, c: Ctx, meth: string) {
    meth in o.enabled && (IsNone(meth) ==> !c.noneUsed) && MethodAllowed(c, meth, None)
  }

  // ----- one request

  function UserPart(user: string): string {
    user[..IndexOf(user, ':')]
  }

  function ConnectionService(): string {
    "ssh-connection"
  }

  /** First request: fix user and service, and prune the lists. */
  function Setup(o: Options, c: Ctx, user: string, service: string, pwOk: bool): Ctx {
    var configured := Normalised(o.configured);
    var kept := KeepValid(configured, o.enabled);
    c.(attempt := c.attempt + 1, user := user, service := service, valid := pwOk && service == ConnectionService(),
       restricted := configured != [], lists := kept, origins := kept,
       status := if configured != [] && kept == [] then Disconnected else Awaiting)
  }

  function Publickey(): string {
    "publickey"
  }

  /** Methods that never decide at once but open an exchange. */
  predicate IsExchange(meth: string) {
    meth == "keyboard-interactive" || meth == "gssapi-with-mic"
  }

  predicate IsNone(meth: string) {
    meth == "none"
  }

  lemma ExchangeIsNotPublickey(meth: string)
    requires IsExchange(meth)
    ensures meth != Publickey()
  {
    assert |Publickey()| == 9;
  }

  function Accepted(meth: string, sub: Option<string>, v: Verdict): Event {
    Event(meth, sub, if meth == Publickey() then v.key else None)
  }

  datatype Tried = Tried(c: Ctx, authenticated: bool)

  /** m->userauth for each kind of method. */
  function Userauth(c: Ctx, meth: string, v: Verdict): Tried {
    if meth == Publickey() then
      match v.key
      case None => Tried(c.(postponed := v.postponed, serverFault := v.serverFault), false)
      case Some(k) =>
        if k in c.keys || !c.valid then Tried(c, false)
        else if v.ok then Tried(c.(keys := c.keys + [k], serverFault := v.serverFault), true)
        else Tried(c.(serverFault := v.serverFault), false)
    else if IsExchange(meth) then
      Tried(c.(postponed := v.postponed, exchange := if v.postponed then Some(meth) else None,
               serverFault := v.serverFault), false)
    else
      Tried(c.(noneUsed := c.noneUsed || IsNone(meth), serverFault := v.serverFault), v.ok)
  }

  /** The failure arm of userauth_finish. */
  function Fail(o: Options, c: Ctx, partial: bool, meth: string): Ctx {
    var counted := !partial && !c.serverFault && (c.attempt > 1 || !IsNone(meth));
    var d := c.(failures := if counted then c.failures + 1 else c.failures);
    if d.failures >= o.maxTries then d.(status := Disconnected) else d
  }

  /** userauth_finish */
  function Finish(o: Options, c: Ctx, authenticated: bool, meth: string, sub: Option<string>, v: Verdict): Ctx {
    if authenticated && (!c.valid || c.postponed) then c.(status := Died)
    else if !(authenticated && !v.rootDenied) then
      if c.postponed then c else Fail(o, c, false, meth)
    else
      var u := UpdateFrom(c.lists, 0, meth, sub, false);
      if c.restricted && !u.complete && !u.found then c.(status := Died)
      else
        var d := c.(lists := if c.restricted then u.lists else c.lists, accepted := c.accepted + [Accepted(meth, sub, v)]);
        if c.restricted && !u.complete then Fail(o, d, true, meth)
        else if v.pamDenied then d.(status := Died)
        else d.(status := Succeeded)
  }

  /** Set up the context on the first request; later ones may not change user or service. */
  function Admit(o: Options, c: Ctx, user: string, service: string, pwOk: bool): Ctx {
    if c.attempt == 0 then Setup(o, c, user, service, pwOk)
    else if user != c.user || service != c.service then c.(attempt := c.attempt + 1, status := Disconnected)
    else c.(attempt := c.attempt + 1)
  }

  function Reset(c: Ctx): Ctx {
    c.(exchange := None, postponed := false, serverFault := false)
  }

  function TryMethod(o: Options, c: Ctx, meth: string, v: Verdict): Ctx {
    if LookupOk(o, c, meth) && c.failures < o.maxTries then
      var t := Userauth(c, meth, v);
      Finish(o, t.c, t.authenticated, meth, None, v)
    else Finish(o, c, false, meth, None, v)
  }

  /** input_userauth_request */
  function Request(o: Options, c: Ctx, user: string, service: string, meth: string, v: Verdict): Ctx
    requires c.status == Awaiting
  {
    var d := Admit(o, c, UserPart(user), service, v.pwOk);
    if d.status != Awaiting then d else TryMethod(o, Reset(d), meth, v)
  }

  /** A reply inside an exchange that an earlier request left open. */
  function Response(o: Options, c: Ctx, sub: Option<string>, v: Verdict): Ctx
    requires c.status == Awaiting && c.exchange.Some?
  {
    var authenticated := v.ok && c.valid;
    var d := c.(postponed := !authenticated && v.postponed, serverFault := v.serverFault,
                exchange := if !authenticated && v.postponed then c.exchange else None);
    Finish(o, d, authenticated, c.exchange.value, sub, v)
  }

  datatype Input =
    | Ask(user: string, service: string, meth: string, v: Verdict)
    | Reply(sub: Option<string>, v: Verdict)

  predicate Acceptable(c: Ctx, i: Input) {
    c.status == Awaiting && (i.Reply? ==> c.exchange.Some? && PlainSub(i.sub))
  }

  function Step(o: Options, c: Ctx, i: Input): Ctx
    requires Acceptable(c, i)
  {
    match i
    case Ask(user, service, meth, v) => Request(o, c, user, service, meth, v)
    case Reply(sub, v) => Response(o, c, sub, v)
  }

  /** A run, and the inputs that drove it. */
  predicate IsRun(o: Options, inputs: seq<Input>, run: seq<Ctx>) {
    && |run| == |inputs| + 1 && run[0] == InitialCtx()
    && forall i :: 0 <= i < |inputs| ==> Acceptable(run[i], inputs[i]) && run[i + 1] == Step(o, run[i], inputs[i])
  }

  // ----- what accepted events satisfy

  /** The entries es are satisfied, in order, by a subsequence of the events. */
  predicate SatisfiedBy(es: seq<Elem>, evs: seq<Event>)
    decreases |evs|
  {
    if es == [] then true
    else if evs == [] then false
    else
      var e, ev := es[|es| - 1], evs[|evs| - 1];
      || (Satisfies(e, ev.meth, ev.sub) && SatisfiedBy(es[..|es| - 1], evs[..|evs| - 1]))
      || SatisfiedBy(es, evs[..|evs| - 1])
  }

  /** All of es is satisfied in order, its last entry by the last event. */
  predicate JustCompleted(es: seq<Elem>, evs: seq<Event>) {
    && es != [] && evs != []
    && Satisfies(es[|es| - 1], evs[|evs| - 1].meth, evs[|evs| - 1].sub)
    && SatisfiedBy(es[..|es| - 1], evs[..|evs| - 1])
  }

  lemma SatisfiedExtend(es: seq<Elem>, evs: seq<Event>, ev: Event)
    requires SatisfiedBy(es, evs)
    ensures SatisfiedBy(es, evs + [ev])
  {
    assert (evs + [ev])[..|evs|] == evs;
  }

  lemma SatisfiedPush(es: seq<Elem>, e: Elem, evs: seq<Event>, ev: Event)
    requires SatisfiedBy(es, evs) && Satisfies(e, ev.meth, ev.sub)
    ensures SatisfiedBy(es + [e], evs + [ev]) && JustCompleted(es + [e], evs + [ev])
  {
    assert (evs + [ev])[..|evs|] == evs && (es + [e])[..|es|] == es;
  }

  // ----- the invariant

  /** A list string is what is left of its original after a satisfied front. */
  predicate Progress(origin: string, rest: string, evs: seq<Event>) {
    var full, left := ListOf(origin), ListOf(rest);
    |left| <= |full| && left == full[|full| - |left|..] && SatisfiedBy(full[..|full| - |left|], evs)
  }

  predicate ListsInv(o: Options, c: Ctx) {
    && |c.lists| == |c.origins|
    && (forall i :: 0 <= i < |c.lists| ==> c.origins[i] in o.configured && Progress(c.origins[i], c.lists[i], c.accepted))
    && (c.restricted <==> c.attempt > 0 && Normalised(o.configured) != [])
  }

  /** Why a successful run may stop. */
  predicate Justified(o: Options, c: Ctx) {
    && c.valid
    && (Normalised(o.configured) != [] ==>
          exists i :: 0 <= i < |o.configured| && JustCompleted(ListOf(o.configured[i]), c.accepted))
  }

  predicate Inv(o: Options, c: Ctx) {
    && ListsInv(o, c)
    && (c.status == Awaiting ==> c.failures < o.maxTries)
    && (c.exchange.Some? ==> c.attempt > 0 && c.exchange.value in o.enabled && c.exchange.value != Publickey())
    && (c.status == Succeeded ==> c.attempt > 0 && Justified(o, c))
    && (forall i, j :: 0 <= i < j < |c.keys| ==> c.keys[i] != c.keys[j])
  }

  /** One list after an accepted event: untouched, or with its satisfied head popped. */
  lemma ProgressStep(origin: string, rest: string, evs: seq<Event>, ev: Event)
    requires Progress(origin, rest, evs) && PlainName(ev.meth) && PlainSub(ev.sub)
    ensures Progress(origin, rest, evs + [ev])
    ensures var r := RemoveMethod(rest, ev.meth, ev.sub);
            r.Some? ==> Progress(origin, r.value, evs + [ev]) && (r.value == "" ==> JustCompleted(ListOf(origin), evs + [ev]))
  {
    hide ListOf, RemoveMethod, Satisfies;
    var full, left := ListOf(origin), ListOf(rest);
    var k := |full| - |left|;
    SatisfiedExtend(full[..k], evs, ev);
    RemoveRefines(rest, ev.meth, ev.sub);
    NonEmptyList(rest);
    if RemoveMethod(rest, ev.meth, ev.sub).Some? {
      assert full[k] == left[0];
      SatisfiedPush(full[..k], full[k], evs, ev);
      assert full[..k] + [full[k]] == full[..k + 1];
      assert full[k..][1..] == full[k + 1..];
      EmptyList();
    }
  }

  lemma NonEmptyList(s: string)
    ensures s != "" <==> ListOf(s) != []
  {
  }

  lemma EmptyList()
    ensures ListOf("") == []
  {
  }

  predicate AllProgress(origins: seq<string>, lists: seq<string>, from: nat, to: nat, evs: seq<Event>)
    requires |origins| == |lists|
  {
    forall k :: from <= k < to && k < |lists| ==> Progress(origins[k], lists[k], evs)
  }

  lemma {:induction false} UpdateKeeps(origins: seq<string>, lists: seq<string>, i: nat, found: bool, evs: seq<Event>, ev: Event)
    requires |origins| == |lists| && i <= |lists| && PlainName(ev.meth) && PlainSub(ev.sub)
    requires AllProgress(origins, lists, 0, i, evs + [ev]) && AllProgress(origins, lists, i, |lists|, evs)
    ensures var u := UpdateFrom(lists, i, ev.meth, ev.sub, found);
            && AllProgress(origins, u.lists, 0, |lists|, evs + [ev])
            && (u.complete ==> exists k :: 0 <= k < |origins| && JustCompleted(ListOf(origins[k]), evs + [ev]))
    decreases |lists| - i
  {
    hide Progress, JustCompleted, RemoveMethod;
    if i < |lists| {
      ProgressStep(origins[i], lists[i], evs, ev);
      match RemoveMethod(lists[i], ev.meth, ev.sub)
      case None =>
        UpdateKeeps(origins, lists, i + 1, found, evs, ev);
      case Some(rest) =>
        var lists' := lists[i := rest];
        if rest == "" {
          forall k | i < k < |lists|
            ensures Progress(origins[k], lists[k], evs + [ev])
          {
            ProgressStep(origins[k], lists[k], evs, ev);
          }
        } else {
          UpdateKeeps(origins, lists', i + 1, true, evs, ev);
        }
    }
  }

  /** Without a match nothing is popped. */
  lemma {:induction false} UpdateNotFound(lists: seq<string>, i: nat, meth: string, sub: Option<string>)
    requires i <= |lists|
    ensures var u := UpdateFrom(lists, i, meth, sub, true); u.found
    decreases |lists| - i
  {
    hide RemoveMethod;
    if i < |lists| {
      match RemoveMethod(lists[i], meth, sub)
      case None => UpdateNotFound(lists, i + 1, meth, sub);
      case Some(rest) =>
        if rest != "" {
          UpdateNotFound(lists[i := rest], i + 1, meth, sub);
        }
    }
  }

  // ----- every step keeps the invariant

  /** What userauth_finish is called with. */
  predicate Ready(o: Options, c: Ctx) {
    WellFormedOptions(o) && Inv(o, c) && c.status == Awaiting && c.attempt > 0
  }

  lemma FailKeeps(o: Options, c: Ctx, partial: bool, meth: string)
    requires Ready(o, c)
    ensures Inv(o, Fail(o, c, partial, meth)) && Fail(o, c, partial, meth).status != Succeeded
  {
    hide Progress;
  }

  lemma FinishKeeps(o: Options, c: Ctx, authenticated: bool, meth: string, sub: Option<string>, v: Verdict)
    requires Ready(o, c) && (authenticated ==> PlainName(meth) && PlainSub(sub))
    ensures Inv(o, Finish(o, c, authenticated, meth, sub, v))
  {
    hide Progress, UpdateFrom, JustCompleted;
    if !(authenticated && (!c.valid || c.postponed)) {
      if authenticated && !v.rootDenied {
        AcceptKeeps(o, c, meth, sub, v);
      } else if !c.postponed {
        FailKeeps(o, c, false, meth);
      }
    }
  }

  lemma AcceptedIs(meth: string, sub: Option<string>, v: Verdict)
    ensures Accepted(meth, sub, v).meth == meth && Accepted(meth, sub, v).sub == sub
  {
  }

  /** The lists after an accepted event, and what completing one of them justifies. */
  lemma AcceptedLists(o: Options, c: Ctx, ev: Event, status: Status)
    requires Ready(o, c) && PlainName(ev.meth) && PlainSub(ev.sub) && c.valid
    ensures var u := UpdateFrom(c.lists, 0, ev.meth, ev.sub, false);
            var d := c.(lists := if c.restricted then u.lists else c.lists, accepted := c.accepted + [ev], status := status);
            ListsInv(o, d) && (!c.restricted || u.complete ==> Justified(o, d))
  {
    hide Progress, UpdateFrom, JustCompleted;
    UpdateKeeps(c.origins, c.lists, 0, false, c.accepted, ev);
    var u := UpdateFrom(c.lists, 0, ev.meth, ev.sub, false);
    if u.complete {
      var k :| 0 <= k < |c.origins| && JustCompleted(ListOf(c.origins[k]), c.accepted + [ev]);
      assert c.origins[k] in o.configured;
    }
    if !c.restricted {
      UnrestrictedProgress(o, c, ev);
    }
  }

  lemma AcceptKeeps(o: Options, c: Ctx, meth: string, sub: Option<string>, v: Verdict)
    requires Ready(o, c) && PlainName(meth) && PlainSub(sub) && c.valid && !c.postponed && !v.rootDenied
    ensures Inv(o, Finish(o, c, true, meth, sub, v))
  {
    hide ListsInv, Justified, UpdateFrom, Fail, Accepted;
    var ev := Accepted(meth, sub, v);
    AcceptedIs(meth, sub, v);
    AcceptedLists(o, c, ev, Awaiting);
    AcceptedLists(o, c, ev, Died);
    AcceptedLists(o, c, ev, Succeeded);
    var u := UpdateFrom(c.lists, 0, meth, sub, false);
    var d := c.(lists := if c.restricted then u.lists else c.lists, accepted := c.accepted + [ev]);
    if c.restricted && !u.complete && u.found {
      FailKeeps(o, d, true, meth);
    } else if c.restricted && !u.complete {
      DeadKeeps(o, c);
    }
  }

  lemma DeadKeeps(o: Options, c: Ctx)
    requires Ready(o, c)
    ensures Inv(o, c.(status := Died))
  {
    hide Progress;
  }

  lemma UnrestrictedProgress(o: Options, c: Ctx, ev: Event)
    requires ListsInv(o, c) && PlainName(ev.meth) && PlainSub(ev.sub)
    ensures ListsInv(o, c.(accepted := c.accepted + [ev]))
  {
    hide Progress;
    forall i | 0 <= i < |c.lists|
      ensures Progress(c.origins[i], c.lists[i], c.accepted + [ev])
    {
      ProgressStep(c.origins[i], c.lists[i], c.accepted, ev);
    }
  }

  lemma FreshProgress(s: string, evs: seq<Event>)
    ensures Progress(s, s, evs)
  {
    assert ListOf(s)[|ListOf(s)| - |ListOf(s)|..] == ListOf(s);
  }

  lemma SetupKeeps(o: Options, c: Ctx, user: string, service: string, pwOk: bool)
    requires WellFormedOptions(o) && Inv(o, c) && c.status == Awaiting && c.attempt == 0
    ensures Inv(o, Setup(o, c, user, service, pwOk))
  {
    hide Progress, MethodsValid;
    var d := Setup(o, c, user, service, pwOk);
    forall i | 0 <= i < |d.lists|
      ensures Progress(d.origins[i], d.lists[i], d.accepted)
    {
      FreshProgress(d.lists[i], d.accepted);
    }
    assert forall s :: s in Normalised(o.configured) ==> s in o.configured;
  }

  /** Everything a method leaves alone. */
  predicate SameButMethodState(c: Ctx, d: Ctx) {
    && d.status == c.status && d.attempt == c.attempt && d.failures == c.failures && d.valid == c.valid
    && d.user == c.user && d.service == c.service && d.restricted == c.restricted
    && d.lists == c.lists && d.origins == c.origins && d.accepted == c.accepted
  }

  lemma UserauthEffect(c: Ctx, meth: string, v: Verdict)
    ensures var t := Userauth(c, meth, v);
            && SameButMethodState(c, t.c)
            && (t.c.keys == c.keys || exists k :: k !in c.keys && t.c.keys == c.keys + [k])
            && (t.c.exchange == c.exchange || t.c.exchange == None
                || (t.c.exchange == Some(meth) && meth != Publickey()))
            && (t.authenticated && meth == Publickey() ==>
                  v.key.Some? && v.key.value !in c.keys && t.c.keys == c.keys + [v.key.value])
            && (forall k :: k in c.keys ==> k in t.c.keys)
  {
    if IsExchange(meth) {
      ExchangeIsNotPublickey(meth);
    }
    hide Publickey, IsExchange, IsNone;
    if meth == Publickey() && v.key.Some? && v.key.value !in c.keys && c.valid && v.ok {
      assert Userauth(c, meth, v).c.keys == c.keys + [v.key.value];
    }
  }

  lemma UserauthKeeps(o: Options, c: Ctx, meth: string, v: Verdict)
    requires Ready(o, c) && meth in o.enabled
    ensures Ready(o, Userauth(c, meth, v).c)
  {
    hide Progress, Userauth, JustCompleted, Publickey;
    UserauthEffect(c, meth, v);
  }

  lemma AdmitKeeps(o: Options, c: Ctx, user: string, service: string, pwOk: bool)
    requires WellFormedOptions(o) && Inv(o, c) && c.status == Awaiting
    ensures var d := Admit(o, c, user, service, pwOk); Inv(o, d) && (d.status == Awaiting ==> Ready(o, Reset(d)))
  {
    hide Inv, Ready, Reset, Setup;
    var d := Admit(o, c, user, service, pwOk);
    if c.attempt == 0 {
      SetupKeeps(o, c, user, service, pwOk);
      SetupCounts(o, c, user, service, pwOk);
    } else {
      CountKeeps(o, c, d);
    }
    if d.status == Awaiting {
      ResetKeeps(o, d);
    }
  }

  lemma CountKeeps(o: Options, c: Ctx, d: Ctx)
    requires Inv(o, c) && c.status == Awaiting && c.attempt > 0
    requires d == c.(attempt := c.attempt + 1, status := d.status) && (d.status == Awaiting || d.status == Disconnected)
    ensures Inv(o, d)
  {
    hide Progress, Justified, Normalised, Publickey;
  }

  lemma ResetKeeps(o: Options, d: Ctx)
    requires WellFormedOptions(o) && Inv(o, d) && d.status == Awaiting && d.attempt > 0
    ensures Ready(o, Reset(d))
  {
    hide Progress, Justified, Normalised, Publickey;
  }

  lemma RequestKeeps(o: Options, c: Ctx, user: string, service: string, meth: string, v: Verdict)
    requires WellFormedOptions(o) && Inv(o, c) && c.status == Awaiting
    ensures Inv(o, Request(o, c, user, service, meth, v))
  {
    hide Inv, Admit, Reset, Finish, Userauth, LookupOk, UserPart;
    AdmitKeeps(o, c, UserPart(user), service, v.pwOk);
    var d := Admit(o, c, UserPart(user), service, v.pwOk);
    if d.status == Awaiting {
      var e := Reset(d);
      if LookupOk(o, e, meth) && e.failures < o.maxTries {
        LookupEnabled(o, e, meth);
        UserauthKeeps(o, e, meth, v);
        var t := Userauth(e, meth, v);
        FinishKeeps(o, t.c, t.authenticated, meth, None, v);
      } else {
        FinishKeeps(o, e, false, meth, None, v);
      }
    }
  }

  lemma SetupCounts(o: Options, c: Ctx, user: string, service: string, pwOk: bool)
    ensures Setup(o, c, user, service, pwOk).attempt == c.attempt + 1
    ensures Setup(o, c, user, service, pwOk).status == Awaiting || Setup(o, c, user, service, pwOk).status == Disconnected
  {
  }

  lemma LookupEnabled(o: Options, c: Ctx, meth: string)
    requires LookupOk(o, c, meth)
    ensures meth in o.enabled
  {
  }

  lemma ResponseKeeps(o: Options, c: Ctx, sub: Option<string>, v: Verdict)
    requires WellFormedOptions(o) && Inv(o, c) && c.status == Awaiting && c.exchange.Some? && c.attempt > 0 && PlainSub(sub)
    ensures Inv(o, Response(o, c, sub, v))
  {
    hide Progress, Finish, Justified;
    var authenticated := v.ok && c.valid;
    var d := c.(postponed := !authenticated && v.postponed, serverFault := v.serverFault,
                exchange := if !authenticated && v.postponed then c.exchange else None);
    assert Ready(o, d);
    FinishKeeps(o, d, authenticated, c.exchange.value, sub, v);
  }

  // ----- each accepted publickey event spent a key of its own

  function EventsNamed(evs: seq<Event>, name: string): nat {
    if evs == [] then 0
    else EventsNamed(evs[..|evs| - 1], name) + (if evs[|evs| - 1].meth == name then 1 else 0)
  }

  function EntriesNamed(es: seq<Elem>, name: string): nat {
    if es == [] then 0
    else EntriesNamed(es[..|es| - 1], name) + (if es[|es| - 1].name == name then 1 else 0)
  }

  predicate ByKey(ev: Event) {
    ev.meth == Publickey()
  }

  /** Every accepted publickey event used a recorded key, and no two used the same. */
  predicate KeysSpent(c: Ctx) {
    && (forall i :: 0 <= i < |c.accepted| && ByKey(c.accepted[i]) ==>
          c.accepted[i].key.Some? && c.accepted[i].key.value in c.keys)
    && DifferentKeys(c.accepted)
  }

  predicate DifferentKeys(evs: seq<Event>) {
    forall i, j :: 0 <= i < j < |evs| && ByKey(evs[i]) && ByKey(evs[j]) ==> evs[i].key != evs[j].key
  }

  function KeysUsed(evs: seq<Event>): set<Key> {
    if evs == [] then {}
    else
      var last := evs[|evs| - 1];
      KeysUsed(evs[..|evs| - 1]) + (if ByKey(last) && last.key.Some? then {last.key.value} else {})
  }

  lemma {:induction false} UsedBySome(evs: seq<Event>, k: Key)
    requires k in KeysUsed(evs)
    ensures exists i :: 0 <= i < |evs| && ByKey(evs[i]) && evs[i].key == Some(k)
  {
    hide ByKey;
    var n := |evs| - 1;
    if k in KeysUsed(evs[..n]) {
      UsedBySome(evs[..n], k);
      var i :| 0 <= i < n && ByKey(evs[..n][i]) && evs[..n][i].key == Some(k);
      assert ByKey(evs[i]);
    } else {
      assert ByKey(evs[n]);
    }
  }

  /** Different keys are as many as the events that used them. */
  lemma {:induction false} KeysUsedCount(evs: seq<Event>)
    requires DifferentKeys(evs) && forall i :: 0 <= i < |evs| && ByKey(evs[i]) ==> evs[i].key.Some?
    ensures |KeysUsed(evs)| == EventsNamed(evs, Publickey())
  {
    hide Publickey;
    if evs != [] {
      var n := |evs| - 1;
      var front := evs[..n];
      assert forall i :: 0 <= i < n ==> front[i] == evs[i];
      KeysUsedCount(front);
      if ByKey(evs[n]) && evs[n].key.value in KeysUsed(front) {
        UsedBySome(front, evs[n].key.value);
        assert false;
      }
    }
  }

  lemma FinishSpends(o: Options, c: Ctx, authenticated: bool, meth: string, sub: Option<string>, v: Verdict)
    requires KeysSpent(c)
    requires authenticated && meth == Publickey() ==>
               v.key.Some? && v.key.value in c.keys
               && forall i :: 0 <= i < |c.accepted| && ByKey(c.accepted[i]) ==> c.accepted[i].key != v.key
    ensures KeysSpent(Finish(o, c, authenticated, meth, sub, v))
  {
    hide Finish, KeysSpent, Publickey;
    FinishHistory(o, c, authenticated, meth, sub, v);
    StillSpent(c, Finish(o, c, authenticated, meth, sub, v), Accepted(meth, sub, v));
  }

  lemma FinishHistory(o: Options, c: Ctx, authenticated: bool, meth: string, sub: Option<string>, v: Verdict)
    ensures var d := Finish(o, c, authenticated, meth, sub, v);
            && d.keys == c.keys
            && (d.accepted == c.accepted || (authenticated && d.accepted == c.accepted + [Accepted(meth, sub, v)]))
  {
    hide UpdateFrom, Accepted;
  }

  lemma StillSpent(c: Ctx, d: Ctx, ev: Event)
    requires KeysSpent(c) && d.keys == c.keys
    requires d.accepted == c.accepted || d.accepted == c.accepted + [ev]
    requires d.accepted != c.accepted && ByKey(ev) ==>
               ev.key.Some? && ev.key.value in c.keys
               && forall i :: 0 <= i < |c.accepted| && ByKey(c.accepted[i]) ==> c.accepted[i].key != ev.key
    ensures KeysSpent(d)
  {
    hide ByKey;
  }

  lemma StepSpends(o: Options, c: Ctx, i: Input)
    requires Acceptable(c, i) && KeysSpent(c) && (c.exchange.Some? ==> c.exchange.value != Publickey())
    ensures KeysSpent(Step(o, c, i))
  {
    hide Finish, LookupOk, KeepValid, Normalised, Publickey;
    match i
    case Reply(sub, v) =>
      var authenticated := v.ok && c.valid;
      var d := c.(postponed := !authenticated && v.postponed, serverFault := v.serverFault,
                  exchange := if !authenticated && v.postponed then c.exchange else None);
      FinishSpends(o, d, authenticated, c.exchange.value, sub, v);
    case Ask(user, service, meth, v) =>
      RequestSpends(o, c, user, service, meth, v);
  }

  lemma AdmitSpendsNothing(o: Options, c: Ctx, user: string, service: string, pwOk: bool)
    ensures var d := Reset(Admit(o, c, user, service, pwOk)); d.keys == c.keys && d.accepted == c.accepted
    ensures var d := Admit(o, c, user, service, pwOk); d.keys == c.keys && d.accepted == c.accepted
  {
    hide KeepValid, Normalised;
  }

  lemma RequestSpends(o: Options, c: Ctx, user: string, service: string, meth: string, v: Verdict)
    requires c.status == Awaiting && KeysSpent(c)
    ensures KeysSpent(Request(o, c, user, service, meth, v))
  {
    hide Finish, LookupOk, Admit, Reset, Userauth, UserPart, Publickey, ByKey, DifferentKeys;
    AdmitSpendsNothing(o, c, UserPart(user), service, v.pwOk);
    var e := Reset(Admit(o, c, UserPart(user), service, v.pwOk));
    var t := Userauth(e, meth, v);
    UserauthEffect(e, meth, v);
    FinishSpends(o, t.c, t.authenticated, meth, None, v);
    FinishSpends(o, e, false, meth, None, v);
  }

  lemma {:induction false} EntriesNeedEvents(es: seq<Elem>, evs: seq<Event>, name: string)
    requires SatisfiedBy(es, evs)
    ensures EntriesNamed(es, name) <= EventsNamed(evs, name)
    decreases |evs|
  {
    if es != [] {
      var e, ev := es[|es| - 1], evs[|evs| - 1];
      if Satisfies(e, ev.meth, ev.sub) && SatisfiedBy(es[..|es| - 1], evs[..|evs| - 1]) {
        EntriesNeedEvents(es[..|es| - 1], evs[..|evs| - 1], name);
      } else {
        EntriesNeedEvents(es, evs[..|evs| - 1], name);
      }
    }
  }

  // ----- main results, for every state of every run

  lemma StepKeeps(o: Options, c: Ctx, i: Input)
    requires WellFormedOptions(o) && Inv(o, c) && Acceptable(c, i)
    ensures Inv(o, Step(o, c, i))
  {
    hide Request, Response, ListsInv, Justified;
    match i
    case Ask(user, service, meth, v) => RequestKeeps(o, c, user, service, meth, v);
    case Reply(sub, v) => ResponseKeeps(o, c, sub, v);
  }

  lemma {:induction false} RunKeeps(o: Options, inputs: seq<Input>, run: seq<Ctx>, k: nat)
    requires WellFormedOptions(o) && IsRun(o, inputs, run) && k < |run|
    ensures Inv(o, run[k]) && KeysSpent(run[k])
  {
    hide Step, ListsInv, Justified;
    if k == 0 {
      InitialKeeps(o);
    } else {
      RunKeeps(o, inputs, run, k - 1);
      StepKeeps(o, run[k - 1], inputs[k - 1]);
      StepSpends(o, run[k - 1], inputs[k - 1]);
      assert run[k - 1 + 1] == Step(o, run[k - 1], inputs[k - 1]);
    }
  }

  lemma InitialKeeps(o: Options)
    requires WellFormedOptions(o)
    ensures Inv(o, InitialCtx()) && KeysSpent(InitialCtx())
  {
  }

  /**
   A run that succeeds authenticated a valid user; if AuthenticationMethods is configured, its
   accepted events contain one whole configured list in order, completed by the last of them.
   */
  lemma SuccessCompletesAList(o: Options, inputs: seq<Input>, run: seq<Ctx>, k: nat)
    requires WellFormedOptions(o) && IsRun(o, inputs, run) && k < |run| && run[k].status == Succeeded
    ensures run[k].valid
    ensures Normalised(o.configured) != [] ==>
              exists i :: 0 <= i < |o.configured| && JustCompleted(ListOf(o.configured[i]), run[k].accepted)
  {
    hide ListsInv, JustCompleted;
    RunKeeps(o, inputs, run, k);
  }

  /** Counted failures stay below the limit whenever the server waits for a request. */
  lemma FailuresStayBelowLimit(o: Options, inputs: seq<Input>, run: seq<Ctx>, k: nat)
    requires WellFormedOptions(o) && IsRun(o, inputs, run) && k < |run| && run[k].status == Awaiting
    ensures run[k].failures < o.maxTries
  {
    hide ListsInv, Justified;
    RunKeeps(o, inputs, run, k);
  }

  /**
   Accepted publickey events at different positions used different keys, and completing a list
   took as many different keys as the list has publickey entries.
   */
  lemma EveryPublickeyNeedsItsOwnKey(o: Options, inputs: seq<Input>, run: seq<Ctx>, k: nat)
    requires WellFormedOptions(o) && IsRun(o, inputs, run) && k < |run|
    ensures var evs := run[k].accepted;
            && (forall i :: 0 <= i < |evs| && evs[i].meth == Publickey() ==> evs[i].key.Some?)
            && (forall i, j :: 0 <= i < j < |evs| && evs[i].meth == evs[j].meth == Publickey() ==> evs[i].key != evs[j].key)
    ensures forall es :: JustCompleted(es, run[k].accepted) ==>
                           |KeysUsed(run[k].accepted)| >= EntriesNamed(es, Publickey())
  {
    hide ListsInv, Justified, IsRun, Inv, Publickey;
    RunKeeps(o, inputs, run, k);
    var evs := run[k].accepted;
    KeysUsedCount(evs);
    forall i, j | 0 <= i < j < |evs| && evs[i].meth == evs[j].meth == Publickey()
      ensures evs[i].key != evs[j].key
    {
      assert ByKey(evs[i]) && ByKey(evs[j]);
    }
    assert forall i :: 0 <= i < |evs| && evs[i].meth == Publickey() ==> ByKey(evs[i]);
    forall es | JustCompleted(es, evs)
      ensures |KeysUsed(evs)| >= EntriesNamed(es, Publickey())
    {
      EntriesNeedEvents(es, evs, Publickey());
    }
  }

  /** After the first request user, service and validity never change. */
  lemma {:induction false} IdentityIsFixed(o: Options, inputs: seq<Input>, run: seq<Ctx>, j: nat, k: nat)
    requires IsRun(o, inputs, run) && j <= k < |run| && run[j].attempt > 0
    ensures run[k].attempt > 0 && run[k].user == run[j].user && run[k].service == run[j].service
    ensures run[k].valid == run[j].valid
  {
    hide Step;
    if j < k {
      IdentityIsFixed(o, inputs, run, j, k - 1);
      assert run[k - 1 + 1] == Step(o, run[k - 1], inputs[k - 1]);
      StepFixesIdentity(o, run[k - 1], inputs[k - 1]);
    }
  }

  predicate SameIdentity(c: Ctx, d: Ctx) {
    d.attempt >= c.attempt && d.user == c.user && d.service == c.service && d.valid == c.valid
  }

  lemma FinishFixesIdentity(o: Options, c: Ctx, authenticated: bool, meth: string, sub: Option<string>, v: Verdict)
    ensures SameIdentity(c, Finish(o, c, authenticated, meth, sub, v))
  {
    hide UpdateFrom;
  }

  lemma StepFixesIdentity(o: Options, c: Ctx, i: Input)
    requires Acceptable(c, i) && c.attempt > 0
    ensures SameIdentity(c, Step(o, c, i))
  {
    hide Request, Response;
    match i
    case Reply(sub, v) => ResponseFixesIdentity(o, c, sub, v);
    case Ask(user, service, meth, v) => RequestFixesIdentity(o, c, user, service, meth, v);
  }

  lemma ResponseFixesIdentity(o: Options, c: Ctx, sub: Option<string>, v: Verdict)
    requires c.status == Awaiting && c.exchange.Some?
    ensures SameIdentity(c, Response(o, c, sub, v))
  {
    hide Finish;
    var authenticated := v.ok && c.valid;
    var d := c.(postponed := !authenticated && v.postponed, serverFault := v.serverFault,
                exchange := if !authenticated && v.postponed then c.exchange else None);
    FinishFixesIdentity(o, d, authenticated, c.exchange.value, sub, v);
  }

  lemma RequestFixesIdentity(o: Options, c: Ctx, user: string, service: string, meth: string, v: Verdict)
    requires c.status == Awaiting && c.attempt > 0
    ensures SameIdentity(c, Request(o, c, user, service, meth, v))
  {
    hide SameIdentity, Admit, Reset, TryMethod, UserPart;
    var d := Admit(o, c, UserPart(user), service, v.pwOk);
    AdmitFixesIdentity(o, c, UserPart(user), service, v.pwOk);
    if d.status == Awaiting {
      TryFixesIdentity(o, Reset(d), meth, v);
      IdentityTwice(c, Reset(d), TryMethod(o, Reset(d), meth, v));
    }
  }

  lemma AdmitFixesIdentity(o: Options, c: Ctx, user: string, service: string, pwOk: bool)
    requires c.attempt > 0
    ensures var d := Admit(o, c, user, service, pwOk); SameIdentity(c, d) && SameIdentity(c, Reset(d))
  {
    hide Setup;
  }

  lemma TryFixesIdentity(o: Options, c: Ctx, meth: string, v: Verdict)
    ensures SameIdentity(c, TryMethod(o, c, meth, v))
  {
    hide Finish, LookupOk, Userauth, SameIdentity, SameButMethodState;
    var t := Userauth(c, meth, v);
    UserauthEffect(c, meth, v);
    MethodFixesIdentity(c, t.c);
    FinishFixesIdentity(o, t.c, t.authenticated, meth, None, v);
    IdentityTwice(c, t.c, Finish(o, t.c, t.authenticated, meth, None, v));
    FinishFixesIdentity(o, c, false, meth, None, v);
  }

  lemma MethodFixesIdentity(c: Ctx, d: Ctx)
    requires SameButMethodState(c, d)
    ensures SameIdentity(c, d)
  {
  }

  lemma IdentityTwice(c: Ctx, d: Ctx, e: Ctx)
    requires SameIdentity(c, d) && SameIdentity(d, e)
    ensures SameIdentity(c, e)
  {
  }
}

/**
 AuthenticationMethods lists.  The server keeps each list as a comma-separated C string and cuts
 finished methods off its front; here those string operations refine popping a list of elements.
 */
module AuthLists {
  import opened Optional
  import opened Strings

  /** One entry "name" or "name:submethod". */
  datatype Elem = Elem(name: string, sub: Option<string>)

  datatype Match = MatchNone | MatchMethod | MatchBoth | MatchPartial

  // ----- what the strings stand for

  function FirstItem(s: string): string {
    s[..IndexOf(s, ',')]
  }

  function AfterComma(s: string): (r: string)
    ensures s != "" ==> |r| < |s|
  {
    var i := IndexOf(s, ',');
    if i < |s| then s[i + 1..] else ""
  }

  function ParseElem(item: string): Elem {
    var i := IndexOf(item, ':');
    Elem(item[..i], if i < |item| then Some(item[i + 1..]) else None)
  }

  function ListOf(s: string): seq<Elem>
    decreases |s|
  {
    if s == "" then [] else [ParseElem(FirstItem(s))] + ListOf(AfterComma(s))
  }

  /** Does an accepted (method, submethod) satisfy a list entry, and how much of it was checked? */
  function HeadMatch(e: Elem, meth: string, sub: Option<string>): Match {
    if e.name != meth then MatchNone
    else if e.sub == None then MatchMethod
    else if sub == None then MatchPartial
    else if e.sub == sub then MatchBoth
    else MatchNone
  }

  predicate Satisfies(e: Elem, meth: string, sub: Option<string>) {
    HeadMatch(e, meth, sub) == MatchMethod || HeadMatch(e, meth, sub) == MatchBoth
  }

  /** A method name as it appears in authmethods[]. */
  predicate PlainName(m: string) {
    m != "" && ',' !in m && ':' !in m
  }

  predicate PlainSub(sub: Option<string>) {
    sub.Some? ==> ',' !in sub.value
  }

  // ----- the C string operations

  /** strncmp(s, prefix, strlen(prefix)) == 0 from position at. */
  predicate HasPrefixAt(s: string, at: nat, prefix: string) {
    at + |prefix| <= |s| && s[at..at + |prefix|] == prefix
  }

  predicate ItemEndsAt(s: string, p: nat)
    requires p <= |s|
  {
    p == |s| || s[p] == ','
  }

  function ListStartsWith(methods: string, meth: string, sub: Option<string>): Match {
    if !HasPrefixAt(methods, 0, meth) then MatchNone
    else
      var p := |meth|;
      if p < |methods| && methods[p] == ':' then
        if sub == None then MatchPartial
        else if !HasPrefixAt(methods, p + 1, sub.value) then MatchNone
        else if ItemEndsAt(methods, p + 1 + |sub.value|) then MatchBoth
        else MatchNone
      else if ItemEndsAt(methods, p) then MatchMethod
      else MatchNone
  }

  /** remove_method: the remaining string when the list starts with the method, else nothing. */
  function RemoveMethod(methods: string, meth: string, sub: Option<string>): Option<string> {
    var m := ListStartsWith(methods, meth, sub);
    if m != MatchMethod && m != MatchBoth then None
    else
      var p := |meth| + (if sub.Some? && m == MatchBoth then 1 + |sub.value| else 0);
      Some(methods[if p < |methods| && methods[p] == ',' then p + 1 else p..])
  }

  // ----- refinement

  lemma {:induction false} StartsWithRefines(s: string, meth: string, sub: Option<string>)
    requires PlainName(meth) && PlainSub(sub)
    ensures ListStartsWith(s, meth, sub) == if s == "" then MatchNone else HeadMatch(ListOf(s)[0], meth, sub)
  {
    if s != "" {
      var item := FirstItem(s);
      var e := ParseElem(item);
      assert ListOf(s)[0] == e;
      var n := IndexOf(s, ',');
      if HasPrefixAt(s, 0, meth) {
        PrefixWithinItem(s, meth, sub);
      } else {
        NameIsPrefix(s);
      }
    }
  }

  /** The name of the first entry is a prefix of the string. */
  lemma NameIsPrefix(s: string)
    ensures HasPrefixAt(s, 0, ParseElem(FirstItem(s)).name)
  {
    var item := FirstItem(s);
    var name := ParseElem(item).name;
    assert name == item[..|name|] == s[..|name|];
  }

  lemma PrefixWithinItem(s: string, meth: string, sub: Option<string>)
    requires s != "" && PlainName(meth) && PlainSub(sub) && HasPrefixAt(s, 0, meth)
    ensures ListStartsWith(s, meth, sub) == HeadMatch(ParseElem(FirstItem(s)), meth, sub)
  {
    var p, n := |meth|, IndexOf(s, ',');
    assert s[..p] == meth;
    Absent(s, n, ',');
    var item := FirstItem(s);
    assert item[..p] == meth;
    if p < |s| && s[p] == ':' {
      IndexOfIs(item, ':', p);
      var rest := item[p + 1..];
      assert ParseElem(item) == Elem(meth, Some(rest));
      assert rest == s[p + 1..n];
      if sub.Some? {
        SubmethodIs(s, p + 1, sub.value);
      }
    } else if p == n {
      assert ':' !in item;
      IndexOfIs(item, ':', p);
    } else {
      var k := IndexOf(item, ':');
      Absent(item, k, ':');
      assert k > p;
    }
  }

  /** From position at on, the comma-free sub ends an item exactly when it is the rest of that item. */
  lemma SubmethodIs(s: string, at: nat, sub: string)
    requires at <= IndexOf(s, ',') && ',' !in sub
    ensures s[at..IndexOf(s, ',')] == sub <==> HasPrefixAt(s, at, sub) && ItemEndsAt(s, at + |sub|)
  {
    var n := IndexOf(s, ',');
    var m := at + |sub|;
    Absent(s, n, ',');
    if HasPrefixAt(s, at, sub) && ItemEndsAt(s, m) {
      assert forall k :: at <= k < m ==> s[k] == sub[k - at];
    }
  }

  /** Cutting a method off the string pops the head of the list, and happens only if the head is satisfied. */
  lemma RemoveRefines(s: string, meth: string, sub: Option<string>)
    requires PlainName(meth) && PlainSub(sub)
    ensures var r := RemoveMethod(s, meth, sub);
            (r.Some? <==> s != "" && Satisfies(ListOf(s)[0], meth, sub))
            && (r.Some? ==> ListOf(r.value) == ListOf(s)[1..])
  {
    hide ListOf, ListStartsWith, HeadMatch, PlainName, PlainSub;
    StartsWithRefines(s, meth, sub);
    BothHasSub(s, meth, sub);
    var r := RemoveMethod(s, meth, sub);
    if r.Some? {
      var m := ListStartsWith(s, meth, sub);
      var p := |meth| + (if sub.Some? && m == MatchBoth then 1 + |sub.value| else 0);
      NoCommaBefore(s, meth, sub, p);
      IndexOfIs(s, ',', p);
      assert r.value == AfterComma(s);
      ListTail(s);
    }
  }

  lemma BothHasSub(s: string, meth: string, sub: Option<string>)
    ensures ListStartsWith(s, meth, sub) == MatchBoth ==> sub.Some?
  {
  }

  lemma ListTail(s: string)
    requires s != ""
    ensures ListOf(s) != [] && ListOf(s)[1..] == ListOf(AfterComma(s))
  {
  }

  lemma NoCommaBefore(s: string, meth: string, sub: Option<string>, p: nat)
    requires PlainName(meth) && PlainSub(sub)
    requires var m := ListStartsWith(s, meth, sub);
             (m == MatchMethod && p == |meth|) || (m == MatchBoth && p == |meth| + 1 + |sub.value|)
    ensures p <= |s| && ',' !in s[..p] && ItemEndsAt(s, p)
  {
    assert s[..|meth|] == meth;
    if ListStartsWith(s, meth, sub) == MatchBoth {
      assert s[..p] == meth + ":" + sub.value;
    }
  }
}

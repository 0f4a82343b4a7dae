/**
 Matching an address against a list of networks and wildcard patterns (addrmatch.c, with
 addr_pton_cidr of addr.c and match_pattern of match.c).  Numeric parsing by the C library is a
 parameter.
 */
module AddrMatch {
  import opened Optional
  import opened Strings
  import opened Addr

  // ----- wildcards

  /** * stands for any characters, ? for any one. */
  predicate Matches(s: string, p: string)
    decreases |p| + |s|
  {
    if p == "" then s == ""
    else if p[0] == '*' then Matches(s, p[1..]) || (s != "" && Matches(s[1..], p))
    else s != "" && (p[0] == '?' || p[0] == s[0]) && Matches(s[1..], p[1..])
  }

  /** A leading star matches what the rest matches from some position on. */
  lemma {:induction false} StarMatches(s: string, p: string)
    requires p != "" && p[0] == '*'
    ensures Matches(s, p) <==> exists j :: 0 <= j <= |s| && Matches(s[j..], p[1..])
    decreases |s|
  {
    var q := p[1..];
    if s == "" {
      assert s[0..] == s;
    } else {
      StarMatches(s[1..], p);
      assert s[0..] == s;
      if Matches(s[1..], p) {
        var j :| 0 <= j <= |s| - 1 && Matches(s[1..][j..], q);
        assert s[1..][j..] == s[j + 1..];
      }
      if j :| 1 <= j <= |s| && Matches(s[j..], q) {
        assert s[1..][j - 1..] == s[j..];
      }
    }
  }

  lemma TwoStars(s: string, p: string)
    requires |p| >= 2 && p[0] == '*' && p[1] == '*'
    ensures Matches(s, p) <==> Matches(s, p[1..])
  {
    StarMatches(s, p);
    StarMatches(s, p[1..]);
    if j :| 0 <= j <= |s| && Matches(s[j..], p[1..]) {
      StarMatches(s[j..], p[1..]);
      var k :| 0 <= k <= |s| - j && Matches(s[j..][k..], p[2..]);
      assert s[j..][k..] == s[j + k..];
      assert p[1..][1..] == p[2..];
    }
  }

  lemma {:induction false} StarAlone(s: string, p: string)
    requires p == "*"
    ensures Matches(s, p)
  {
    StarMatches(s, p);
    assert s[|s|..] == "" && p[1..] == "";
    assert Matches(s[|s|..], p[1..]);
  }

  /** match_pattern */
  method MatchPattern(s0: string, p0: string) returns (r: bool)
    ensures r == Matches(s0, p0)
    decreases |p0|, 0
  {
    var s, p := s0, p0;
    while true
      invariant |p| <= |p0| && Matches(s, p) == Matches(s0, p0)
      decreases |p|
    {
      if p == "" {
        return s == "";
      }
      if p[0] == '*' {
        ghost var star := p;
        p := p[1..];
        while p != "" && p[0] == '*'
          invariant |star| == |p| + 1 <= |p0| && star[0] == '*' && star[1..] == p
          invariant Matches(s, star) == Matches(s0, p0)
          decreases |p|
        {
          TwoStars(s, star);
          star := p;
          p := p[1..];
        }
        if p == "" {
          StarAlone(s, star);
          return true;
        }
        StarMatches(s, star);
        r := MatchLater(s, p);
        return;
      }
      if s == "" || (p[0] != '?' && p[0] != s[0]) {
        return false;
      }
      s, p := s[1..], p[1..];
    }
  }

  /** After a star: try the rest at each position, skipping ahead to its first character if that is known. */
  method MatchLater(s: string, p: string) returns (r: bool)
    requires p != "" && p[0] != '*'
    ensures r <==> exists j :: 0 <= j <= |s| && Matches(s[j..], p)
    decreases |p|, 1
  {
    if p[0] != '?' {
      for i := 0 to |s|
        invariant forall j :: 0 <= j < i ==> !Matches(s[j..], p)
      {
        if s[i] == p[0] {
          r := MatchPattern(s[i + 1..], p[1..]);
          assert s[i..][1..] == s[i + 1..];
          if r {
            assert Matches(s[i..], p);
            return true;
          }
        }
      }
      return false;
    }
    for i := 0 to |s|
      invariant forall j :: 0 <= j < i ==> !Matches(s[j..], p)
    {
      r := MatchPattern(s[i..], p);
      if r {
        return true;
      }
    }
    r := false;
  }

  // ----- one network in address/length form

  /** getaddrinfo on a numeric host, and strtoul; the latter fails on an empty or partly numeric string. */
  datatype Library = Library(pton: string -> Option<Xaddr>, strtoul: string -> Option<nat>)

  datatype Cidr = NotCidr | Inconsistent | Network(net: Xaddr, masklen: nat)

  /** What the text of an entry says, if it is a network at all. */
  function CidrOf(lib: Library, p: string): (r: Cidr)
    ensures r.Network? ==> MasklenValid(r.net.af, r.masklen) && ZeroFrom(r.net.bytes, r.masklen, Width(r.net.af))
  {
    var slash := IndexOf(p, '/');
    if |p| >= 64 then NotCidr
    else if slash < |p| && (p[slash + 1..] == "" || lib.strtoul(p[slash + 1..]) == None) then NotCidr
    else if slash < |p| && lib.strtoul(p[slash + 1..]).value > 128 then NotCidr
    else
      match lib.pton(p[..slash])
      case None => NotCidr
      case Some(a) =>
        var l := if slash < |p| then lib.strtoul(p[slash + 1..]).value else Width(a.af);
        if MasklenValid(a.af, l) && ZeroFrom(a.bytes, l, Width(a.af)) then Network(a, l) else Inconsistent
  }

  /** addr_pton_cidr: 0, -1 for a parse error, -2 for an inconsistent length. */
  method PtonCidr(lib: Library, p: string) returns (r: int, net: Xaddr, masklen: nat)
    ensures match CidrOf(lib, p)
            case NotCidr => r == -1
            case Inconsistent => r == -2
            case Network(n, l) => r == 0 && net == n && masklen == l
  {
    net, masklen := Address(Inet, seq(16, _ => 0), 0), 999;
    if |p| >= 64 {
      return -1, net, masklen;
    }
    var slash := IndexOf(p, '/');
    if slash < |p| {
      var parsed := lib.strtoul(p[slash + 1..]);
      if p[slash + 1..] == "" || parsed == None || parsed.value > 128 {
        return -1, net, masklen;
      }
      masklen := parsed.value;
    }
    var tmp := lib.pton(p[..slash]);
    if tmp == None {
      return -1, net, masklen;
    }
    if slash == |p| {
      masklen := Width(tmp.value.af);
    }
    if !MasklenValid(tmp.value.af, masklen) {
      return -2, net, masklen;
    }
    var zero := HostIsAll0s(tmp.value, masklen);
    if zero != 0 {
      return -2, net, masklen;
    }
    return 0, tmp.value, masklen;
  }

  // ----- lists

  datatype Entry = Entry(negated: bool, body: string)

  function EntryOf(item: string): Entry {
    if item != "" && item[0] == '!' then Entry(true, item[1..]) else Entry(false, item)
  }

  /** An entry that makes the whole list invalid. */
  predicate Malformed(lib: Library, item: string) {
    EntryOf(item).body == "" || CidrOf(lib, EntryOf(item).body) == Inconsistent
  }

  /** The address lies in the entry's network, or its text matches the entry's pattern. */
  predicate Hit(lib: Library, addr: Option<string>, item: string) {
    && addr.Some?
    && match CidrOf(lib, EntryOf(item).body)
       case Network(n, l) => lib.pton(addr.value).Some? && InNetwork(lib.pton(addr.value).value, n, l)
       case _ => Matches(addr.value, EntryOf(item).body)
  }

  predicate Stops(lib: Library, addr: Option<string>, item: string) {
    Malformed(lib, item) || (EntryOf(item).negated && Hit(lib, addr, item))
  }

  /** The first entry that stops the scan decides; without one, any hit does. */
  function Scan(lib: Library, addr: Option<string>, items: seq<string>): int {
    if items == [] then 0
    else if Malformed(lib, items[0]) then -2
    else if EntryOf(items[0]).negated && Hit(lib, addr, items[0]) then -1
    else
      var rest := Scan(lib, addr, items[1..]);
      if rest == 0 && Hit(lib, addr, items[0]) then 1 else rest
  }

  /** A hit seen so far, together with what the rest of the list says. */
  function Carried(ret: int, rest: int): int {
    if rest < 0 then rest else if ret == 1 || rest == 1 then 1 else 0
  }

  function VerdictOn(lib: Library, addr: Option<string>, item: string): int {
    if Malformed(lib, item) then -2 else if !Hit(lib, addr, item) then 0 else if EntryOf(item).negated then -1 else 1
  }

  lemma ScanStep(lib: Library, addr: Option<string>, item: string, rest: seq<string>)
    ensures Scan(lib, addr, [item] + rest)
         == if VerdictOn(lib, addr, item) < 0 then VerdictOn(lib, addr, item)
            else Carried(VerdictOn(lib, addr, item), Scan(lib, addr, rest))
  {
    hide Hit, Malformed;
    ScanRange(lib, addr, rest);
    assert ([item] + rest)[1..] == rest;
  }

  lemma {:induction false} ScanRange(lib: Library, addr: Option<string>, items: seq<string>)
    ensures Scan(lib, addr, items) in {-2, -1, 0, 1}
    ensures Scan(lib, addr, []) == 0
  {
    hide Hit, Malformed;
    if items != [] {
      ScanRange(lib, addr, items[1..]);
    }
  }

  // ----- what the scan means

  predicate AnyMalformed(lib: Library, items: seq<string>) {
    exists i :: 0 <= i < |items| && Malformed(lib, items[i])
  }

  predicate AnyHit(lib: Library, addr: Option<string>, items: seq<string>, negated: bool) {
    exists i :: 0 <= i < |items| && Hit(lib, addr, items[i]) && EntryOf(items[i]).negated == negated
  }

  /** In a well-formed list any negated hit refuses, else any positive one accepts. */
  lemma {:induction false} ScanWellFormed(lib: Library, addr: Option<string>, items: seq<string>)
    requires !AnyMalformed(lib, items)
    ensures Scan(lib, addr, items) == if AnyHit(lib, addr, items, true) then -1 else if AnyHit(lib, addr, items, false) then 1 else 0
  {
    hide Hit, Malformed, EntryOf;
    if items != [] {
      var head, tail := items[0], items[1..];
      assert forall i :: 0 <= i < |tail| ==> tail[i] == items[i + 1];
      assert !AnyMalformed(lib, tail);
      ScanWellFormed(lib, addr, tail);
      forall negated: bool
        ensures AnyHit(lib, addr, items, negated) <==> AnyHit(lib, addr, tail, negated) || (Hit(lib, addr, head) && EntryOf(head).negated == negated)
      {
        if i :| 0 <= i < |tail| && Hit(lib, addr, tail[i]) && EntryOf(tail[i]).negated == negated {
          assert Hit(lib, addr, items[i + 1]);
        }
        if i :| 0 < i < |items| && Hit(lib, addr, items[i]) && EntryOf(items[i]).negated == negated {
          assert tail[i - 1] == items[i];
        }
      }
      ScanStep(lib, addr, head, tail);
      assert items == [head] + tail;
    }
  }

  /** The order of a well-formed list does not matter, nor how often an entry is repeated. */
  lemma OrderIndependent(lib: Library, addr: Option<string>, items: seq<string>, others: seq<string>)
    requires !AnyMalformed(lib, items) && (forall s :: s in items <==> s in others)
    ensures Scan(lib, addr, items) == Scan(lib, addr, others)
  {
    hide Hit, Malformed, EntryOf;
    forall i | 0 <= i < |others|
      ensures !Malformed(lib, others[i])
    {
      assert others[i] in items;
    }
    SameHits(lib, addr, items, others, true);
    SameHits(lib, addr, items, others, false);
    ScanWellFormed(lib, addr, items);
    ScanWellFormed(lib, addr, others);
  }

  lemma SameHits(lib: Library, addr: Option<string>, items: seq<string>, others: seq<string>, negated: bool)
    requires forall s :: s in items <==> s in others
    ensures AnyHit(lib, addr, items, negated) <==> AnyHit(lib, addr, others, negated)
  {
    hide Hit, EntryOf;
    if i :| 0 <= i < |items| && Hit(lib, addr, items[i]) && EntryOf(items[i]).negated == negated {
      assert items[i] in others;
    }
    if i :| 0 <= i < |others| && Hit(lib, addr, others[i]) && EntryOf(others[i]).negated == negated {
      assert others[i] in items;
    }
  }

  /** A list is rejected as invalid exactly when a malformed entry comes before any negated hit. */
  lemma {:induction false} InvalidIff(lib: Library, addr: Option<string>, items: seq<string>)
    ensures Scan(lib, addr, items) == -2 <==>
              exists i :: 0 <= i < |items| && Malformed(lib, items[i]) && forall k :: 0 <= k < i ==> !Stops(lib, addr, items[k])
  {
    hide Hit, Malformed, EntryOf;
    if items != [] {
      var head, tail := items[0], items[1..];
      InvalidIff(lib, addr, tail);
      ScanStep(lib, addr, head, tail);
      assert items == [head] + tail;
      assert forall k :: 0 <= k < |tail| ==> tail[k] == items[k + 1];
      if !Stops(lib, addr, head) {
        if i :| 0 <= i < |tail| && Malformed(lib, tail[i]) && forall k :: 0 <= k < i ==> !Stops(lib, addr, tail[k]) {
          forall k | 0 <= k < i + 1
            ensures !Stops(lib, addr, items[k])
          {
            assert k > 0 ==> items[k] == tail[k - 1];
          }
          assert Malformed(lib, items[i + 1]);
        }
        if i :| 0 <= i < |items| && Malformed(lib, items[i]) && forall k :: 0 <= k < i ==> !Stops(lib, addr, items[k]) {
          assert i > 0;
          assert Malformed(lib, tail[i - 1]);
        }
      }
    }
  }

  /** The body of the loop in addr_match_list. */
  method MatchEntry(lib: Library, addr: Option<string>, item: string) returns (verdict: int)
    requires addr.Some? ==> lib.pton(addr.value).Some?
    ensures verdict == VerdictOn(lib, addr, item)
  {
    hide Matches, InNetwork;
    var neg := item != "" && item[0] == '!';
    var cp := if neg then item[1..] else item;
    if cp == "" {
      return -2;
    }
    var r, net, masklen := PtonCidr(lib, cp);
    if r == -2 {
      return -2;
    }
    var found := false;
    if addr.Some? {
      if r == 0 {
        var m := NetMatch(lib.pton(addr.value).value, net, masklen);
        found := m == 0;
      } else {
        found := MatchPattern(addr.value, cp);
      }
    }
    verdict := if !found then 0 else if neg then -1 else 1;
  }

  /** addr_match_list */
  method AddrMatchList(lib: Library, addr: Option<string>, list: string) returns (ret: int)
    ensures addr.Some? && lib.pton(addr.value) == None ==> ret == 0
    ensures !(addr.Some? && lib.pton(addr.value) == None) ==> ret == Scan(lib, addr, Items(list))
  {
    hide Hit, Malformed, Scan, VerdictOn, Items;
    ret := 0;
    ScanRange(lib, addr, Items(list));
    if addr.Some? && lib.pton(addr.value) == None {
      return;
    }
    var rest := Some(list);
    while rest.Some?
      invariant ret == 0 || ret == 1
      invariant Scan(lib, addr, Items(list))
             == Carried(ret, if rest.Some? then Scan(lib, addr, Items(rest.value)) else 0)
      decreases if rest.Some? then |rest.value| + 1 else 0
    {
      var i := IndexOf(rest.value, ',');
      var cp := rest.value[..i];
      ghost var tail := if i < |rest.value| then Items(rest.value[i + 1..]) else [];
      ItemsSplit(rest.value);
      ScanStep(lib, addr, cp, tail);
      rest := if i < |rest.value| then Some(rest.value[i + 1..]) else None;
      var verdict := MatchEntry(lib, addr, cp);
      if verdict < 0 {
        return verdict;
      }
      if verdict == 1 {
        ret := 1;
      }
    }
  }
}

/**
 The retry loops of atomicio.c.  A run is driven by a script of what the read or write call and the
 callback answer, call by call; a script that ends while the loop still has work leaves it waiting.
 Transfers are recorded as the addresses that moved, in order, which serves both directions.
 */
module AtomicIo {
  import opened Words

  const IOV_MAX: int := 1024

  /** struct iovec */
  datatype Iovec = Iovec(base: nat, len: nat)

  datatype Outcome = Moved(n: nat) | Zero | Interrupted | WouldBlock | Failed

  /** One call of the transfer function, and whether the callback after it lets the loop go on. */
  datatype Call = Call(outcome: Outcome, cbOk: bool)

  /** Complete, or the errno set: EINVAL, EPIPE, EINTR, EFAULT, or that of the call. */
  datatype Stop = Complete | BadCount | EndOfFile | Aborted | Fault | Error | Waiting

  // ----- what there is to move

  function Range(base: nat, len: nat): (r: seq<nat>)
    ensures |r| == len
  {
    seq(len, i requires 0 <= i < len => base + i)
  }

  function Flatten(v: seq<Iovec>): seq<nat> {
    if v == [] then [] else Range(v[0].base, v[0].len) + Flatten(v[1..])
  }

  // ----- what a script amounts to

  predicate WellBehaved(c: Call) {
    c.outcome != Zero && c.outcome != Failed && (c.outcome.Moved? ==> c.outcome.n > 0)
  }

  /** The call lets the loop go on. */
  predicate GoesOn(call: Call, hasCb: bool) {
    WellBehaved(call) && (hasCb && call.outcome != WouldBlock ==> call.cbOk)
  }

  /** No call fails, ends the stream or is called off. */
  predicate Benign(script: seq<Call>, hasCb: bool) {
    forall i :: 0 <= i < |script| ==> GoesOn(script[i], hasCb)
  }

  function Amount(c: Call): nat {
    if c.outcome.Moved? then c.outcome.n else 0
  }

  function Total(script: seq<Call>): nat {
    if script == [] then 0 else Total(script[..|script| - 1]) + Amount(script[|script| - 1])
  }

  function Sum(amounts: seq<nat>): nat {
    if amounts == [] then 0 else Sum(amounts[..|amounts| - 1]) + amounts[|amounts| - 1]
  }

  lemma TotalPush(script: seq<Call>, n: nat)
    requires n < |script|
    ensures Total(script[..n + 1]) == Total(script[..n]) + Amount(script[n])
  {
    assert script[..n + 1][..n] == script[..n];
  }

  lemma SumPush(amounts: seq<nat>, a: nat)
    ensures Sum(amounts + [a]) == Sum(amounts) + a
  {
    assert (amounts + [a])[..|amounts|] == amounts;
  }

  lemma {:induction false} TotalGrows(script: seq<Call>, n: nat)
    requires n <= |script|
    ensures Total(script[..n]) <= Total(script)
    decreases |script| - n
  {
    if n < |script| {
      TotalPush(script, n);
      TotalGrows(script, n + 1);
    } else {
      assert script[..n] == script;
    }
  }

  /** The first k addresses have moved. */
  predicate Prefix(moved: seq<nat>, all: seq<nat>, k: nat) {
    |moved| <= |all| && moved == all[..|moved|] && |moved| == Min(k, |all|)
  }

  lemma PrefixStep(all: seq<nat>, moved: seq<nat>, rest: seq<nat>, n: nat)
    requires moved + rest == all
    ensures moved + rest[..Min(n, |rest|)] + rest[Min(n, |rest|)..] == all
    ensures Prefix(moved + rest[..Min(n, |rest|)], all, |moved| + n)
  {
    var k := Min(n, |rest|);
    assert rest[..k] + rest[k..] == rest;
    assert (moved + rest)[..|moved| + k] == moved + rest[..k];
  }

  // ----- atomicio6

  /** Where the loop stands after c calls into the script. */
  predicate Going(all: seq<nat>, moved: seq<nat>, pos: nat, script: seq<Call>, c: nat, hasCb: bool) {
    c <= |script| && Benign(script[..c], hasCb) && pos == Total(script[..c]) && Prefix(moved, all, pos)
  }

  lemma AtStart(all: seq<nat>, script: seq<Call>, hasCb: bool)
    ensures Going(all, [], 0, script, 0, hasCb) && Sum([]) == 0
  {
    assert all[..0] == [] && script[..0] == [];
  }

  /** The prefix after a transfer, which may claim more than was asked for. */
  lemma Transferred(all: seq<nat>, moved: seq<nat>, pos: nat, script: seq<Call>, c: nat, hasCb: bool, res: nat)
    requires Going(all, moved, pos, script, c, hasCb) && pos < |all|
    ensures Prefix(moved + all[pos..][..Min(res, |all| - pos)], all, pos + res)
  {
    hide Total, Benign;
    assert moved + all[pos..] == all;
    PrefixStep(all, moved, all[pos..], res);
  }

  lemma OneMore(all: seq<nat>, moved: seq<nat>, pos: nat, script: seq<Call>, c: nat, hasCb: bool, moved': seq<nat>)
    requires Going(all, moved, pos, script, c, hasCb) && c < |script| && GoesOn(script[c], hasCb)
    requires Prefix(moved', all, pos + Amount(script[c]))
    ensures Going(all, moved', pos + Amount(script[c]), script, c + 1, hasCb)
  {
    hide Total, Prefix;
    TotalPush(script, c);
    assert script[..c + 1] == script[..c] + [script[c]];
  }

  lemma AtEnd(all: seq<nat>, moved: seq<nat>, pos: nat, script: seq<Call>, hasCb: bool)
    requires Going(all, moved, pos, script, |script|, hasCb)
    ensures Benign(script, hasCb) && pos == Total(script)
  {
    hide Total, Prefix, Benign;
    assert script[..|script|] == script;
  }

  lemma NotBenign(script: seq<Call>, c: nat, hasCb: bool)
    requires c < |script| && !GoesOn(script[c], hasCb)
    ensures !Benign(script, hasCb)
  {
  }

  lemma GoingPrefix(all: seq<nat>, moved: seq<nat>, pos: nat, script: seq<Call>, c: nat, hasCb: bool)
    requires Going(all, moved, pos, script, c, hasCb)
    ensures Prefix(moved, all, pos) && Prefix(moved, all, |moved|)
  {
    hide Total, Benign;
  }

  /** s and n as the caller gave them; a result beyond the request is taken at its word. */
  method Atomicio6(s: nat, n: nat, script: seq<Call>, hasCb: bool)
    returns (pos: nat, why: Stop, ghost moved: seq<nat>, ghost reported: seq<nat>)
    ensures Prefix(moved, Range(s, n), if why == Error then |moved| else pos)
    ensures hasCb && why != Error ==> Sum(reported) == pos
    ensures why == Complete ==> pos >= n
    ensures why == Waiting ==> Benign(script, hasCb) && pos == Total(script) < n
    ensures Benign(script, hasCb) && Total(script) >= n ==> why == Complete
    ensures why == Error ==> pos == 0
  {
    hide Total, Sum, Benign, Prefix, Range, Going;
    pos, moved, reported := 0, [], [];
    ghost var all := Range(s, n);
    AtStart(all, script, hasCb);
    var c := 0;
    while n > pos
      invariant c <= |script| && Going(all, moved, pos, script, c, hasCb)
      invariant hasCb ==> Sum(reported) == pos
      decreases |script| - c
    {
      GoingPrefix(all, moved, pos, script, c, hasCb);
      if c == |script| {
        AtEnd(all, moved, pos, script, hasCb);
        why := Waiting;
        return;
      }
      var call := script[c];
      if !GoesOn(call, hasCb) {
        NotBenign(script, c, hasCb);
      }
      match call.outcome {
        case Interrupted =>
          if hasCb {
            SumPush(reported, 0);
            reported := reported + [0];
            if !call.cbOk {
              why := Aborted;
              return;
            }
          }
          OneMore(all, moved, pos, script, c, hasCb, moved);
        case WouldBlock =>
          OneMore(all, moved, pos, script, c, hasCb, moved);
        case Failed =>
          pos, why := 0, Error;
          return;
        case Zero =>
          why := EndOfFile;
          return;
        case Moved(res) =>
          if res == 0 {
            why := EndOfFile;
            return;
          }
          ghost var moved' := moved + all[pos..][..Min(res, n - pos)];
          Transferred(all, moved, pos, script, c, hasCb, res);
          if hasCb {
            SumPush(reported, res);
            reported := reported + [res];
            if !call.cbOk {
              pos, moved, why := pos + res, moved', Aborted;
              return;
            }
          }
          OneMore(all, moved, pos, script, c, hasCb, moved');
          moved := moved';
          pos := pos + res;
      }
      c := c + 1;
    }
    GoingPrefix(all, moved, pos, script, c, hasCb);
    why := Complete;
  }

  // ----- atomiciov6

  lemma FlattenHead(v: seq<Iovec>, first: nat)
    requires first < |v|
    ensures Flatten(v[first..]) == Range(v[first].base, v[first].len) + Flatten(v[first + 1..])
  {
    assert v[first..][1..] == v[first + 1..];
  }

  lemma FlattenNone(v: seq<Iovec>)
    ensures Flatten(v[|v|..]) == []
  {
  }

  lemma RangeSuffix(base: nat, len: nat, k: nat)
    requires k <= len
    ensures Range(base, len)[k..] == Range(base + k, len - k)
  {
  }

  /** Skip entries that the transferred bytes complete; rem bytes of the next one are done too. */
  method SkipCompleted(iov: seq<Iovec>, from: nat, res: nat) returns (first: nat, rem: nat)
    requires from <= |iov|
    ensures from <= first <= |iov| && (first < |iov| ==> rem < iov[first].len)
    ensures rem <= res <= rem + |Flatten(iov[from..])| && Flatten(iov[from..])[res - rem..] == Flatten(iov[first..])
    ensures (rem > 0 && first == |iov| <==> res > |Flatten(iov[from..])|)
  {
    hide Flatten;
    first, rem := from, res;
    ghost var all := Flatten(iov[from..]);
    assert all[0..] == all;
    FlattenNone(iov);
    while first < |iov| && rem >= iov[first].len
      invariant from <= first <= |iov| && rem <= res <= |all| + rem
      invariant all[res - rem..] == Flatten(iov[first..])
      decreases |iov| - first
    {
      FlattenHead(iov, first);
      assert all[res - rem..][iov[first].len..] == all[res - rem + iov[first].len..];
      rem := rem - iov[first].len;
      first := first + 1;
    }
    if first < |iov| {
      FlattenHead(iov, first);
    }
  }

  /** After a transfer the array starts with what is left to move. */
  method Advance(iov: array<Iovec>, from: nat, res: nat) returns (first: nat, short: bool)
    requires from < iov.Length && res > 0
    modifies iov
    ensures from <= first <= iov.Length
    ensures short <==> res > |Flatten(old(iov[from..]))|
    ensures !short ==> Flatten(iov[first..]) == Flatten(old(iov[from..]))[res..]
    ensures !short && first < iov.Length ==> iov[first].len > 0
  {
    hide Flatten, Range;
    var rem;
    first, rem := SkipCompleted(iov[..], from, res);
    assert iov[..][from..] == iov[from..] && iov[..][first..] == iov[first..];
    short := rem > 0 && first == iov.Length;
    if short || first == iov.Length {
      return;
    }
    ghost var before := iov[..];
    FlattenHead(before, first);
    RangeSuffix(before[first].base, before[first].len, rem);
    iov[first] := Iovec(iov[first].base + rem, iov[first].len - rem);
    FlattenHead(iov[..], first);
    assert iov[..][first..] == iov[first..] && iov[..][first + 1..] == before[first + 1..];
    ghost var rest := Flatten(before[first..]);
    assert rest[rem..] == Flatten(iov[first..]);
    assert Flatten(before[from..])[res - rem..][rem..] == Flatten(before[from..])[res..];
  }

  /** Where the loop stands after c calls into the script. */
  ghost predicate Underway(all: seq<nat>, moved: seq<nat>, rest: seq<nat>, pos: nat, script: seq<Call>, c: nat, hasCb: bool)
  {
    && c <= |script| && Benign(script[..c], hasCb) && pos == Total(script[..c])
    && moved + rest == all && |moved| == pos
  }

  /** A call that may be passed over. */
  lemma PassOver(all: seq<nat>, moved: seq<nat>, rest: seq<nat>, pos: nat, script: seq<Call>, c: nat, hasCb: bool)
    requires Underway(all, moved, rest, pos, script, c, hasCb) && c < |script|
    requires GoesOn(script[c], hasCb) && Amount(script[c]) == 0
    ensures Underway(all, moved, rest, pos, script, c + 1, hasCb)
  {
    hide Total;
    TotalPush(script, c);
    assert script[..c + 1] == script[..c] + [script[c]];
  }

  /** A transfer that the callback, if any, accepts. */
  lemma MoveOn(all: seq<nat>, moved: seq<nat>, rest: seq<nat>, pos: nat, script: seq<Call>, c: nat, hasCb: bool, res: nat)
    requires Underway(all, moved, rest, pos, script, c, hasCb) && c < |script|
    requires script[c].outcome == Moved(res) && res > 0
    requires res <= |rest| && (hasCb ==> script[c].cbOk)
    ensures Underway(all, moved + rest[..res], rest[res..], pos + res, script, c + 1, hasCb)
  {
    hide Total;
    TotalPush(script, c);
    assert script[..c + 1] == script[..c] + [script[c]];
    assert rest[..res] + rest[res..] == rest;
  }

  lemma MovedPrefix(all: seq<nat>, moved: seq<nat>, rest: seq<nat>, pos: nat, script: seq<Call>, c: nat, hasCb: bool)
    requires Underway(all, moved, rest, pos, script, c, hasCb)
    ensures Prefix(moved, all, pos) && pos <= |all|
    ensures c < |script| ==> Total(script[..c + 1]) == pos + Amount(script[c]) <= Total(script)
    ensures c == |script| ==> Benign(script, hasCb) && pos == Total(script)
  {
    hide Total;
    if c < |script| {
      TotalPush(script, c);
      TotalGrows(script, c + 1);
    } else {
      assert script[..c] == script;
    }
  }

  /** A transfer moves the prefix on, and one that claims more than is left moves all of it. */
  lemma Moving(all: seq<nat>, moved: seq<nat>, rest: seq<nat>, pos: nat, script: seq<Call>, c: nat, hasCb: bool, res: nat)
    requires Underway(all, moved, rest, pos, script, c, hasCb)
    ensures res <= |rest| ==> Prefix(moved + rest[..res], all, pos + res) && pos + res <= |all|
    ensures res > |rest| ==> Prefix(moved + rest, all, pos + res) && pos + res > |all|
  {
    hide Total;
    PrefixStep(all, moved, rest, res);
    assert rest[..|rest|] == rest;
  }

  lemma NothingLeft(v: seq<Iovec>, all: seq<nat>, moved: seq<nat>, rest: seq<nat>, pos: nat, script: seq<Call>, c: nat, hasCb: bool)
    requires rest == Flatten(v[|v|..]) && Underway(all, moved, rest, pos, script, c, hasCb)
    ensures pos == |all|
  {
    FlattenNone(v);
  }

  lemma EmptyRun(all: seq<nat>, script: seq<Call>, hasCb: bool)
    ensures Underway(all, [], all, 0, script, 0, hasCb) && Sum([]) == 0
  {
    assert script[..0] == [];
  }

  /**
   The vectors are moved in order.  The loop ends early only for the reasons the code names, and
   with a first vector that is not empty a run without them moves everything.
   */
  method Atomiciov6(iov: seq<Iovec>, iovcnt: int, script: seq<Call>, hasCb: bool)
    returns (ret: nat, why: Stop, ghost pos: nat, ghost moved: seq<nat>, ghost reported: seq<nat>)
    requires iovcnt <= |iov|
    ensures why == BadCount <==> iovcnt < 0 || iovcnt > IOV_MAX
    ensures why == BadCount ==> moved == []
    ensures why != BadCount ==> Prefix(moved, Flatten(iov[..iovcnt]), pos)
    ensures why != BadCount ==> (why == Fault <==> pos > |Flatten(iov[..iovcnt])|)
    ensures ret == if why == Fault || why == Error || why == BadCount then 0 else pos
    ensures why != BadCount && why != Fault && hasCb ==> Sum(reported) == pos
    ensures why == Complete ==> pos == |Flatten(iov[..iovcnt])| || (iovcnt > 0 && iov[0].len == 0 && pos == 0)
    ensures why == Waiting ==> Benign(script, hasCb) && pos == Total(script) < |Flatten(iov[..iovcnt])|
    ensures why != BadCount && Benign(script, hasCb) && Total(script) == |Flatten(iov[..iovcnt])| ==> why == Complete
  {
    hide Flatten, Range, Total, Sum, Underway, Prefix;
    ret, pos, moved, reported := 0, 0, [], [];
    if iovcnt < 0 || iovcnt > IOV_MAX {
      why := BadCount;
      return;
    }
    var vec := new Iovec[iovcnt](i requires 0 <= i < iovcnt => iov[i]);
    assert vec[..] == iov[..iovcnt] == vec[0..];
    ghost var all := Flatten(vec[..]);
    var first, c := 0, 0;
    EmptyRun(all, script, hasCb);
    ghost var rest := all;
    while first < iovcnt && vec[first].len > 0
      invariant 0 <= first <= iovcnt && c <= |script| && ret == pos
      invariant rest == Flatten(vec[first..]) && Underway(all, moved, rest, pos, script, c, hasCb)
      invariant hasCb ==> Sum(reported) == pos
      invariant pos > 0 && first < iovcnt ==> vec[first].len > 0
      invariant pos == 0 ==> first == 0 && vec[..] == iov[..iovcnt]
      decreases |script| - c
    {
      MovedPrefix(all, moved, rest, pos, script, c, hasCb);
      if c == |script| {
        why := Waiting;
        LeftOver(vec[..], first, all, moved, rest, pos, script, c, hasCb);
        return;
      }
      var call := script[c];
      match call.outcome {
        case Interrupted =>
          if hasCb {
            SumPush(reported, 0);
            reported := reported + [0];
            if !call.cbOk {
              why := Aborted;
              return;
            }
          }
          PassOver(all, moved, rest, pos, script, c, hasCb);
        case WouldBlock =>
          PassOver(all, moved, rest, pos, script, c, hasCb);
        case Failed =>
          ret, why := 0, Error;
          return;
        case Zero =>
          why := EndOfFile;
          return;
        case Moved(res) =>
          if res == 0 {
            why := EndOfFile;
            return;
          }
          var short;
          first, short := Advance(vec, first, res);
          Moving(all, moved, rest, pos, script, c, hasCb, res);
          if short {
            moved := moved + rest;
            pos := pos + res;
            ret, why := 0, Fault;
            return;
          }
          ghost var was := (moved, rest, pos);
          moved, rest := moved + rest[..res], rest[res..];
          pos, ret := pos + res, ret + res;
          if hasCb {
            SumPush(reported, res);
            reported := reported + [res];
            if !call.cbOk {
              why := Aborted;
              return;
            }
          }
          MoveOn(all, was.0, was.1, was.2, script, c, hasCb, res);
      }
      c := c + 1;
    }
    MovedPrefix(all, moved, rest, pos, script, c, hasCb);
    if first == iovcnt {
      NothingLeft(vec[..], all, moved, rest, pos, script, c, hasCb);
    }
    why := Complete;
  }

  /** At an entry with something left, not everything has moved. */
  lemma LeftOver(v: seq<Iovec>, first: nat, all: seq<nat>, moved: seq<nat>, rest: seq<nat>, pos: nat, script: seq<Call>, c: nat, hasCb: bool)
    requires first < |v| && v[first].len > 0 && rest == Flatten(v[first..]) && Underway(all, moved, rest, pos, script, c, hasCb)
    ensures pos < |all|
  {
    FlattenHead(v, first);
  }
}

/** C string searches: strchr and strsep. */
module Strings {

  /** The first position of ch, or the length of s. */
  function IndexOf(s: string, ch: char): (i: nat)
    ensures i <= |s| && ch !in s[..i] && (i < |s| ==> s[i] == ch)
  {
    if s == "" || s[0] == ch then 0
    else
      var i := IndexOf(s[1..], ch);
      assert s[..i + 1] == [s[0]] + s[1..][..i];
      i + 1
  }

  /** strsep: the pieces between commas, at least one. */
  function Items(s: string): (r: seq<string>)
    ensures r != []
    decreases |s|
  {
    var i := IndexOf(s, ',');
    if i < |s| then [s[..i]] + Items(s[i + 1..]) else [s]
  }

  lemma Absent(s: string, i: nat, ch: char)
    requires i <= |s| && ch !in s[..i]
    ensures forall k :: 0 <= k < i ==> s[k] != ch
  {
    assert forall k :: 0 <= k < i ==> s[..i][k] == s[k];
  }

  lemma IndexOfIs(s: string, ch: char, i: nat)
    requires i <= |s| && ch !in s[..i] && (i < |s| ==> s[i] == ch)
    ensures IndexOf(s, ch) == i
  {
    Absent(s, i, ch);
    Absent(s, IndexOf(s, ch), ch);
  }

  lemma ItemsSplit(s: string)
    ensures var i := IndexOf(s, ','); Items(s) == [s[..i]] + (if i < |s| then Items(s[i + 1..]) else [])
  {
    hide IndexOf;
    var i := IndexOf(s, ',');
    if i == |s| {
      assert s[..i] == s;
    }
  }

  lemma OneItem(s: string)
    requires ',' !in s
    ensures Items(s) == [s]
  {
    IndexOfIs(s, ',', |s|);
  }
}

/** The few Python string operations the client relies on, on `seq<char>`. */
module Strings {

  /** Python's `s.find(c)` for one character: the index of the first `c`, or -1. */
  function Find(s: string, c: char): (i: int)
    ensures -1 <= i < |s|
  {
    if s == [] then -1
    else if s[0] == c then 0
    else
      var k := Find(s[1..], c);
      if k == -1 then -1 else k + 1
  }

  /** -1 exactly when `c` does not occur; otherwise an index of `c` with no `c` before it. */
  lemma {:induction false} FindMeaning(s: string, c: char)
    ensures Find(s, c) == -1 <==> c !in s
    ensures 0 <= Find(s, c) ==> s[Find(s, c)] == c && c !in s[..Find(s, c)]
  {
    if s != [] && s[0] != c {
      FindMeaning(s[1..], c);
      assert s == [s[0]] + s[1..];
      var k := Find(s[1..], c);
      if k != -1 {
        assert s[..k + 1] == [s[0]] + s[1..][..k];
      }
    }
  }

  /** Where the first occurrence of `c` is once it follows a prefix without `c`. */
  lemma FindAfter(prefix: string, c: char, suffix: string)
    requires c !in prefix
    ensures Find(prefix + [c] + suffix, c) == |prefix|
  {
    var s := prefix + [c] + suffix;
    FindMeaning(s, c);
    assert s[|prefix|] == c;
    assert forall j :: 0 <= j < |prefix| ==> s[j] == prefix[j];
    assert forall k :: |prefix| < k <= |s| ==> s[..k][|prefix|] == c;
  }

  /** Python's `s[a:b]` for non-negative bounds: bounds beyond the end are clamped, and a
      range that is empty or reversed gives "". */
  function Slice(s: string, a: nat, b: nat): string
  {
    if b <= a || |s| <= a then "" else if b <= |s| then s[a..b] else s[a..]
  }

  /** The text obtained by writing the parts one after the other. */
  function Concat(parts: seq<string>): string
  {
    if parts == [] then "" else parts[0] + Concat(parts[1..])
  }
}

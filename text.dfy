/** String operations the catalogue store relies on: ASCII lower-casing
    (`toLowerCase`) and substring search (`String.prototype.includes`). */
module Text {

  /** The lower-case form of one character; only the ASCII letters A-Z change. */
  function LowerChar(c: char): (r: char)
    ensures 'A' <= c <= 'Z' ==> r as int == c as int + 32
    ensures !('A' <= c <= 'Z') ==> r == c
    ensures !('A' <= r <= 'Z')
  {
    if 'A' <= c <= 'Z' then (c as int + 32) as char else c
  }

  /** `s.toLowerCase()`, character by character. */
  function Lower(s: string): (r: string)
    ensures |r| == |s|
    ensures forall i :: 0 <= i < |s| ==> r[i] == LowerChar(s[i])
  {
    if s == [] then [] else [LowerChar(s[0])] + Lower(s[1..])
  }

  /** `sub` occurs in `s` starting at position `i`. */
  ghost predicate OccursAt(sub: string, s: string, i: int)
  {
    0 <= i && i + |sub| <= |s| && s[i..i + |sub|] == sub
  }

  /** The closed form of "s contains sub". */
  ghost predicate Substring(sub: string, s: string)
  {
    exists i :: OccursAt(sub, s, i)
  }

  /** `s.includes(sub)`: scans the start positions of `s` from left to right. */
  function Includes(s: string, sub: string): (b: bool)
    ensures b <==> Substring(sub, s)
  {
    if sub <= s then
      assert OccursAt(sub, s, 0);
      true
    else if s == [] then
      assert forall i :: !OccursAt(sub, s, i);
      false
    else
      var rest := Includes(s[1..], sub);
      ShiftOccurrence(sub, s);
      rest
  }

  /** An occurrence after the first position of `s` is an occurrence in `s[1..]`. */
  lemma ShiftOccurrence(sub: string, s: string)
    requires s != [] && !(sub <= s)
    ensures Substring(sub, s) <==> Substring(sub, s[1..])
  {
    if Substring(sub, s) {
      var i :| OccursAt(sub, s, i);
      assert i != 0;
      assert s[1..][i - 1..i - 1 + |sub|] == s[i..i + |sub|];
      assert OccursAt(sub, s[1..], i - 1);
    }
    if Substring(sub, s[1..]) {
      var i :| OccursAt(sub, s[1..], i);
      assert s[1..][i..i + |sub|] == s[i + 1..i + 1 + |sub|];
      assert OccursAt(sub, s, i + 1);
    }
  }

  /** Lower-casing twice is lower-casing once. */
  lemma {:induction false} LowerIdempotent(s: string)
    ensures Lower(Lower(s)) == Lower(s)
  {
    var l := Lower(s);
    assert forall i :: 0 <= i < |l| ==> Lower(l)[i] == LowerChar(l[i]) == l[i];
  }

  /** Lower-casing both strings keeps an occurrence in place. */
  lemma LowerKeepsOccurrence(sub: string, s: string, i: int)
    requires OccursAt(sub, s, i)
    ensures OccursAt(Lower(sub), Lower(s), i)
  {
    var l, ls := Lower(sub), Lower(s);
    forall k | 0 <= k < |sub| ensures ls[i..i + |sub|][k] == l[k] {
      assert s[i..i + |sub|][k] == s[i + k];
    }
  }

  /** A string that lacks some character of `sub` does not contain `sub`. */
  lemma MissingChar(sub: string, s: string, k: int)
    requires 0 <= k < |sub| && sub[k] !in s
    ensures !Substring(sub, s)
  {
    forall i ensures !OccursAt(sub, s, i) {
      if 0 <= i && i + |sub| <= |s| {
        assert s[i + k] in s;
        assert s[i..i + |sub|][k] == s[i + k];
      }
    }
  }

  /** The empty query is contained in every string. */
  lemma EmptyIsSubstring(s: string)
    ensures Includes(s, "")
  {
    assert OccursAt("", s, 0);
  }
}

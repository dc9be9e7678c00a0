/** Text operations the course search relies on: `String.prototype.toLowerCase`
    (restricted to ASCII) and `String.prototype.includes`. */
module Text {

  /** Lower-cases one character: 'A'..'Z' become 'a'..'z', everything else is kept. */
  function LowerChar(c: char): (r: char)
    ensures 'A' <= c <= 'Z' ==> r as int == c as int + 32
    ensures !('A' <= c <= 'Z') ==> r == c
    ensures !('A' <= r <= 'Z')
  {
    if 'A' <= c <= 'Z' then (c as int + 32) as char else c
  }

  /** `s.toLowerCase()` on ASCII text: the same length, each character lower-cased. */
  function Lower(s: string): (r: string)
    ensures |r| == |s|
    ensures forall i :: 0 <= i < |s| ==> r[i] == LowerChar(s[i])
  {
    seq(|s|, i requires 0 <= i < |s| => LowerChar(s[i]))
  }

  /** Lower-casing twice is lower-casing once. */
  lemma LowerIdempotent(s: string)
    ensures Lower(Lower(s)) == Lower(s)
  {
  }

  /** `q` occurs in `s` starting at position `i`. */
  ghost predicate OccursAt(s: string, q: string, i: int)
  {
    0 <= i && i + |q| <= |s| && s[i..i + |q|] == q
  }

  /** `s.includes(q)`: is `q` a prefix of `s` from some position `i` on?
      The scan starts at `i` and moves right one position at a time. */
  function ContainsFrom(s: string, q: string, i: nat): bool
    decreases |s| - i
  {
    if i + |q| > |s| then false
    else if q <= s[i..] then true
    else ContainsFrom(s, q, i + 1)
  }

  /** `s.includes(q)`. The empty query is found in every string, and a query
      longer than the string is never found. */
  function Contains(s: string, q: string): (r: bool)
    ensures q == "" ==> r
    ensures r ==> |q| <= |s|
  {
    assert q == "" ==> q <= s[0..];
    ContainsFrom(s, q, 0)
  }

  /** The scan from `i` succeeds exactly when `q` occurs at some position `j >= i`. */
  lemma {:induction false} ContainsFromSpec(s: string, q: string, i: nat)
    ensures ContainsFrom(s, q, i) <==> exists j :: i <= j && OccursAt(s, q, j)
    decreases |s| - i
  {
    if i + |q| > |s| {
    } else if q <= s[i..] {
      assert s[i..][..|q|] == s[i..i + |q|];
      assert OccursAt(s, q, i);
    } else {
      ContainsFromSpec(s, q, i + 1);
      assert forall j :: i <= j && OccursAt(s, q, j) ==> i + 1 <= j;
    }
  }

  /** `s.includes(q)` is true exactly when `q` occurs somewhere in `s`. */
  lemma ContainsSpec(s: string, q: string)
    ensures Contains(s, q) <==> exists i :: OccursAt(s, q, i)
  {
    ContainsFromSpec(s, q, 0);
  }

  /** The empty string is contained in every string. */
  lemma ContainsEmpty(s: string)
    ensures Contains(s, "")
  {
    assert "" <= s[0..];
  }

  /** Every string contains itself. */
  lemma ContainsSelf(s: string)
    ensures Contains(s, s)
  {
    assert s <= s[0..];
  }

  /** A query holding a character that the string lacks is not found. */
  lemma MissingChar(s: string, q: string, c: char)
    requires c in q && c !in s
    ensures !Contains(s, q)
  {
    ContainsSpec(s, q);
  }
}

/** Column-name text handling: lower-casing and substring search, as used by
    the date-column heuristic. */
module Text {

  /** Lower-cases an ASCII capital letter and leaves every other character
      alone. */
  function LowerChar(c: char): char
  {
    if 'A' <= c <= 'Z' then (c as int + 32) as char else c
  }

  /** Lower-cases a name character by character. */
  function Lower(s: string): (r: string)
    ensures |r| == |s|
    ensures forall i :: 0 <= i < |s| ==> r[i] == LowerChar(s[i])
    decreases |s|
  {
    if |s| == 0 then "" else [LowerChar(s[0])] + Lower(s[1..])
  }

  /** `sub` occurs in `s` starting at position `k`. */
  predicate OccursAt(sub: string, s: string, k: int)
  {
    0 <= k && k + |sub| <= |s| && s[k..k + |sub|] == sub
  }

  /** Whether `sub` occurs in `s` at position `i` or later. */
  function ContainsFrom(s: string, sub: string, i: nat): bool
    requires i <= |s|
    decreases |s| - i
  {
    if i + |sub| > |s| then false
    else OccursAt(sub, s, i) || ContainsFrom(s, sub, i + 1)
  }

  /** Python's `sub in s` on strings. */
  function Contains(s: string, sub: string): bool
  {
    ContainsFrom(s, sub, 0)
  }

  /** The scan from position `i` finds exactly the occurrences at `i` or
      later. */
  lemma {:induction false} ContainsFromIff(s: string, sub: string, i: nat)
    requires i <= |s|
    ensures ContainsFrom(s, sub, i) <==> exists k :: i <= k && OccursAt(sub, s, k)
    decreases |s| - i
  {
    if i + |sub| <= |s| && !OccursAt(sub, s, i) {
      ContainsFromIff(s, sub, i + 1);
      assert forall k :: i <= k && OccursAt(sub, s, k) ==> k == i || i + 1 <= k;
    }
  }

  /** `Contains` means what `in` means on strings: `sub` occurs somewhere in
      `s` (the empty string occurs everywhere). */
  lemma ContainsIff(s: string, sub: string)
    ensures Contains(s, sub) <==> exists k :: OccursAt(sub, s, k)
  {
    ContainsFromIff(s, sub, 0);
  }

  /** `sub` occurs in `s` at position `k` when letters are compared
      ignoring case. */
  predicate OccursFolded(sub: string, s: string, k: int)
  {
    0 <= k && k + |sub| <= |s| && forall j :: 0 <= j < |sub| ==> LowerChar(s[k + j]) == sub[j]
  }

  /** Searching the lower-cased string is a case-insensitive search of the
      string itself. */
  lemma ContainsLowerIff(s: string, sub: string)
    ensures Contains(Lower(s), sub) <==> exists k :: OccursFolded(sub, s, k)
  {
    var l := Lower(s);
    ContainsIff(l, sub);
    forall k ensures OccursAt(sub, l, k) <==> OccursFolded(sub, s, k) {
      if 0 <= k && k + |sub| <= |s| {
        var w := l[k..k + |sub|];
        forall j | 0 <= j < |sub| ensures w[j] == LowerChar(s[k + j]) {
        }
      }
    }
  }

  /** A string cannot contain a pattern whose first character it lacks. */
  lemma FirstCharAbsent(s: string, sub: string)
    requires |sub| > 0 && sub[0] !in s
    ensures !Contains(s, sub)
  {
    ContainsIff(s, sub);
    forall k | 0 <= k && k + |sub| <= |s| ensures !OccursAt(sub, s, k) {
      assert s[k..k + |sub|][0] == s[k];
    }
  }
}

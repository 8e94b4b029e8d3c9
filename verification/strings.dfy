/**
 * The JavaScript string operations the CLI relies on: `startsWith`,
 * `endsWith`, `indexOf`, `includes` and `replace` with a string pattern.
 */
module Strings {
  import opened Wrappers

  /** `s.startsWith(p)` */
  predicate StartsWith(s: string, p: string) {
    p <= s
  }

  /** `s.endsWith(e)` */
  predicate EndsWith(s: string, e: string) {
    |e| <= |s| && s[|s| - |e|..] == e
  }

  /** `p` occurs in `s` at position `i`. */
  ghost predicate OccursAt(s: string, p: string, i: int) {
    0 <= i && i + |p| <= |s| && s[i..i + |p|] == p
  }

  /** `p` occurs somewhere in `s`: what a regular expression made of a literal tests. */
  ghost predicate Occurs(s: string, p: string) {
    exists i :: OccursAt(s, p, i)
  }

  /** `s.indexOf(p)`, with -1 written as `None`: the first position where `p` occurs. */
  function IndexOf(s: string, p: string): (r: Option<nat>)
    ensures r.Some? ==> OccursAt(s, p, r.value)
    ensures r.Some? ==> forall j :: 0 <= j < r.value ==> !OccursAt(s, p, j)
    ensures r.None? <==> !Occurs(s, p)
    decreases |s|
  {
    if p <= s then
      assert s[0..|p|] == p;
      assert OccursAt(s, p, 0);
      Some(0)
    else if s == [] then
      None
    else
      var rest := IndexOf(s[1..], p);
      ShiftOccurrence(s, p);
      assert !OccursAt(s, p, 0) by {
        if |p| <= |s| {
          assert s[..|p|] == s[0..|p|];
        }
      }
      match rest
      case None =>
        assert forall i :: 0 < i ==> !OccursAt(s, p, i) by {
          forall i | 0 < i ensures !OccursAt(s, p, i) {
            assert OccursAt(s, p, i) == OccursAt(s[1..], p, i - 1);
          }
        }
        None
      case Some(k) =>
        assert forall j :: 0 < j < k + 1 ==> !OccursAt(s, p, j) by {
          forall j | 0 < j < k + 1 ensures !OccursAt(s, p, j) {
            assert OccursAt(s, p, j) == OccursAt(s[1..], p, j - 1);
          }
        }
        Some(k + 1)
  }

  /** An occurrence in `s[1..]` is an occurrence in `s` one position later, and back. */
  lemma ShiftOccurrence(s: string, p: string)
    requires s != []
    ensures forall i :: 0 <= i ==> (OccursAt(s[1..], p, i) <==> OccursAt(s, p, i + 1))
  {
    forall i | 0 <= i
      ensures OccursAt(s[1..], p, i) <==> OccursAt(s, p, i + 1)
    {
      if i + |p| <= |s[1..]| {
        assert s[1..][i..i + |p|] == s[i + 1..i + 1 + |p|];
      }
    }
  }

  /** `s.includes(p)` */
  predicate Includes(s: string, p: string) {
    IndexOf(s, p).Some?
  }

  /**
   * `s.replace(p, q)` with a string pattern `p`: only the first occurrence is
   * replaced, and `s` comes back unchanged when `p` does not occur.
   */
  function ReplaceFirst(s: string, p: string, q: string): (r: string)
    ensures !Occurs(s, p) ==> r == s
    ensures StartsWith(s, p) ==> r == q + s[|p|..]
  {
    match IndexOf(s, p)
    case None => s
    case Some(i) => s[..i] + q + s[i + |p|..]
  }
}

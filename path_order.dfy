/**
 * A strict total order on paths: lexicographic by character code, a proper
 * prefix coming first. Used to break ties between transcripts modified at
 * the same instant, so that the choice among them is deterministic.
 */
module PathOrder {

  predicate PathLess(a: string, b: string)
  {
    if |a| == 0 then |b| > 0
    else if |b| == 0 then false
    else a[0] < b[0] || (a[0] == b[0] && PathLess(a[1..], b[1..]))
  }

  lemma {:induction false} PathLessIrreflexive(a: string)
    ensures !PathLess(a, a)
  {
    if |a| > 0 {
      PathLessIrreflexive(a[1..]);
    }
  }

  lemma {:induction false} PathLessTransitive(a: string, b: string, c: string)
    requires PathLess(a, b) && PathLess(b, c)
    ensures PathLess(a, c)
  {
    if |a| > 0 && a[0] == b[0] && b[0] == c[0] {
      PathLessTransitive(a[1..], b[1..], c[1..]);
    }
  }

  /** Any two different paths are ordered one way or the other. */
  lemma {:induction false} PathLessTotal(a: string, b: string)
    requires a != b
    ensures PathLess(a, b) || PathLess(b, a)
  {
    if |a| > 0 && |b| > 0 && a[0] == b[0] {
      assert a == [a[0]] + a[1..] && b == [b[0]] + b[1..];
      PathLessTotal(a[1..], b[1..]);
    }
  }
}

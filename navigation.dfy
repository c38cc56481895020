/** The chapter-index arithmetic of `goToChapter`, `previousChapter` and
    `nextChapter` (reader.js:270-273, 304-314) and what `updateNavigation`
    derives from it (reader.js:292-302), over an index `cur` into a list of
    `n` chapters. */
module Navigation {
  import opened Text

  /** What `updateNavigation` writes to the page: the two buttons' disabled
      flags and the "Chapter k of n" label. */
  datatype NavView = NavView(prevDisabled: bool, nextDisabled: bool, pageInfo: string)

  function PageInfo(cur: nat, n: nat): string {
    "Chapter " + NatToString(cur + 1) + " of " + NatToString(n)
  }

  function NavFor(cur: nat, n: nat): NavView {
    NavView(cur == 0, cur == n - 1, PageInfo(cur, n))
  }

  /** The index after `goToChapter(index)`: out-of-range jumps are ignored. */
  function GoTo(cur: nat, n: nat, index: int): nat {
    if index < 0 || index >= n then cur else index
  }

  function Prev(cur: nat, n: nat): nat {
    if cur > 0 then GoTo(cur, n, cur - 1) else cur
  }

  function Next(cur: nat, n: nat): nat {
    if cur < n - 1 then GoTo(cur, n, cur + 1) else cur
  }

  /** A jump lands exactly on an index in range and is otherwise a no-op; it
      never leaves the list. */
  lemma GoToSpec(cur: nat, n: nat, index: int)
    ensures 0 <= index < n ==> GoTo(cur, n, index) == index
    ensures !(0 <= index < n) ==> GoTo(cur, n, index) == cur
    ensures cur < n ==> GoTo(cur, n, index) < n
  {
  }

  /** From a valid index, Next moves forward by exactly one unless at the last
      chapter, and Prev back by exactly one unless at the first; both stay in range. */
  lemma StepSpec(cur: nat, n: nat)
    requires cur < n
    ensures Next(cur, n) == cur + 1 <==> cur < n - 1
    ensures Next(cur, n) == cur <==> cur == n - 1
    ensures Prev(cur, n) + 1 == cur <==> cur > 0
    ensures Prev(cur, n) == cur <==> cur == 0
    ensures Next(cur, n) < n && Prev(cur, n) < n
  {
  }

  /** Prev undoes Next and Next undoes Prev wherever the first move happened. */
  lemma StepsInverse(cur: nat, n: nat)
    ensures cur < n - 1 ==> Prev(Next(cur, n), n) == cur
    ensures 0 < cur < n ==> Next(Prev(cur, n), n) == cur
  {
  }

  /** A disabled button is exactly a button whose action would change nothing. */
  lemma DisabledIffNoMove(cur: nat, n: nat)
    requires cur < n
    ensures NavFor(cur, n).prevDisabled <==> Prev(cur, n) == cur
    ensures NavFor(cur, n).nextDisabled <==> Next(cur, n) == cur
  {
  }

  /** The label decomposes at its first space after the number, so equal labels
      have equal positions and equal chapter counts. */
  lemma {:induction false} PageInfoInjective(c1: nat, n1: nat, c2: nat, n2: nat)
    requires PageInfo(c1, n1) == PageInfo(c2, n2)
    ensures c1 == c2 && n1 == n2
  {
    var a1, b1 := NatToString(c1 + 1), NatToString(n1);
    var a2, b2 := NatToString(c2 + 1), NatToString(n2);
    var s1, s2 := PageInfo(c1, n1), PageInfo(c2, n2);
    assert s1 == "Chapter " + (a1 + (" of " + b1));
    assert s2 == "Chapter " + (a2 + (" of " + b2));
    assert s1[8..] == a1 + (" of " + b1);
    assert s2[8..] == a2 + (" of " + b2);
    DigitsBeforeSpace(a1, " of " + b1, a2, " of " + b2);
    assert b1 == (" of " + b1)[4..] && b2 == (" of " + b2)[4..];
    NatToStringInjective(c1 + 1, c2 + 1);
    NatToStringInjective(n1, n2);
  }

  /** A run of digits followed by text that starts with a space can be split in one way only. */
  lemma DigitsBeforeSpace(a1: string, t1: string, a2: string, t2: string)
    requires IsDigits(a1) && IsDigits(a2)
    requires |t1| > 0 && t1[0] == ' ' && |t2| > 0 && t2[0] == ' '
    requires a1 + t1 == a2 + t2
    ensures a1 == a2 && t1 == t2
  {
    FirstSpaceAfterDigits(a1, t1);
    FirstSpaceAfterDigits(a2, t2);
    assert |a1| == |a2|;
    assert a1 == (a1 + t1)[..|a1|] && a2 == (a2 + t2)[..|a2|];
    assert t1 == (a1 + t1)[|a1|..] && t2 == (a2 + t2)[|a2|..];
  }

  lemma FirstSpaceAfterDigits(a: string, t: string)
    requires IsDigits(a) && |t| > 0 && t[0] == ' '
    ensures (a + t)[|a|] == ' '
    ensures forall i :: 0 <= i < |a| ==> (a + t)[i] != ' '
  {
  }

  /** The index after pressing "next" k times. */
  function PressNext(cur: nat, n: nat, k: nat): nat
    decreases k
  {
    if k == 0 then cur else PressNext(Next(cur, n), n, k - 1)
  }

  /** The index after pressing "previous" k times. */
  function PressPrev(cur: nat, n: nat, k: nat): nat
    decreases k
  {
    if k == 0 then cur else PressPrev(Prev(cur, n), n, k - 1)
  }

  function Min(a: int, b: int): int { if a <= b then a else b }
  function Max(a: int, b: int): int { if a >= b then a else b }

  /** Repeated "next" walks chapter by chapter and stops at the last one, so
      every chapter is reachable from the first. */
  lemma {:induction false} PressNextReaches(cur: nat, n: nat, k: nat)
    requires cur < n
    ensures PressNext(cur, n, k) == Min(cur + k, n - 1)
    decreases k
  {
    if k > 0 {
      PressNextReaches(Next(cur, n), n, k - 1);
    }
  }

  /** Repeated "previous" walks back chapter by chapter and stops at the first. */
  lemma {:induction false} PressPrevReaches(cur: nat, n: nat, k: nat)
    requires cur < n
    ensures PressPrev(cur, n, k) == Max(cur - k, 0)
    decreases k
  {
    if k > 0 {
      PressPrevReaches(Prev(cur, n), n, k - 1);
    }
  }
}

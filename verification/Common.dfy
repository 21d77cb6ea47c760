/** What several modules share. */
module Common {
  datatype Option<T> = None | Some(value: T)

  /** A fact that is handed on whole: a contract that states it this way is not taken apart again. */
  ghost predicate Known(fact: bool) {
    fact
  }

  predicate NoDup(s: seq<nat>) {
    forall i, j :: 0 <= i < j < |s| ==> s[i] != s[j]
  }

  lemma SubsetSize(a: set<nat>, b: set<nat>)
    requires a <= b
    ensures |a| <= |b|
  {
    assert b == a + (b - a);
  }

  ghost function SetOf(s: seq<nat>): set<nat> {
    set x | x in s
  }

  lemma SetOfMore(s: seq<nat>, x: nat)
    ensures SetOf(s + [x]) == SetOf(s) + {x}
  {
  }

  lemma {:induction false} SetOfSize(s: seq<nat>)
    requires NoDup(s)
    ensures |SetOf(s)| == |s|
  {
    if s == [] {
      assert SetOf(s) == {};
    } else {
      var n := |s| - 1;
      SetOfSize(s[..n]);
      SetOfMore(s[..n], s[n]);
      assert s[..n] + [s[n]] == s;
      assert s[n] !in SetOf(s[..n]);
    }
  }
}

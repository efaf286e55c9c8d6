/** Adding up a measure over the elements of a sequence. */
module Tallies {

  function Sum(s: seq<int>): int {
    if s == [] then 0 else Sum(s[..|s| - 1]) + s[|s| - 1]
  }

  function Tally<T>(s: seq<T>, f: T -> nat): nat {
    if s == [] then 0 else Tally(s[..|s| - 1], f) + f(s[|s| - 1])
  }

  lemma TallySnoc<T>(s: seq<T>, x: T, f: T -> nat)
    ensures Tally(s + [x], f) == Tally(s, f) + f(x)
  {
    assert (s + [x])[..|s|] == s;
  }

  lemma {:induction false} TallyUpdate<T>(s: seq<T>, i: nat, x: T, f: T -> nat)
    requires i < |s|
    ensures Tally(s[i := x], f) + f(s[i]) == Tally(s, f) + f(x)
  {
    var n := |s| - 1;
    if i < n {
      TallyUpdate(s[..n], i, x, f);
      assert s[i := x][..n] == s[..n][i := x];
    } else {
      assert s[i := x][..n] == s[..n];
    }
  }

  lemma {:induction false} TallyAtLeast<T>(s: seq<T>, i: nat, f: T -> nat)
    requires i < |s|
    ensures Tally(s, f) >= f(s[i])
  {
    if i < |s| - 1 {
      TallyAtLeast(s[..|s| - 1], i, f);
    }
  }

  lemma {:induction false} TallyZero<T>(s: seq<T>, f: T -> nat)
    requires forall i :: 0 <= i < |s| ==> f(s[i]) == 0
    ensures Tally(s, f) == 0
  {
    if s != [] {
      TallyZero(s[..|s| - 1], f);
    }
  }

  lemma {:induction false} TallyPositive<T>(s: seq<T>, f: T -> nat) returns (i: nat)
    requires Tally(s, f) > 0
    ensures i < |s| && f(s[i]) > 0
  {
    var n := |s| - 1;
    if f(s[n]) > 0 {
      i := n;
    } else {
      i := TallyPositive(s[..n], f);
    }
  }

  lemma {:induction false} TallyLe<T>(s: seq<T>, f: T -> nat, g: T -> nat)
    requires forall i :: 0 <= i < |s| ==> f(s[i]) <= g(s[i])
    ensures Tally(s, f) <= Tally(s, g)
  {
    if s != [] {
      TallyLe(s[..|s| - 1], f, g);
    }
  }
}

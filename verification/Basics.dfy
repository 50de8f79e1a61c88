/** Small shared definitions. */
module Basics {

  datatype Option<T> = None | Some(value: T)

  function Min(a: int, b: int): int { if a <= b then a else b }

  function Max(a: int, b: int): int { if a >= b then a else b }

  function Abs(a: int): int { if a < 0 then -a else a }

  lemma {:induction false} SubsetSize<T>(a: set<T>, b: set<T>)
    requires a <= b
    ensures |a| <= |b|
  {
    if a != {} {
      var x :| x in a;
      SubsetSize(a - {x}, b - {x});
    }
  }

  function Members<T>(s: seq<T>): set<T>
  {
    set x | x in s
  }

  /** Distinct elements are as many as the sequence is long. */
  lemma {:induction false} DistinctSize<T>(s: seq<T>)
    requires forall i, j :: 0 <= i < j < |s| ==> s[i] != s[j]
    ensures |Members(s)| == |s|
  {
    if |s| > 0 {
      var m := s[..|s| - 1];
      DistinctSize(m);
      assert s == m + [s[|s| - 1]];
      assert Members(s) == Members(m) + {s[|s| - 1]};
    }
  }
}

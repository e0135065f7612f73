/** Values and arithmetic shared by the three puzzle solvers, the puzzle screen
    and the room controller of the mystery room. */
module Common {

  datatype Option<T> = None | Some(value: T)

  /** What a solver passes to its `onProgress` callback: the facts revealed so
      far and the puzzle-type tag. A missing (falsy) tag is written "". */
  datatype Report = Report(facts: seq<string>, tag: string)

  /** A point of the scene. The core only compares, copies and restores it. */
  datatype Vec3 = Vec3(x: real, y: real, z: real)

  /** `Math.round(k / total * 100)` for a non-negative count, computed exactly:
      the integer nearest to 100·k/total, a half rounding up. */
  function RoundPercent(k: nat, total: nat): (r: nat)
    requires total > 0
    ensures total * (2 * r - 1) <= 200 * k < total * (2 * r + 1)
  {
    (200 * k + total) / (2 * total)
  }

  /** `Math.min(100, Math.round(k / total * 100))`. */
  function CappedPercent(k: nat, total: nat): (r: nat)
    requires total > 0
    ensures r <= 100
    ensures k <= total ==> r == RoundPercent(k, total)
    ensures k >= total ==> r == 100
  {
    if k >= total then
      RoundPercentAtLeastFull(k, total);
      if k == total then RoundPercentAtMostFull(k, total); 100 else 100
    else
      RoundPercentAtMostFull(k, total);
      RoundPercent(k, total)
  }

  lemma RoundPercentAtLeastFull(k: nat, total: nat)
    requires 0 < total <= k
    ensures RoundPercent(k, total) >= 100
  {
    var a, b := 200 * k + total, 2 * total;
    var q := a / b;
    assert a == b * q + a % b && a % b < b;
    if q < 100 {
      MulMonotone(b, q + 1, 100);
    }
  }

  lemma RoundPercentAtMostFull(k: nat, total: nat)
    requires k <= total && total > 0
    ensures RoundPercent(k, total) <= 100
  {
    var a, b := 200 * k + total, 2 * total;
    var q := a / b;
    assert a == b * q + a % b && a % b >= 0;
    if q > 100 {
      MulMonotone(b, 101, q);
    }
  }

  lemma MulMonotone(b: nat, x: nat, y: nat)
    requires x <= y
    ensures b * x <= b * y
  {
    assert b * y == b * x + b * (y - x);
  }

  /** Every puzzle of the room has five steps, so a percentage is 20 per step. */
  lemma RoundPercentOfFive(k: nat)
    ensures RoundPercent(k, 5) == 20 * k
    ensures CappedPercent(k, 5) == if k <= 5 then 20 * k else 100
  {
  }

  /** `array.slice(0, n)`: the first n elements, or all of them. */
  function Slice<T>(s: seq<T>, n: nat): (r: seq<T>)
    ensures |r| == if n <= |s| then n else |s|
    ensures r == s[..|r|]
  {
    if n <= |s| then s[..n] else s
  }

  predicate Distinct<T(==)>(s: seq<T>) {
    forall i, j :: 0 <= i < j < |s| ==> s[i] != s[j]
  }

  /** A repetition-free sequence drawn from a finite set is no longer than the
      set, and if it is as long, it uses every element of the set. */
  lemma {:induction false} DistinctLength<T>(s: seq<T>, u: set<T>)
    requires Distinct(s)
    requires forall x :: x in s ==> x in u
    ensures |s| <= |u|
    ensures |s| == |u| ==> forall x :: x in u ==> x in s
  {
    if s != [] {
      var rest := s[1..];
      assert Distinct(rest) by {
        forall i, j | 0 <= i < j < |rest| ensures rest[i] != rest[j] {
          assert rest[i] == s[i + 1] && rest[j] == s[j + 1];
        }
      }
      forall x | x in rest ensures x in u - {s[0]} {
        var k :| 0 <= k < |rest| && rest[k] == x;
        assert s[k + 1] == x;
      }
      DistinctLength(rest, u - {s[0]});
      assert s == [s[0]] + rest;
    }
  }

  /** The indices 0 .. n-1. */
  function Below(n: nat): (r: set<nat>)
    ensures |r| == n
    ensures forall i: nat :: i in r <==> i < n
  {
    if n == 0 then {} else
      var r := Below(n - 1);
      assert n - 1 !in r;
      r + {n - 1}
  }

  /** Appending an element that is not yet present keeps a sequence distinct. */
  lemma DistinctAppend<T>(s: seq<T>, x: T)
    requires Distinct(s) && x !in s
    ensures Distinct(s + [x])
  {
    var t := s + [x];
    forall i, j | 0 <= i < j < |t| ensures t[i] != t[j] {
      if j == |s| { assert t[i] == s[i]; }
    }
  }

  /** A repetition-free sequence whose elements all occur in another
      repetition-free sequence is no longer than it. */
  lemma DistinctCovered<T>(a: seq<T>, b: seq<T>)
    requires Distinct(a) && Distinct(b)
    requires forall x :: x in a ==> x in b
    ensures |a| <= |b|
  {
    DistinctCard(b);
    DistinctLength(a, set x | x in b);
  }

  /** A repetition-free sequence has as many entries as different elements. */
  lemma {:induction false} DistinctCard<T>(s: seq<T>)
    requires Distinct(s)
    ensures |set x | x in s| == |s|
  {
    if s != [] {
      var rest := s[1..];
      assert Distinct(rest) by {
        forall i, j | 0 <= i < j < |rest| ensures rest[i] != rest[j] {
          assert rest[i] == s[i + 1] && rest[j] == s[j + 1];
        }
      }
      DistinctCard(rest);
      assert (set x | x in s) == (set x | x in rest) + {s[0]};
      assert s[0] !in rest by {
        forall k | 0 <= k < |rest| ensures rest[k] != s[0] {
          assert rest[k] == s[k + 1];
        }
      }
    }
  }
}

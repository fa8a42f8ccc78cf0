/** Selecting report bits by mask bits: the shape of a run of
    `out |= in & m ? BIT : 0` statements, and what such a run computes when
    the report bits are pairwise-distinct single bits. A run is a sequence of
    lines (mask bit, report bit). */
module BitSelect {
  import opened GamepadReport

  /** C's `btn & m` used as a condition. */
  predicate Pressed(btn: bv32, m: bv32) {
    btn & m != 0
  }

  /** Which lines of the run fire for a mask. */
  function Firing(btn: bv32, m: seq<(bv32, bv16)>): (fire: seq<bool>)
    ensures |fire| == |m|
    ensures forall j :: 0 <= j < |m| ==> (fire[j] <==> Pressed(btn, m[j].0))
  {
    seq(|m|, j requires 0 <= j < |m| => Pressed(btn, m[j].0))
  }

  /** The value after the first n lines, starting from 0: each firing line
      ORs in its report bit. */
  function OrFirst(fire: seq<bool>, m: seq<(bv32, bv16)>, n: nat): bv16
    requires |fire| == |m| && n <= |m|
  {
    if n == 0 then 0 else OrFirst(fire, m, n - 1) | (if fire[n - 1] then m[n - 1].1 else 0)
  }

  /** The value after the whole run for a mask. */
  function OrMapped(btn: bv32, m: seq<(bv32, bv16)>): bv16 {
    OrFirst(Firing(btn, m), m, |m|)
  }

  /** `a` and `b` share no bit. */
  predicate Disjoint(a: bv16, b: bv16) {
    a & b == 0
  }

  /** The report bits of a run are pairwise distinct single bits. */
  predicate DistinctSingleBits(m: seq<(bv32, bv16)>) {
    (forall j :: 0 <= j < |m| ==> SingleBit(m[j].1))
    && (forall i, j :: 0 <= i < j < |m| ==> m[i].1 != m[j].1)
  }

  lemma DistinctSingleBitsDisjoint(c: bv16, d: bv16)
    requires SingleBit(c) && SingleBit(d) && c != d
    ensures Disjoint(c, d)
  {
  }

  /** A bit that none of the first n lines can set is not set after them. */
  lemma {:induction false} OrFirstOnlyMapped(fire: seq<bool>, m: seq<(bv32, bv16)>, n: nat, c: bv16)
    requires |fire| == |m| && n <= |m|
    requires forall j :: 0 <= j < n ==> Disjoint(m[j].1, c)
    ensures Disjoint(OrFirst(fire, m, n), c)
  {
    if n > 0 {
      OrFirstOnlyMapped(fire, m, n - 1, c);
      assert Disjoint(m[n - 1].1, c);
    }
  }

  /** With pairwise-distinct single report bits, line j's report bit is set
      after the first n lines exactly when j is one of them and it fired. */
  lemma {:induction false} OrFirstBit(fire: seq<bool>, m: seq<(bv32, bv16)>, n: nat, j: nat)
    requires DistinctSingleBits(m)
    requires |fire| == |m| && n <= |m| && j < |m|
    ensures !Disjoint(OrFirst(fire, m, n), m[j].1) <==> j < n && fire[j]
  {
    if n > 0 {
      OrFirstBit(fire, m, n - 1, j);
      if j == n - 1 {
        assert SingleBit(m[j].1);
      } else {
        DistinctSingleBitsDisjoint(m[n - 1].1, m[j].1);
      }
    }
  }

  /** When none of the first n lines fires the result is 0. */
  lemma {:induction false} OrFirstNoneFiring(fire: seq<bool>, m: seq<(bv32, bv16)>, n: nat)
    requires |fire| == |m| && n <= |m|
    requires forall j :: 0 <= j < n ==> !fire[j]
    ensures OrFirst(fire, m, n) == 0
  {
    if n > 0 {
      OrFirstNoneFiring(fire, m, n - 1);
      assert !fire[n - 1];
    }
  }

  /** When exactly one of the first n lines fires the result is that line's
      bit. */
  lemma {:induction false} OrFirstSingle(fire: seq<bool>, m: seq<(bv32, bv16)>, n: nat, j: nat)
    requires |fire| == |m| && j < n <= |m|
    requires fire[j] && forall i :: 0 <= i < n && i != j ==> !fire[i]
    ensures OrFirst(fire, m, n) == m[j].1
  {
    if n == j + 1 {
      OrFirstNoneFiring(fire, m, j);
    } else {
      OrFirstSingle(fire, m, n - 1, j);
      assert !fire[n - 1];
    }
  }

  /** Masks that agree under `f` agree on every bit `m` inside `f`. */
  lemma SameUnderMask(a: bv32, b: bv32, f: bv32, m: bv32)
    requires a & f == b & f && m & f == m
    ensures Pressed(a, m) <==> Pressed(b, m)
  {
  }
}

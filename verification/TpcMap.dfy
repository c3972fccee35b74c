/** tb_search_guest_pc_from_tb_pc (exec-all.h): binary search in the pairs of translated and guest
    addresses that a translated block keeps. */
module TpcMap {
  import opened Common

  /** Even entries hold translated addresses, odd ones the guest addresses that they stand for. */
  function Translated(pairs: seq<nat>, k: nat): nat
    requires 2 * k < |pairs|
  {
    pairs[2 * k]
  }

  /** Translated code comes in the order of the instructions. */
  predicate Ascending(pairs: seq<nat>) {
    |pairs| % 2 == 0 && forall i, j :: 0 <= i < j < |pairs| / 2 ==> Translated(pairs, i) <= Translated(pairs, j)
  }

  /** The last pair whose translated address is not beyond tbPc. */
  predicate IsLastUpTo(pairs: seq<nat>, tbPc: nat, k: nat) {
    && 2 * k + 1 < |pairs| && Translated(pairs, k) <= tbPc
    && forall j :: k < j < |pairs| / 2 ==> Translated(pairs, j) > tbPc
  }

  method SearchGuestPc(tpc2gpc: Option<seq<nat>>, tbPc: nat) returns (pc: nat)
    requires tpc2gpc.Some? ==> Ascending(tpc2gpc.value)
    ensures tpc2gpc.None? || tpc2gpc.value == [] || tbPc < tpc2gpc.value[0] ==> pc == 0
    ensures tpc2gpc.Some? && tpc2gpc.value != [] && tbPc >= tpc2gpc.value[0] ==>
      exists k :: IsLastUpTo(tpc2gpc.value, tbPc, k) && pc == tpc2gpc.value[2 * k + 1]
  {
    pc := 0;
    if tpc2gpc.None? || tpc2gpc.value == [] {
      return;
    }
    hide Ascending;
    hide IsLastUpTo;
    var pairs := tpc2gpc.value;
    assert |pairs| % 2 == 0 by { EvenLength(pairs); }
    var mMin, mMax := 0, |pairs| - 2;
    if tbPc < pairs[0] {
      return;
    }
    while mMin <= mMax
      invariant mMin % 2 == 0 && mMax % 2 == 0 && mMin <= mMax < |pairs|
      invariant pairs[mMin] <= tbPc && (mMax + 2 < |pairs| ==> tbPc < pairs[mMax + 2])
      decreases mMax - mMin
    {
      var m := (mMin + mMax) / 2 / 2 * 2;
      Halves(mMin, mMax, m);
      if tbPc < pairs[m] {
        mMax := m - 2;
      } else if m == mMax || tbPc < pairs[m + 2] {
        LastIs(pairs, tbPc, m / 2, m);
        return pairs[m + 1];
      } else {
        mMin := m + 2;
      }
    }
    // The loop only ends by returning from inside.
    assert false;
  }

  lemma LastIs(pairs: seq<nat>, tbPc: nat, k: nat, m: nat)
    requires Ascending(pairs) && m == 2 * k && m + 1 < |pairs| && pairs[m] <= tbPc
    requires m + 2 < |pairs| ==> tbPc < pairs[m + 2]
    ensures IsLastUpTo(pairs, tbPc, k) && 2 * k + 1 == m + 1
  {
    assert m + 2 < |pairs| ==> Translated(pairs, k + 1) == pairs[m + 2];
  }

  lemma EvenLength(pairs: seq<nat>)
    requires Ascending(pairs)
    ensures |pairs| % 2 == 0
  {}

  lemma Halves(a: nat, b: nat, m: nat)
    requires a % 2 == 0 && b % 2 == 0 && a <= b && m == (a + b) / 2 / 2 * 2
    ensures m % 2 == 0 && a <= m <= b && m / 2 * 2 == m
  {}
}

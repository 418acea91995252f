/** Types shared by the models. */
module Basics {
  datatype Option<+T> = None | Some(value: T)

  const INT32_MAX := 0x7FFF_FFFF

  type int32 = x: int | -INT32_MAX - 1 <= x <= INT32_MAX

  // ----- Runs in which something starts and ends -----

  /** Something started before point `n`, and nothing since has ended it. */
  ghost predicate OnSince(starts: seq<bool>, ends: seq<bool>, n: nat, i: nat)
    requires n <= |starts| == |ends|
  {
    i < n && starts[i] && forall j: nat :: i < j < n ==> !ends[j]
  }

  ghost predicate On(starts: seq<bool>, ends: seq<bool>, n: nat)
    requires n <= |starts| == |ends|
  {
    exists i: nat :: OnSince(starts, ends, n, i)
  }

  lemma OnOneMore(starts: seq<bool>, ends: seq<bool>, n: nat)
    requires n < |starts| == |ends|
    ensures On(starts, ends, n + 1) <==> starts[n] || (On(starts, ends, n) && !ends[n])
  {
    var m := n + 1;
    if starts[n] {
      assert OnSince(starts, ends, m, n);
    }
    if On(starts, ends, n) && !ends[n] {
      var i: nat :| OnSince(starts, ends, n, i);
      assert OnSince(starts, ends, m, i);
    }
    if On(starts, ends, m) && !starts[n] {
      var i: nat :| OnSince(starts, ends, m, i);
      assert OnSince(starts, ends, n, i);
    }
  }
}

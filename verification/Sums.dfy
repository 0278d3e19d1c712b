/** Sums over the threads of a system. */
module Sums {

  function Total(loads: seq<nat>): nat {
    if loads == [] then 0 else Total(loads[..|loads| - 1]) + loads[|loads| - 1]
  }

  lemma {:induction false} TotalUpdate(loads: seq<nat>, i: nat, load: nat)
    requires i < |loads|
    ensures Total(loads[i := load]) == Total(loads) - loads[i] + load
  {
    var last := |loads| - 1;
    if i < last {
      TotalUpdate(loads[..last], i, load);
      assert loads[i := load][..last] == loads[..last][i := load];
    } else {
      assert loads[i := load][..last] == loads[..last];
    }
  }

  lemma {:induction false} TotalAtMost(loads: seq<nat>, i: nat)
    requires i < |loads| && forall j :: 0 <= j < |loads| ==> loads[j] <= 1
    ensures Total(loads) <= |loads| - 1 + loads[i] && Total(loads) <= |loads|
  {
    var last := |loads| - 1;
    if last > 0 { TotalAtMost(loads[..last], if i < last then i else 0); }
  }
}

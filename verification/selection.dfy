/**
 * Picking, among the first `n` positions of a run, those where something
 * happened, and what happened there, in position order. The import report
 * lists its failed rows this way.
 */
module Selection {
  import opened Wrappers

  /** The positions below `n` where `f` yields a value, in increasing order. */
  function Selected<T>(f: int -> Option<T>, n: nat): (ps: seq<nat>)
    ensures forall k :: 0 <= k < |ps| ==> ps[k] < n && f(ps[k]).Some?
    ensures forall j, k :: 0 <= j < k < |ps| ==> ps[j] < ps[k]
  {
    if n == 0 then []
    else Selected(f, n - 1) + if f(n - 1).Some? then [n - 1] else []
  }

  /** The values `f` yields below `n`, in position order. */
  function Collect<T>(f: int -> Option<T>, n: nat): (vs: seq<T>)
    ensures |vs| == |Selected(f, n)|
    ensures forall k :: 0 <= k < |vs| ==> vs[k] == f(Selected(f, n)[k]).value
  {
    if n == 0 then []
    else Collect(f, n - 1) + if f(n - 1).Some? then [f(n - 1).value] else []
  }

  /** Every position below `n` where `f` yields a value is selected. */
  lemma {:induction false} SelectedComplete<T>(f: int -> Option<T>, n: nat, i: int)
    requires 0 <= i < n && f(i).Some?
    ensures i in Selected(f, n)
  {
    if i < n - 1 {
      SelectedComplete(f, n - 1, i);
    }
  }
}

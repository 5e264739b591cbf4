/** Index bookkeeping shared by the stages that keep some of their input in order. */
module Sequences {

  /** The positions in `idx` are strictly increasing: selecting them keeps the input order. */
  ghost predicate StrictlyIncreasing(idx: seq<nat>) {
    forall k, l :: 0 <= k < l < |idx| ==> idx[k] < idx[l]
  }

  ghost predicate InRange(idx: seq<nat>, n: nat) {
    forall k :: 0 <= k < |idx| ==> idx[k] < n
  }

  /** The elements of `s` at the positions `idx`, in the order of `idx`. */
  function Select<T>(s: seq<T>, idx: seq<nat>): (r: seq<T>)
    requires InRange(idx, |s|)
    ensures |r| == |idx|
    ensures forall k :: 0 <= k < |idx| ==> r[k] == s[idx[k]]
  {
    seq(|idx|, k requires 0 <= k < |idx| => s[idx[k]])
  }

  lemma SelectAppend<T>(s: seq<T>, idx: seq<nat>, i: nat)
    requires InRange(idx, |s|) && i < |s|
    ensures InRange(idx + [i], |s|)
    ensures Select(s, idx + [i]) == Select(s, idx) + [s[i]]
  {
  }

  /** Concatenation of a sequence of groups. */
  function Flatten<T>(gs: seq<seq<T>>): (r: seq<T>)
  {
    if gs == [] then [] else gs[0] + Flatten(gs[1..])
  }
}

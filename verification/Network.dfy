/** The network as a script: how each successive operation on a connection turns out. */
module Network {
  import opened Common

  /** Everything asked for, at most `n + 1` bytes, or an error. */
  datatype Step = Whole | Short(n: nat) | Fail

  function Head(net: seq<Step>): Step {
    if net == [] then Whole else net[0]
  }

  function Tail(net: seq<Step>): seq<Step> {
    if net == [] then [] else net[1..]
  }

  /** Bytes one `read` hands out when `want` are asked for and `left` remain. */
  function Given(step: Step, want: nat, left: nat): (n: nat)
    ensures n <= want && n <= left
    ensures want > 0 && left > 0 && !step.Fail? ==> n > 0
  {
    match step
    case Whole => Min(want, left)
    case Short(n) => Min(n + 1, Min(want, left))
    case Fail => 0
  }

  predicate NeverFails(net: seq<Step>) {
    forall i :: 0 <= i < |net| ==> !net[i].Fail?
  }
}

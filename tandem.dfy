/** `tendem`: whether two genes are tandem neighbours, that is on the same
    chromosome and less than 200 apart. */
module Tandem {

  /** The distance below which two genes on one chromosome are tandem. */
  const Window: real := 200.0

  function Abs(x: real): real {
    if x < 0.0 then -x else x
  }

  function IsTandem(chr1: string, chr2: string, loc1: real, loc2: real): (r: bool)
    ensures r <==> chr1 == chr2 && loc2 - Window < loc1 < loc2 + Window
  {
    chr1 == chr2 && Abs(loc1 - loc2) < Window
  }

  /** Being tandem does not depend on which gene comes first. */
  lemma IsTandemSymmetric(chr1: string, chr2: string, loc1: real, loc2: real)
    ensures IsTandem(chr1, chr2, loc1, loc2) == IsTandem(chr2, chr1, loc2, loc1)
  {
  }
}

/**
 SEG-Y coordinate scaling. Byte 71 of a trace header (the "SGS" scalar) says how raw
 CDP coordinates become real ones: a positive scalar multiplies, a negative one divides
 by its magnitude, and zero leaves the value alone.
 */
module Scaling {

  /** `apply_sgs_scaling(value, sgs)`. */
  function ApplySgs(value: real, sgs: int): (r: real)
    ensures sgs == 0 ==> r == value
    ensures sgs < 0 ==> r * ((-sgs) as real) == value
    ensures sgs > 0 ==> r / (sgs as real) == value
    ensures sgs == 1 || sgs == -1 ==> r == value
  {
    if sgs == 0 then value
    else if sgs < 0 then value / ((-sgs) as real)
    else value * (sgs as real)
  }

  /** The readers replace a zero scalar read from the header by 1 before using it. */
  function EffectiveSgs(header: int): (s: int)
    ensures s != 0
    ensures header == 0 ==> s == 1
    ensures header != 0 ==> s == header
  {
    if header == 0 then 1 else header
  }

  /** For a positive `k`, scaling by `-k` undoes scaling by `k`, and the other way round. */
  lemma ScalingInverse(value: real, k: int)
    requires k > 0
    ensures ApplySgs(ApplySgs(value, k), -k) == value
    ensures ApplySgs(ApplySgs(value, -k), k) == value
  {
  }

  /** Replacing a zero scalar by 1 never changes a scaled coordinate. */
  lemma EffectiveSgsKeepsScaling(value: real, header: int)
    ensures ApplySgs(value, EffectiveSgs(header)) == ApplySgs(value, header)
  {
  }
}

/**
 * The test project's site header carries its own copy of `cn`; its fallback
 * branch is the same four-step pipeline, written one step per line.
 */
module SiteHeader {
  import ClassNames

  /** The fallback branch of the header's local `cn`. */
  function CnFallback(inputs: seq<string>): (r: string)
    ensures r == ClassNames.CnFallback(inputs)
    ensures ClassNames.Canonical(r)
    ensures ClassNames.Words(r) == ClassNames.FlatWords(inputs)
  {
    var kept := ClassNames.Filter(inputs);
    var joined := ClassNames.Join(" ", kept);
    var trimmed := ClassNames.Trim(joined);
    ClassNames.Collapse(trimmed)
  }
}

/** The one use the utilities make of `difflib`: the similarity ratio of two
    strings, always taken on their lowered forms. */
module Difflib {
  import opened Text

  /** `difflib.SequenceMatcher(None, a, b).ratio()`. The matching algorithm is
      not modelled: every result that uses it holds for any similarity
      function. */
  type Ratio = (string, string) -> real

  /** The similarity of two strings compared without regard to ASCII case. */
  function LoweredRatio(ratio: Ratio, a: string, b: string): real
  {
    ratio(Lower(a), Lower(b))
  }
}

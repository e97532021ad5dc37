/** The self-contained helpers of generic.go. */
module Generic {

  newtype uint16 = x: int | 0 <= x < 0x1_0000

  /**
   * AreStringSliceSame: different lengths answer false before any element is compared;
   * otherwise the first index whose strings differ answers false, and reaching the end
   * answers true. The answer is sequence equality.
   */
  method AreStringSliceSame(s1: seq<string>, s2: seq<string>) returns (same: bool)
    ensures |s1| != |s2| ==> !same
    ensures same <==> s1 == s2
  {
    if |s1| != |s2| {
      return false;
    }
    for i := 0 to |s1|
      invariant forall j :: 0 <= j < i ==> s1[j] == s2[j]
    {
      if s2[i] != s1[i] {
        return false;
      }
    }
    return true;
  }

  /** MinUint16: the smaller of the two. */
  function MinUint16(x: uint16, y: uint16): (r: uint16)
    ensures r <= x && r <= y
    ensures r == x || r == y
  {
    if x < y then x else y
  }

  /** MaxUint16: the larger of the two. */
  function MaxUint16(x: uint16, y: uint16): (r: uint16)
    ensures r >= x && r >= y
    ensures r == x || r == y
  {
    if x > y then x else y
  }

  /**
   * Percent with its floating-point branch, `int(float64(v1) / float64(v2) * 100)`,
   * passed in as `floatPercent`: a zero divisor gives 0 whatever `v1` is.
   */
  function Percent(v1: int, v2: int, floatPercent: (int, int) -> int): (r: int)
    ensures v2 == 0 ==> r == 0
    ensures v2 != 0 ==> r == floatPercent(v1, v2)
  {
    if 0 == v2 then 0 else floatPercent(v1, v2)
  }
}

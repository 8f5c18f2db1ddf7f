/** The diagnosis masking applied to every patient record an endpoint returns:
    the first three characters stay legible and every later one becomes `*`. */
module Masking {

  /** How many leading characters of a diagnosis stay legible. */
  const Visible: nat := 3

  /** Python's slice `s[:n]` for `n >= 0`: the first `n` characters, or all of
      `s` when it is shorter. */
  function Take(s: string, n: nat): (r: string)
    ensures |r| == if |s| < n then |s| else n
    ensures r == s[..|r|]
  {
    if |s| < n then s else s[..n]
  }

  /** Python's string repetition `c * n`: `n` copies of `c`, and the empty
      string when `n` is zero or negative. */
  function Repeat(c: char, n: int): (r: string)
    ensures |r| == if n <= 0 then 0 else n
    ensures forall i :: 0 <= i < |r| ==> r[i] == c
    decreases n
  {
    if n <= 0 then [] else [c] + Repeat(c, n - 1)
  }

  /** The masking expression of the endpoints, with its guard: an empty
      diagnosis is left alone, any other keeps its first three characters and
      gets one `*` per remaining character (none when it is three or shorter). */
  function Mask(d: string): (r: string)
    ensures |r| == |d|
    ensures forall i :: 0 <= i < |d| && i < Visible ==> r[i] == d[i]
    ensures forall i :: Visible <= i < |d| ==> r[i] == '*'
    ensures |d| <= Visible ==> r == d
  {
    if |d| == 0 then d else Take(d, Visible) + Repeat('*', |d| - Visible)
  }

  /** Reference definition of masking, one position at a time. */
  function MaskedAt(d: string, i: nat): char
    requires i < |d|
  {
    if i < Visible then d[i] else '*'
  }

  /** Masking agrees with the position-wise reference definition. */
  lemma MaskIsPointwise(d: string)
    ensures Mask(d) == seq(|d|, i requires 0 <= i < |d| => MaskedAt(d, i))
  {
  }

  /** The legible prefix is exactly the first `min(3, |d|)` characters. */
  lemma MaskKeepsPrefix(d: string)
    ensures var n := if |d| < Visible then |d| else Visible;
            Mask(d)[..n] == d[..n]
  {
  }

  /** Masking a masked diagnosis changes nothing, so a reader cannot tell
      whether the stored value was masked once or twice. */
  lemma MaskIdempotent(d: string)
    ensures Mask(Mask(d)) == Mask(d)
  {
  }

  /** Concrete values: an eight-letter diagnosis, a three-letter one, and the
      short and empty strings that come back unchanged. */
  lemma MaskExamples()
    ensures Mask("Diabetes") == "Dia*****"
    ensures Mask("Flu") == "Flu"
    ensures Mask("Hi") == "Hi"
    ensures Mask("") == ""
  {
  }
}

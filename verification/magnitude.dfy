/** The magnitude of a real, Python's `abs`: `sizeof_fmt` compares the
    magnitude of the byte count with 1024, and the hit-ratio bounds are stated
    on magnitudes. */
module Magnitude {

  function Abs(x: real): (a: real)
    ensures a >= 0.0
    ensures a == x || a == -x
    ensures x >= 0.0 ==> a == x
  {
    if x < 0.0 then -x else x
  }
}

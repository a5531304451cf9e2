/** `sizeof_fmt`: a byte count rendered with a binary unit prefix. The value is
    divided by 1024 until its magnitude drops below 1024, trying the units
    '', K, M, G, T, P, E and Z in turn, and falling back to Yi when even Z is
    too small. The model keeps the chosen unit and the scaled value; how
    `%3.1f` prints that value is not modelled. */
module SizeFormat {
  import opened Magnitude

  /** The unit prefixes tried in order; index 8 stands for the fallback. */
  const Units: seq<string> := ["", "K", "M", "G", "T", "P", "E", "Z"]
  const Fallback: string := "Yi"
  const Base: real := 1024.0

  /** 1024 to the power k. */
  function Pow1024(k: nat): (p: real)
    ensures p >= 1.0
  {
    if k == 0 then 1.0 else Base * Pow1024(k - 1)
  }

  /** The pieces of the rendered string: the scaled value, the unit (by index
      into Units, |Units| meaning Fallback) and the suffix appended after it. */
  datatype HumanSize = HumanSize(value: real, unitIndex: nat, suffix: string) {
    function Unit(): string {
      if unitIndex < |Units| then Units[unitIndex] else Fallback
    }
  }

  /** num expressed in the k-th unit: divided k times by 1024, as the loop
      does it. */
  function Scaled(num: real, k: nat): real {
    if k == 0 then num else Scaled(num, k - 1) / Base
  }

  /** Unit k fits num when num expressed in that unit is below 1024 in
      magnitude. */
  predicate Fits(num: real, k: nat) {
    Abs(Scaled(num, k)) < Base
  }

  /** The loop from the k-th unit onward, applied to num, which is orig already
      divided k times by 1024 without any earlier unit fitting. Returns the
      index at which the loop stops and the value it prints there. */
  function ScaleFrom(ghost orig: real, num: real, k: nat): (res: (nat, real))
    requires k <= |Units|
    requires num == Scaled(orig, k)
    requires forall j :: 0 <= j < k ==> !Fits(orig, j)
    ensures k <= res.0 <= |Units|
    ensures res.1 == Scaled(orig, res.0)
    ensures res.0 < |Units| ==> Fits(orig, res.0)
    ensures forall j :: 0 <= j < res.0 ==> !Fits(orig, j)
    decreases |Units| - k
  {
    if k == |Units| then (k, num)
    else if Abs(num) < Base then (k, num)
    else ScaleFrom(orig, num / Base, k + 1)
  }

  /** `sizeof_fmt(num, suffix)`: the unit is the first one that fits, or Yi when
      none does; the value printed is num expressed in that unit; the suffix
      follows. */
  function SizeofFmt(num: real, suffix: string): (h: HumanSize)
    ensures h.suffix == suffix
    ensures h.unitIndex <= |Units|
    ensures h.value == Scaled(num, h.unitIndex)
    ensures h.unitIndex < |Units| ==> Fits(num, h.unitIndex) && h.Unit() == Units[h.unitIndex]
    ensures h.unitIndex == |Units| ==> h.Unit() == Fallback
    ensures forall j :: 0 <= j < h.unitIndex ==> !Fits(num, j)
  {
    var res := ScaleFrom(num, num, 0);
    HumanSize(res.1, res.0, suffix)
  }

  /** Expressing a value in unit k and multiplying back by 1024^k gives the
      value again: the division is exact over the reals. */
  lemma {:induction false} ScaledRoundTrip(num: real, k: nat)
    ensures Scaled(num, k) * Pow1024(k) == num
  {
    if k > 0 {
      ScaledRoundTrip(num, k - 1);
      var s := Scaled(num, k - 1);
      assert (s / Base) * (Base * Pow1024(k - 1)) == s * Pow1024(k - 1);
    }
  }

  /** Scaling keeps the sign of the value, since only the comparison takes
      the absolute value. */
  lemma {:induction false} ScaledKeepsSign(num: real, k: nat)
    ensures Scaled(num, k) < 0.0 <==> num < 0.0
    ensures Scaled(num, k) == 0.0 <==> num == 0.0
  {
    if k > 0 {
      ScaledKeepsSign(num, k - 1);
    }
  }

  /** A larger magnitude stays at least as large in every unit. */
  lemma {:induction false} ScaledMonotone(a: real, b: real, k: nat)
    requires Abs(a) <= Abs(b)
    ensures Abs(Scaled(a, k)) <= Abs(Scaled(b, k))
  {
    if k > 0 {
      ScaledMonotone(a, b, k - 1);
    }
  }

  /** Once a unit fits, every larger unit fits too. */
  lemma {:induction false} FitsUpward(num: real, j: nat, k: nat)
    requires j <= k && Fits(num, j)
    ensures Fits(num, k)
  {
    if j < k {
      FitsUpward(num, j, k - 1);
    }
  }

  /** Unit k fits exactly when |num| < 1024^(k+1). */
  lemma FitsIffBelowPower(num: real, k: nat)
    ensures Fits(num, k) <==> Abs(num) < Pow1024(k + 1)
  {
    ScaledRoundTrip(num, k);
    ScaledKeepsSign(num, k);
    var s, p := Scaled(num, k), Pow1024(k);
    assert Abs(num) == Abs(s) * p;
    assert Pow1024(k + 1) == Base * p;
    if Abs(s) < Base {
      assert Abs(s) * p < Base * p;
    } else {
      assert Abs(s) * p >= Base * p;
    }
  }

  /** The unit chosen is THE least unit that fits (or Yi when none does): any
      index with that description is the one SizeofFmt picks. */
  lemma UnitIsLeastFit(num: real, suffix: string, k: nat)
    requires k <= |Units|
    requires k < |Units| ==> Fits(num, k)
    requires forall j :: 0 <= j < k ==> !Fits(num, j)
    ensures SizeofFmt(num, suffix).unitIndex == k
    ensures SizeofFmt(num, suffix).value == Scaled(num, k)
  {
  }

  /** Above the first unit, the value printed is at least 1: the previous unit
      did not fit, so one more division leaves at least 1. With the bound
      below 1024 this puts a fitting value in [1, 1024). */
  lemma SizeofFmtAtLeastOne(num: real, suffix: string)
    ensures SizeofFmt(num, suffix).unitIndex > 0 ==> Abs(SizeofFmt(num, suffix).value) >= 1.0
    ensures SizeofFmt(num, suffix).unitIndex < |Units| ==> Abs(SizeofFmt(num, suffix).value) < Base
  {
    var h := SizeofFmt(num, suffix);
    if h.unitIndex > 0 {
      assert !Fits(num, h.unitIndex - 1);
      assert h.value == Scaled(num, h.unitIndex - 1) / Base;
    }
  }

  /** The value printed has the sign of the byte count. */
  lemma SizeofFmtKeepsSign(num: real, suffix: string)
    ensures SizeofFmt(num, suffix).value < 0.0 <==> num < 0.0
    ensures SizeofFmt(num, suffix).value == 0.0 <==> num == 0.0
  {
    ScaledKeepsSign(num, SizeofFmt(num, suffix).unitIndex);
  }

  /** A larger magnitude never gets a smaller unit. */
  lemma SizeofFmtUnitMonotone(a: real, b: real, suffix: string)
    requires Abs(a) <= Abs(b)
    ensures SizeofFmt(a, suffix).unitIndex <= SizeofFmt(b, suffix).unitIndex
  {
    var ka, kb := SizeofFmt(a, suffix).unitIndex, SizeofFmt(b, suffix).unitIndex;
    if kb < ka {
      ScaledMonotone(a, b, kb);
      assert Fits(a, kb);
    }
  }

  /** The worked values: 0 is "0.0b", 1024 is "1.0Kb", 1536 is "1.5Kb",
      2048 is "2.0Kb" and 2^30 is "1.0Gb". */
  lemma SizeofFmtExamples()
    ensures SizeofFmt(0.0, "b") == HumanSize(0.0, 0, "b")
    ensures SizeofFmt(1024.0, "b") == HumanSize(1.0, 1, "b")
    ensures SizeofFmt(1536.0, "b") == HumanSize(1.5, 1, "b")
    ensures SizeofFmt(2048.0, "b") == HumanSize(2.0, 1, "b")
    ensures SizeofFmt(1073741824.0, "b") == HumanSize(1.0, 3, "b")
    ensures SizeofFmt(1073741824.0, "b").Unit() == "G"
  {
    UnitIsLeastFit(0.0, "b", 0);
    UnitIsLeastFit(1024.0, "b", 1);
    UnitIsLeastFit(1536.0, "b", 1);
    UnitIsLeastFit(2048.0, "b", 1);
    assert Scaled(1073741824.0, 3) == 1.0;
    UnitIsLeastFit(1073741824.0, "b", 3);
  }
}

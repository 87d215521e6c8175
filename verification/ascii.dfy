/**
 * The ASCII mapper: a brightness becomes one character of a fixed ramp of
 * increasing visual density, `" .:-=+*#%@"`.
 */
module Ascii {
  import opened GoInt

  /** The ramp, from sparse to dense. */
  const Ramp: seq<char> := " .:-=+*#%@"

  /** Brightness is clamped to [0, 255] before it is scaled. */
  const MaxBrightness: int := 255

  /** The ten ramp characters are pairwise distinct, so a character of the
      ramp determines its index. */
  lemma RampDistinct()
    ensures |Ramp| == 10
    ensures forall i, j :: 0 <= i < j < |Ramp| ==> Ramp[i] != Ramp[j]
  {
  }

  function Clamp(brightness: int): (b: int)
    ensures 0 <= b <= MaxBrightness
    ensures 0 <= brightness <= MaxBrightness ==> b == brightness
    ensures brightness < 0 ==> b == 0
    ensures brightness > MaxBrightness ==> b == MaxBrightness
  {
    if brightness < 0 then 0
    else if brightness > MaxBrightness then MaxBrightness
    else brightness
  }

  /** The scaled index before the defensive re-clamp. */
  function RawIndex(brightness: int): int
  {
    Quo(Clamp(brightness) * (|Ramp| - 1), MaxBrightness)
  }

  /** The index into the ramp after the defensive re-clamp. */
  function RampIndex(brightness: int): (i: nat)
    ensures i < |Ramp|
  {
    var index := RawIndex(brightness);
    if index < 0 then 0
    else if index >= |Ramp| then |Ramp| - 1
    else index
  }

  /** The character drawn for a brightness. */
  function BrightnessToAscii(brightness: int): (c: char)
    ensures c in Ramp
  {
    Ramp[RampIndex(brightness)]
  }

  /** After clamping, the scaled index already lies in [0, 9], so the
      defensive re-clamp never changes it. */
  lemma DefensiveClampIsNoop(brightness: int)
    ensures 0 <= RawIndex(brightness) < |Ramp|
    ensures RampIndex(brightness) == RawIndex(brightness)
  {
    var b := Clamp(brightness);
    QuoIsFloor(b * 9, MaxBrightness);
    assert b * 9 <= 255 * 9;
  }

  /** The index chosen is the one whose band of brightness contains the
      clamped value: index k covers exactly the clamped brightnesses b with
      255*k <= 9*b < 255*(k+1). */
  lemma RampIndexBand(brightness: int, k: int)
    ensures RampIndex(brightness) == k <==>
              MaxBrightness * k <= Clamp(brightness) * (|Ramp| - 1) < MaxBrightness * (k + 1)
    ensures 0 <= k < |Ramp| ==>
              (BrightnessToAscii(brightness) == Ramp[k] <==>
               MaxBrightness * k <= Clamp(brightness) * (|Ramp| - 1) < MaxBrightness * (k + 1))
  {
    RampDistinct();
    DefensiveClampIsNoop(brightness);
    var b := Clamp(brightness);
    var q := RawIndex(brightness);
    QuoIsFloor(b * 9, MaxBrightness);
    assert 255 * q <= b * 9 < 255 * (q + 1);
    if 255 * k <= b * 9 < 255 * (k + 1) {
      BandUnique(b * 9, q, k);
    }
  }

  /** A value lies in at most one band of width 255. */
  lemma BandUnique(v: int, q: int, k: int)
    requires 255 * q <= v < 255 * (q + 1)
    requires 255 * k <= v < 255 * (k + 1)
    ensures q == k
  {
  }

  /** Brightnesses below 0 draw the same character as 0, a space. */
  lemma ClampLow(brightness: int)
    requires brightness < 0
    ensures BrightnessToAscii(brightness) == BrightnessToAscii(0) == ' '
  {
  }

  /** Brightnesses above 255 draw the same character as 255, an `@`. */
  lemma ClampHigh(brightness: int)
    requires brightness > MaxBrightness
    ensures BrightnessToAscii(brightness) == BrightnessToAscii(MaxBrightness) == '@'
  {
  }

  /** The darkest character is drawn exactly for brightness up to 28, the
      densest exactly for brightness 255 and above. */
  lemma RampEndpoints(brightness: int)
    ensures BrightnessToAscii(brightness) == ' ' <==> brightness <= 28
    ensures BrightnessToAscii(brightness) == '@' <==> brightness >= MaxBrightness
  {
    RampDistinct();
    RampIndexBand(brightness, 0);
    RampIndexBand(brightness, 9);
  }

  /** A brighter input never selects a sparser character. */
  lemma Monotone(b1: int, b2: int)
    requires b1 <= b2
    ensures RampIndex(b1) <= RampIndex(b2)
  {
    DefensiveClampIsNoop(b1);
    DefensiveClampIsNoop(b2);
    var c1, c2 := Clamp(b1), Clamp(b2);
    QuoIsFloor(c1 * 9, MaxBrightness);
    QuoIsFloor(c2 * 9, MaxBrightness);
    assert c1 * 9 <= c2 * 9;
  }
}

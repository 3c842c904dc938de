/**
 * The pixel buffer is the `Uint8ClampedArray` held by a canvas `ImageData`:
 * every element is an integer in [0, 255], and every store into it passes
 * through ECMAScript's ToUint8Clamp (section 7.1.11 of ECMA-262, 6th edition).
 * Stores at an index outside the array are silently ignored.
 */
module Bytes {

  /** One element of a `Uint8ClampedArray`. */
  type Byte = x: int | 0 <= x < 256

  /**
   * ToUint8Clamp on an exactly represented number: values at or below 0 give 0,
   * values at or above 255 give 255, everything else is rounded to the nearest
   * integer with ties going to the even neighbour.
   */
  function ToUint8Clamp(x: real): (r: Byte)
    ensures x <= 0.0 ==> r == 0
    ensures x >= 255.0 ==> r == 255
    ensures 0.0 <= x <= 255.0 ==> -0.5 <= r as real - x <= 0.5
    ensures 0.0 <= x <= 255.0 && (r as real - x == 0.5 || x - r as real == 0.5) ==> r % 2 == 0
    ensures x == x.Floor as real && 0 <= x.Floor < 256 ==> r == x.Floor
  {
    if x <= 0.0 then 0
    else if x >= 255.0 then 255
    else
      var f := x.Floor;
      if f as real + 0.5 < x then f + 1
      else if x < f as real + 0.5 then f
      else if f % 2 == 1 then f + 1
      else f
  }

  /** A byte read back and stored again is unchanged. */
  lemma ClampOfByte(b: Byte)
    ensures ToUint8Clamp(b as real) == b
  {
  }

  /**
   * `data[t] += x` on a `Uint8ClampedArray` viewed as a sequence: the element
   * is read, `x` is added in exact arithmetic and the sum is stored through
   * ToUint8Clamp; an index outside the array leaves it unchanged.
   */
  function AddAt(s: seq<Byte>, t: int, x: real): (r: seq<Byte>)
    ensures |r| == |s|
    ensures forall p :: 0 <= p < |s| && p != t ==> r[p] == s[p]
    ensures 0 <= t < |s| ==> r[t] == ToUint8Clamp(s[t] as real + x)
  {
    if 0 <= t < |s| then s[t := ToUint8Clamp(s[t] as real + x)] else s
  }

  /**
   * `x % 9` with the `%` operator of ECMAScript on numbers (section 12.6.3.3
   * of ECMA-262, 6th edition): the remainder of the quotient truncated toward
   * zero, so it carries the sign of the dividend. Nine is the only divisor the
   * program uses.
   */
  function JsRemainder9(x: real): (r: real)
    ensures x >= 0.0 ==> 0.0 <= r < 9.0
    ensures x < 0.0 ==> -9.0 < r <= 0.0
    ensures ((x - r) / 9.0).Floor as real == (x - r) / 9.0
  {
    if x >= 0.0 then FlooredRemainder9(x)
    else
      var f := FlooredRemainder9(-x);
      assert (x - -f) / 9.0 == -((-x - f) / 9.0);
      NegatedInteger((-x - f) / 9.0);
      -f
  }

  /** `x - 9 * floor(x / 9)`, which lies in [0, 9). */
  function FlooredRemainder9(x: real): (r: real)
    ensures 0.0 <= r < 9.0
    ensures ((x - r) / 9.0).Floor as real == (x - r) / 9.0
  {
    var y := x / 9.0;
    var q := y.Floor;
    assert q as real <= y < q as real + 1.0;
    assert 9.0 * y == x;
    var r := x - 9.0 * q as real;
    assert x - r == 9.0 * q as real;
    assert (x - r) / 9.0 == q as real;
    r
  }

  lemma NegatedInteger(z: real)
    requires z.Floor as real == z
    ensures (-z).Floor as real == -z
  {
    var n := z.Floor;
    assert -z == (-n) as real;
  }
}

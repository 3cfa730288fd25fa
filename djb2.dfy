/**
 * The string hash of the map: djb2 over UTF-16 code units, kept within
 * 32 bits. `Hash` is the mathematical recurrence; the `Js...` functions
 * model the JavaScript operators the source uses to compute it.
 */
module Djb2 {

  /** A UTF-16 code unit, the value `charCodeAt` yields. */
  type CodeUnit = c: int | 0 <= c < 0x1_0000

  /** A map key: a JavaScript string as its sequence of code units. */
  type Key = seq<CodeUnit>

  const Seed: nat := 5381
  const TwoTo32: nat := 0x1_0000_0000
  const TwoTo31: nat := 0x8000_0000

  /** h0 = 5381, h(i+1) = (h(i) * 33 + code(i)) mod 2^32. */
  function Hash(key: Key): (h: nat)
    ensures h < TwoTo32
  {
    if key == [] then Seed
    else (Hash(key[..|key| - 1]) * 33 + key[|key| - 1]) % TwoTo32
  }

  /** ECMAScript ToInt32: the signed 32-bit integer congruent to x modulo 2^32. */
  function ToInt32(x: int): (r: int)
    ensures -(TwoTo31 as int) <= r < TwoTo31
    ensures r % TwoTo32 == x % TwoTo32
  {
    var m := x % TwoTo32;
    if m >= TwoTo31 then m - TwoTo32 else m
  }

  /** ECMAScript ToUint32, the effect of `x >>> 0`. */
  function ToUint32(x: int): (r: nat)
    ensures r < TwoTo32
    ensures (x - r) % TwoTo32 == 0
  {
    x % TwoTo32
  }

  /** `x << 5`: the left operand goes through ToInt32, the shift count 5 through ToUint32 masked to five bits, and the result is again a signed 32-bit value. */
  function JsShiftLeft5(x: int): (r: int)
    ensures -(TwoTo31 as int) <= r < TwoTo31
    ensures r % TwoTo32 == (x * 32) % TwoTo32
  {
    var h := ToInt32(x);
    SameResidue(h * 32, x * 32, 32 * ((h - x) / TwoTo32));
    ToInt32(h * 32)
  }

  /**
   * One iteration of the hashing loop: `hash = (hash << 5) + hash + c`
   * (exact, since every summand is far below 2^53) followed by
   * `hash = hash & hash`, which is ToInt32 of `hash`.
   */
  function JsStep(hash: int, c: CodeUnit): (r: int)
    ensures -(TwoTo31 as int) <= r < TwoTo31
    ensures r % TwoTo32 == (hash * 33 + c) % TwoTo32
  {
    var s := JsShiftLeft5(hash);
    SameResidue(s + hash + c, hash * 33 + c, s / TwoTo32 - (hash * 32) / TwoTo32);
    ToInt32(s + hash + c)
  }

  lemma SameResidue(a: int, b: int, q: int)
    requires a == b + q * TwoTo32
    ensures a % TwoTo32 == b % TwoTo32
  {
  }

  /** Read back unsigned, one step of the JavaScript loop is one step of the recurrence. */
  lemma JsStepIsRecurrence(hash: int, c: CodeUnit)
    ensures ToUint32(JsStep(hash, c)) == (ToUint32(hash) * 33 + c) % TwoTo32
  {
    var h := ToInt32(hash);
    var qh := (h - hash) / TwoTo32;
    SameResidue(h, hash, qh);
    var s := JsShiftLeft5(hash);
    var qs := (s - h * 32) / TwoTo32;
    SameResidue(s, h * 32, qs);
    // s = hash * 32 + (32 * qh + qs) * 2^32
    SameResidue(s + hash + c, hash * 33 + c, 32 * qh + qs);
    var q3 := hash / TwoTo32;
    SameResidue(hash * 33 + c, ToUint32(hash) * 33 + c, 33 * q3);
  }
}

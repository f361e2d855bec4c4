/** JavaScript values the rest of the model is built on: strings as
    sequences of UTF-16 code units, bytes, optional and fallible results,
    and the few number conversions the front end relies on. */
module JsCore {

  /** One UTF-16 code unit, the element of a JavaScript string. */
  type CodeUnit = c: int | 0 <= c < 0x1_0000

  /** A JavaScript string: `length`, `charCodeAt` and `[i]` see code units. */
  type JsString = seq<CodeUnit>

  /** One element of a `Uint8Array`. */
  type Byte = b: int | 0 <= b < 0x100

  type Bytes = seq<Byte>

  datatype Option<+T> = None | Some(value: T)

  /** The outcome of a call that may throw: the thrown error is `Failure`. */
  datatype Result<+T, +E> = Success(value: T) | Failure(error: E)

  /** The code units of a Dafny string literal whose characters all lie in
      the Basic Multilingual Plane. */
  function Str(s: string): (r: JsString)
    requires forall i :: 0 <= i < |s| ==> s[i] as int < 0x1_0000
    ensures |r| == |s|
    ensures forall i :: 0 <= i < |s| ==> r[i] == s[i] as int
  {
    seq(|s|, i requires 0 <= i < |s| => s[i] as int)
  }

  /** `ToUint16`: the conversion `String.fromCharCode` applies to its
      argument, reduction modulo 2^16 (Dafny's `%` is Euclidean, so negative
      codes wrap around as in JavaScript). */
  function ToUint16(n: int): (r: CodeUnit)
    ensures (r - n) % 0x1_0000 == 0
  {
    n % 0x1_0000
  }

  /** JavaScript's `%` on integers: the remainder truncates toward zero, so
      it takes the sign of the dividend. */
  function JsRem(a: int, b: int): (r: int)
    requires b > 0
    ensures a >= 0 ==> 0 <= r < b
    ensures a < 0 ==> -b < r <= 0
  {
    if a >= 0 then a % b else -((-a) % b)
  }

  /** The decimal digits of a non-negative integer, as `String(n)` writes
      them (no sign, no leading zeros). */
  function NumberToString(n: nat): (r: JsString)
    ensures 1 <= |r|
    ensures forall i :: 0 <= i < |r| ==> '0' as int <= r[i] <= '9' as int
    ensures |r| > 1 ==> r[0] != '0' as int
  {
    if n < 10 then [('0' as int) + n]
    else NumberToString(n / 10) + [('0' as int) + n % 10]
  }

  function Reverse<T>(s: seq<T>): (r: seq<T>)
    ensures |r| == |s|
    ensures forall i :: 0 <= i < |s| ==> r[i] == s[|s| - 1 - i]
  {
    if s == [] then [] else Reverse(s[1..]) + [s[0]]
  }

  function Min(a: int, b: int): int { if a <= b then a else b }

  function Max(a: int, b: int): int { if a <= b then b else a }

  /** `s.substring(0, n)` for `n >= 0`: at most the first `n` code units. */
  function Prefix<T>(s: seq<T>, n: nat): (r: seq<T>)
    ensures |r| == Min(n, |s|)
    ensures r <= s
  {
    s[..Min(n, |s|)]
  }

  /** `s.slice(-n)` for `n > 0`: at most the last `n` code units. */
  function SliceLast<T>(s: seq<T>, n: nat): (r: seq<T>)
    requires n > 0
    ensures |r| == Min(n, |s|)
    ensures r == s[|s| - |r|..]
  {
    s[|s| - Min(n, |s|)..]
  }
}

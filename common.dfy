// Small value types shared by every module of the model: an optional value,
// bytes, and little-endian fixed-width integers as the packed wire structs
// lay them out on the little-endian hosts the game runs on.
module Common {

  datatype Option<T> = None | Some(value: T)

  type byte = x: int | 0 <= x < 256

  const U16_LIMIT: nat := 0x1_0000
  const U32_LIMIT: nat := 0x1_0000_0000

  /** The `width` low-order bytes of `n`, least significant first (a truncating store). */
  function LittleEndian(n: nat, width: nat): (r: seq<byte>)
    ensures |r| == width
    ensures width > 0 ==> r[0] == n % 256
    ensures n == 0 ==> forall i | 0 <= i < width :: r[i] == 0
    decreases width
  {
    if width == 0 then [] else [n % 256] + LittleEndian(n / 256, width - 1)
  }

  /** The unsigned value of a little-endian byte string. */
  function FromLittleEndian(s: seq<byte>): (n: nat)
    ensures n < Pow256(|s|)
    decreases |s|
  {
    if s == [] then 0 else s[0] + 256 * FromLittleEndian(s[1..])
  }

  function Pow256(width: nat): (p: nat)
    ensures p > 0
  {
    if width == 0 then 1 else 256 * Pow256(width - 1)
  }

  /** Storing a value that fits in `width` bytes and loading it back gives the value. */
  lemma {:induction false} LittleEndianRoundTrip(n: nat, width: nat)
    requires n < Pow256(width)
    ensures FromLittleEndian(LittleEndian(n, width)) == n
    decreases width
  {
    if width > 0 {
      var q := n / 256;
      assert n == 256 * q + n % 256;
      assert q < Pow256(width - 1);
      LittleEndianRoundTrip(q, width - 1);
      assert LittleEndian(n, width)[1..] == LittleEndian(q, width - 1);
    }
  }

  /** Every byte string is the encoding of its own value: loading then storing gives the bytes back. */
  lemma {:induction false} LittleEndianOfValue(s: seq<byte>)
    ensures FromLittleEndian(s) < Pow256(|s|)
    ensures LittleEndian(FromLittleEndian(s), |s|) == s
    decreases |s|
  {
    if s != [] {
      var rest := FromLittleEndian(s[1..]);
      LittleEndianOfValue(s[1..]);
      var n := FromLittleEndian(s);
      assert n == s[0] + 256 * rest;
      assert n % 256 == s[0] && n / 256 == rest;
      assert LittleEndian(n, |s|) == [s[0]] + LittleEndian(rest, |s| - 1);
      assert [s[0]] + s[1..] == s;
    }
  }

  /** C++ `%` on signed integers: the remainder takes the sign of the dividend. */
  function TruncMod(a: int, b: int): (r: int)
    requires b != 0
    ensures a >= 0 ==> 0 <= r < (if b > 0 then b else -b)
    ensures a >= 0 ==> r == a % b
  {
    if a >= 0 then a % b else -((-a) % b)
  }
}

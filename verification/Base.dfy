// Bytes, machine words and C strings shared by the models.

module Base {
  type Byte = b: int | 0 <= b < 256

  type Bytes = seq<Byte>

  datatype Option<+T> = None | Some(value: T)

  const NEWLINE: Byte := 10

  function Min(a: nat, b: nat): nat { if a < b then a else b }

  function Zeros(n: nat): (r: Bytes)
    ensures |r| == n
  {
    seq(n, _ => 0)
  }

  // 256 to the power `k`: how many values `k` bytes can hold.
  function Radix(k: nat): (r: nat)
    ensures r > 0
  {
    if k == 0 then 1 else 256 * Radix(k - 1)
  }

  // `n` as `k` bytes, least significant byte first.
  function ToLittleEndian(n: nat, k: nat): (r: Bytes)
    ensures |r| == k
  {
    if k == 0 then [] else [n % 256] + ToLittleEndian(n / 256, k - 1)
  }

  function FromLittleEndian(s: Bytes): (r: nat)
  {
    if s == [] then 0 else s[0] + 256 * FromLittleEndian(s[1..])
  }

  lemma {:induction false} LittleEndianRoundTrip(n: nat, k: nat)
    requires n < Radix(k)
    ensures FromLittleEndian(ToLittleEndian(n, k)) == n
  {
    if k > 0 {
      LittleEndianRoundTrip(n / 256, k - 1);
      assert ToLittleEndian(n, k)[1..] == ToLittleEndian(n / 256, k - 1);
    }
  }

  // The bytes before the first NUL: what C's string functions see.
  function CString(s: Bytes): (r: Bytes)
    ensures |r| <= |s| && r == s[..|r|] && 0 !in r
    ensures |r| < |s| ==> s[|r|] == 0
  {
    if s == [] || s[0] == 0 then [] else [s[0]] + CString(s[1..])
  }

  lemma {:induction false} CStringOfPadded(s: Bytes, pad: Bytes)
    requires 0 !in s && (pad == [] || pad[0] == 0)
    ensures CString(s + pad) == s
  {
    if s == [] {
      assert s + pad == pad;
    } else {
      CStringOfPadded(s[1..], pad);
      assert (s + pad)[1..] == s[1..] + pad;
    }
  }

  // The bytes of any number of reads.
  function Flatten(chunks: seq<Bytes>): Bytes {
    if chunks == [] then [] else Flatten(chunks[..|chunks| - 1]) + chunks[|chunks| - 1]
  }

  // The bytes of a text.
  function Ascii(s: string): (r: Bytes)
    requires forall i :: 0 <= i < |s| ==> s[i] as int < 128
    ensures |r| == |s|
  {
    seq(|s|, i requires 0 <= i < |s| => s[i] as int)
  }

  // A byte counts 256 times as much as one a place earlier.
  lemma {:induction false} LittleEndianParts(s: Bytes, t: Bytes)
    ensures FromLittleEndian(s + t) == FromLittleEndian(s) + Radix(|s|) * FromLittleEndian(t)
    ensures |s| == 1 ==> FromLittleEndian(s) == s[0]
  {
    if s == [] {
      assert s + t == t;
    } else {
      LittleEndianParts(s[1..], t);
      assert (s + t)[1..] == s[1..] + t;
      Scaled(Radix(|s| - 1), FromLittleEndian(t));
    }
  }

  lemma Scaled(a: int, b: int)
    ensures 256 * (a * b) == (256 * a) * b
  {
  }
}

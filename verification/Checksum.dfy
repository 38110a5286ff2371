// The Internet checksum as the server computes it, on little-endian words and
// stored without swapping, against its definition in RFC 1071.

module Checksum {
  import opened Base

  const WORD := 0x1_0000
  const UINT32 := 0x1_0000_0000

  // The longest buffer whose word sum fits 32 bits.
  const MAX_LENGTH := 131074

  function Word(low: int, high: int): int { low + 256 * high }

  // The sum of the words as the host reads them; a last odd byte stands alone.
  function SumLittle(s: Bytes): nat {
    if |s| == 0 then 0
    else if |s| == 1 then s[0]
    else Word(s[0], s[1]) + SumLittle(s[2..])
  }

  // The sum of RFC 1071: big-endian words, an odd byte padded with zero.
  function SumBig(s: Bytes): nat {
    if |s| == 0 then 0
    else if |s| == 1 then 256 * s[0]
    else Word(s[1], s[0]) + SumBig(s[2..])
  }

  // The one's-complement value of a sum: zero only for zero, otherwise the
  // residue modulo 65535 taken from 1 to 65535.
  function OnesComplement(sum: nat): (r: nat)
    ensures r < WORD
  {
    if sum == 0 then 0 else (sum - 1) % 65535 + 1
  }

  // Two folds and the complement, as in the code.
  function Fold(sum: nat): (r: nat)
    ensures r < WORD
  {
    var s1 := sum / WORD + sum % WORD;
    var s2 := s1 + s1 / WORD;
    65535 - s2 % WORD
  }

  // What the code returns: the 32-bit sum may wrap around.
  function HostChecksum(s: Bytes): (r: nat)
    ensures r < WORD
  {
    Fold(SumLittle(s) % UINT32)
  }

  // RFC 1071, section 1: the complement of the one's-complement sum.
  function Rfc1071(s: Bytes): (r: nat)
    ensures r < WORD
  {
    65535 - OnesComplement(SumBig(s))
  }

  // A word in network order.
  function ToBigEndian(v: nat): Bytes
    requires v < WORD
  {
    [v / 256, v % 256]
  }

  // --------------------------------------------------------------- arithmetic

  // The residue in 1..65535 is determined by the residue modulo 65535.
  lemma OnesComplementUnique(sum: nat, r: nat, k: int)
    requires sum == r + 65535 * k && 1 <= r <= 65535 && sum > 0
    ensures OnesComplement(sum) == r
  {
  }

  lemma OnesComplementSplits(sum: nat) returns (k: nat)
    requires sum > 0
    ensures sum == OnesComplement(sum) + 65535 * k && 1 <= OnesComplement(sum) <= 65535
  {
    k := (sum - 1) / 65535;
  }

  // Two folds are enough for every 32-bit sum.
  lemma FoldIsComplement(sum: nat)
    requires sum < UINT32
    ensures Fold(sum) == 65535 - OnesComplement(sum)
  {
  }

  lemma {:induction false} SumBound(s: Bytes)
    ensures SumLittle(s) <= 65535 * ((|s| + 1) / 2)
    ensures SumBig(s) <= 65535 * ((|s| + 1) / 2)
    decreases |s|
  {
    if |s| > 1 { SumBound(s[2..]); }
  }

  lemma SumFits(s: Bytes)
    requires |s| <= MAX_LENGTH
    ensures SumLittle(s) < UINT32
  {
    SumBound(s);
  }

  // No longer buffer has this bound: one more byte, all ones, and the sum wraps.
  lemma BoundIsSharp()
    ensures MAX_LENGTH == 131074 && SumLittle(Ones(131075)) >= 0x1_0000_0000
  {
    OnesSum(131075);
  }

  function Ones(n: nat): Bytes { seq(n, _ => 255) }

  lemma {:induction false} OnesSum(n: nat)
    ensures SumLittle(Ones(n)) == 65535 * (n / 2) + 255 * (n % 2)
  {
    if n > 1 {
      OnesSum(n - 2);
      assert Ones(n)[2..] == Ones(n - 2);
    }
  }

  // ---------------------------------------------------------------- byte order

  function Swap(x: nat): nat
    requires x < WORD
  {
    x % 256 * 256 + x / 256
  }

  // Modulo 65535, multiplication by 256 exchanges the bytes of every word.
  lemma {:induction false} SumsAreSwapped(s: Bytes) returns (k: nat)
    ensures 256 * SumLittle(s) == SumBig(s) + 65535 * k
    ensures SumLittle(s) == 0 <==> SumBig(s) == 0
    decreases |s|
  {
    if |s| == 0 {
      k := 0;
    } else if |s| == 1 {
      k := 0;
    } else {
      var k' := SumsAreSwapped(s[2..]);
      k := s[1] + k';
    }
  }

  lemma SwapSplits(x: nat)
    requires x < WORD
    ensures Swap(x) < WORD && 256 * x == Swap(x) + 65535 * (x / 256)
    ensures x == 0 <==> Swap(x) == 0
  {
  }

  lemma OnesComplementSwaps(s: Bytes)
    ensures OnesComplement(SumBig(s)) == Swap(OnesComplement(SumLittle(s)))
  {
    var l, b := SumLittle(s), SumBig(s);
    var k := SumsAreSwapped(s);
    if l > 0 {
      var j := OnesComplementSplits(l);
      var x := OnesComplement(l);
      SwapSplits(x);
      assert b == Swap(x) + 65535 * (x / 256 + 256 * j - k);
      OnesComplementUnique(b, Swap(x), x / 256 + 256 * j - k);
    }
  }

  lemma SwapComplement(x: nat)
    requires x < WORD
    ensures Swap(65535 - x) == 65535 - Swap(x)
  {
  }

  // Byte order independence (RFC 1071, section 2 (B)): what the host stores least
  // significant byte first is what the definition stores most significant first.
  lemma ByteOrderIndependent(s: Bytes)
    requires |s| <= MAX_LENGTH
    ensures ToLittleEndian(HostChecksum(s), 2) == ToBigEndian(Rfc1071(s))
  {
    HostIsFold(s, SumLittle(s), HostChecksum(s));
    BytesOfSums(s, SumLittle(s), HostChecksum(s), Rfc1071(s));
  }

  lemma HostIsFold(s: Bytes, little: nat, host: nat)
    requires |s| <= MAX_LENGTH && little == SumLittle(s) && host == HostChecksum(s)
    ensures little < UINT32 && host == Fold(little)
  {
    SumFits(s);
    Unwrapped(little);
  }

  lemma Unwrapped(sum: nat)
    requires sum < UINT32
    ensures sum % UINT32 == sum
  {
  }

  lemma BytesOfSums(s: Bytes, little: nat, host: nat, rfc: nat)
    requires little == SumLittle(s) < UINT32 && host == Fold(little) && rfc == Rfc1071(s)
    ensures ToLittleEndian(host, 2) == ToBigEndian(rfc)
  {
    OnesComplementSwaps(s);
    SameBytes(little, SumBig(s));
  }

  lemma SameBytes(little: nat, big: nat)
    requires little < UINT32 && OnesComplement(big) == Swap(OnesComplement(little))
    ensures ToLittleEndian(Fold(little), 2) == ToBigEndian(65535 - OnesComplement(big))
  {
    FoldIsComplement(little);
    SwapComplement(OnesComplement(little));
    TwoBytes(Fold(little));
  }

  lemma TwoBytes(c: nat)
    requires c < WORD
    ensures Swap(c) < WORD && ToLittleEndian(c, 2) == ToBigEndian(Swap(c))
  {
  }

  // The example of RFC 1071, section 3: these bytes have the sum 0xddf2; with a byte
  // less the last one is padded with zero.
  lemma ExampleOfTheStandard()
    ensures var s: Bytes := [0x00, 0x01, 0xf2, 0x03, 0xf4, 0xf5, 0xf6, 0xf7];
            OnesComplement(SumBig(s)) == 0xddf2 && Rfc1071(s) == 0x220d
    ensures var s: Bytes := [0x00, 0x01, 0xf2]; OnesComplement(SumBig(s)) == 0xf201 && Rfc1071(s) == 0x0dfe
  {
    var s: Bytes := [0x00, 0x01, 0xf2, 0x03, 0xf4, 0xf5, 0xf6, 0xf7];
    assert s[2..] == [0xf2, 0x03, 0xf4, 0xf5, 0xf6, 0xf7] && s[2..][2..] == [0xf4, 0xf5, 0xf6, 0xf7];
    assert s[2..][2..][2..] == [0xf6, 0xf7];
    assert SumBig(s) == 0x2ddf0;
    var t: Bytes := [0x00, 0x01, 0xf2];
    assert t[2..] == [0xf2];
  }

  // -------------------------------------------------------------- verification

  // The buffer with a 16-bit value written at offset `at`, in the host's order.
  function Store(s: Bytes, at: nat, v: nat): Bytes
    requires at + 2 <= |s| && v < WORD
  {
    s[at := v % 256][at + 1 := v / 256]
  }

  lemma {:induction false} StoreAddsWord(s: Bytes, at: nat, v: nat)
    requires at + 2 <= |s| && at % 2 == 0 && v < WORD && s[at] == 0 && s[at + 1] == 0
    ensures SumLittle(Store(s, at, v)) == SumLittle(s) + v
    decreases |s|
  {
    var s' := Store(s, at, v);
    if at == 0 {
      assert s'[2..] == s[2..];
    } else {
      StoreAddsWord(s[2..], at - 2, v);
      assert s'[2..] == Store(s[2..], at - 2, v);
    }
  }

  // Writing the checksum into its zeroed, even-offset field makes the checksum of
  // the whole zero (RFC 791, section 3.1).
  lemma StoredChecksumVerifies(s: Bytes, at: nat)
    requires |s| <= MAX_LENGTH && at + 2 <= |s| && at % 2 == 0 && s[at] == 0 && s[at + 1] == 0
    ensures HostChecksum(Store(s, at, HostChecksum(s))) == 0
  {
    var c := HostChecksum(s);
    var s' := Store(s, at, c);
    HostIsFold(s, SumLittle(s), c);
    HostIsFold(s', SumLittle(s'), HostChecksum(s'));
    StoreAddsWord(s, at, c);
    FoldsToZero(SumLittle(s), c, SumLittle(s'), HostChecksum(s'));
  }

  lemma FoldsToZero(sum: nat, c: nat, sum': nat, c': nat)
    requires c == Fold(sum) && sum' == sum + c < UINT32 && c' == Fold(sum')
    ensures c' == 0
  {
    FoldWithComplement(sum);
  }

  lemma FoldWithComplement(sum: nat)
    requires sum + Fold(sum) < UINT32
    ensures Fold(sum + Fold(sum)) == 0
  {
  }

  // -------------------------------------------------------------------- method

  // The loop of the code, in 32-bit arithmetic.
  method SumWords(data: array<Byte>, len: nat) returns (sum: nat)
    requires len <= data.Length
    ensures sum == SumLittle(data[..len]) % UINT32
  {
    ghost var s := data[..len];
    var ptr: nat, rest: nat;
    sum, ptr, rest := 0, 0, len;
    while rest > 1
      invariant ptr + rest == len && sum < UINT32
      invariant (sum + SumLittle(s[ptr..])) % UINT32 == SumLittle(s) % UINT32
    {
      var word := Word(data[ptr], data[ptr + 1]);
      SumStep(s[ptr..], sum);
      assert s[ptr..][2..] == s[ptr + 2..] && s[ptr..][0] == data[ptr] && s[ptr..][1] == data[ptr + 1];
      sum := (sum + word) % UINT32;
      ptr, rest := ptr + 2, rest - 2;
    }
    if rest == 1 {
      assert s[ptr..] == [data[ptr]];
      sum := (sum + data[ptr]) % UINT32;
    }
  }

  lemma SumStep(s: Bytes, sum: nat)
    requires |s| > 1
    ensures ((sum + Word(s[0], s[1])) % UINT32 + SumLittle(s[2..])) % UINT32 == (sum + SumLittle(s)) % UINT32
  {
    WrapAdd(sum + Word(s[0], s[1]), SumLittle(s[2..]));
  }

  lemma WrapAdd(a: nat, b: nat)
    ensures (a % UINT32 + b) % UINT32 == (a + b) % UINT32
  {
  }

  // The checksum of the code: RFC 1071 on every buffer it is used for, and what
  // the wrapped sum gives on longer ones.
  method Compute(data: array<Byte>, len: nat) returns (r: nat)
    requires len <= data.Length
    ensures r == HostChecksum(data[..len])
    ensures len <= MAX_LENGTH ==> ToLittleEndian(r, 2) == ToBigEndian(Rfc1071(data[..len]))
  {
    var sum := SumWords(data, len);
    sum := sum / WORD + sum % WORD;
    sum := sum + sum / WORD;
    r := 65535 - sum % WORD;
    if len <= MAX_LENGTH { ByteOrderIndependent(data[..len]); }
  }
}

/** The checksum of section 2.2 of RFC 1950, and the loop that computes it. */
module Adler {
  import opened Words

  const BASE: nat := 65521

  function ByteSum(data: seq<byte>): nat {
    if |data| == 0 then 0 else ByteSum(data[..|data| - 1]) + data[|data| - 1]
  }

  /** The sum of all intermediate values of a byte sum that starts at `s`. */
  function RunningSum(s: nat, data: seq<byte>): nat {
    if |data| == 0 then 0 else RunningSum(s, data[..|data| - 1]) + (s + ByteSum(data))
  }

  /** Both sums, each modulo 65521; the first starts at 1. */
  function Adler32(data: seq<byte>): u32 {
    (RunningSum(1, data) % BASE) * 0x1_0000 + (1 + ByteSum(data)) % BASE
  }

  // ---- resuming from an earlier checksum ----

  function Low(adler: u32, data: seq<byte>): nat {
    if |data| == 0 then adler % 0x1_0000 else (adler % 0x1_0000 + ByteSum(data)) % BASE
  }

  function High(adler: u32, data: seq<byte>): nat {
    if |data| == 0 then adler / 0x1_0000 else (adler / 0x1_0000 + RunningSum(adler % 0x1_0000, data)) % BASE
  }

  /** The checksum resumed from `adler` over `data`. */
  function AdlerFrom(adler: u32, data: seq<byte>): u32
  {
    High(adler, data) * 0x1_0000 + Low(adler, data)
  }

  lemma {:induction false} AddModulo(a: nat, b: nat)
    ensures (a % BASE + b) % BASE == (a + b) % BASE
    ensures (a % BASE + b % BASE) % BASE == (a + b) % BASE
  {
  }

  lemma {:induction false} LowOneMore(adler: u32, data: seq<byte>)
    requires |data| > 0
    ensures Low(adler, data) == (Low(adler, data[..|data| - 1]) + data[|data| - 1]) % BASE
  {
    var low, last, sum := adler % 0x1_0000, data[|data| - 1], ByteSum(data[..|data| - 1]);
    assert low + ByteSum(data) == (low + sum) + last;
    AddModulo(low + sum, last);
  }

  lemma {:induction false} HighOneMore(adler: u32, data: seq<byte>)
    requires |data| > 0
    ensures High(adler, data) == (High(adler, data[..|data| - 1]) + Low(adler, data)) % BASE
  {
    var low, high := adler % 0x1_0000, adler / 0x1_0000;
    if |data| > 1 {
      AddModulo(high + RunningSum(low, data[..|data| - 1]), low + ByteSum(data));
    } else {
      AddModulo(low + ByteSum(data), high);
    }
  }

  method CalculateAdler32(data: seq<byte>, adler: u32) returns (checksum: u32)
    ensures checksum == AdlerFrom(adler, data)
    ensures adler == 1 ==> checksum == Adler32(data)
  {
    var s1: nat := adler % 0x1_0000;
    var s2: nat := (adler / 0x1_0000) % 0x1_0000;
    for i := 0 to |data|
      invariant s1 == Low(adler, data[..i]) && s2 == High(adler, data[..i])
    {
      assert data[..i + 1][..i] == data[..i];
      LowOneMore(adler, data[..i + 1]);
      HighOneMore(adler, data[..i + 1]);
      s1 := (s1 + data[i]) % BASE;
      s2 := (s2 + s1) % BASE;
    }
    assert data[..|data|] == data;
    checksum := s2 * 0x1_0000 + s1;
  }

  lemma {:induction false} Halves(adler: u32, data: seq<byte>)
    ensures AdlerFrom(adler, data) % 0x1_0000 == Low(adler, data)
    ensures AdlerFrom(adler, data) / 0x1_0000 == High(adler, data)
  {
  }

  /** The checksum of a concatenation is the checksum of the second part resumed from that of the first. */
  lemma {:induction false} AdlerComposes(adler: u32, first: seq<byte>, second: seq<byte>)
    ensures AdlerFrom(AdlerFrom(adler, first), second) == AdlerFrom(adler, first + second)
  {
    if |second| == 0 {
      assert first + second == first;
      Halves(adler, first);
    } else {
      var init := second[..|second| - 1];
      var both := first + second;
      assert both[..|both| - 1] == first + init;
      AdlerComposes(adler, first, init);
      LowOneMore(AdlerFrom(adler, first), second);
      HighOneMore(AdlerFrom(adler, first), second);
      LowOneMore(adler, both);
      HighOneMore(adler, both);
      Halves(adler, first + init);
      Halves(AdlerFrom(adler, first), init);
    }
  }

  /** The composition law for whole checksums. */
  lemma {:induction false} Adler32OfConcatenation(first: seq<byte>, second: seq<byte>)
    ensures AdlerFrom(Adler32(first), second) == Adler32(first + second)
  {
    AdlerComposes(1, first, second);
  }
}

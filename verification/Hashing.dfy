/** SHA-256 as an uninterpreted function of the bytes absorbed, and the two routines that absorb them. */
module Hashing {
  import opened Words

  type Digest = d: seq<byte> | |d| == 32 witness seq(32, _ => 0)

  const HASH_CHUNK_BYTES: nat := 16 * 1024 * 1024
  const ZERO_BLOCK_BYTES: nat := 1024 * 1024

  function LowerNibble(n: int): char
    requires 0 <= n < 16
  {
    "0123456789abcdef"[n]
  }

  /** Two lower-case hexadecimal digits per byte. */
  function HexEncode(bytes: seq<byte>): (s: string)
    ensures |s| == 2 * |bytes|
    ensures forall i :: 0 <= i < |s| ==> s[i] in "0123456789abcdef"
  {
    if |bytes| == 0 then "" else [LowerNibble(bytes[0] / 16), LowerNibble(bytes[0] % 16)] + HexEncode(bytes[1..])
  }

  predicate IsHexDigit(c: char) {
    '0' <= c <= '9' || 'a' <= c <= 'f' || 'A' <= c <= 'F'
  }

  predicate IsSha256Hex(s: string) {
    |s| == 64 && forall i :: 0 <= i < |s| ==> IsHexDigit(s[i])
  }

  lemma {:induction false} DigestEncodesToSha256Hex(d: Digest)
    ensures IsSha256Hex(HexEncode(d))
  {
    var s := HexEncode(d);
    forall i | 0 <= i < |s|
      ensures IsHexDigit(s[i])
    {
      assert s[i] in "0123456789abcdef";
    }
  }

  class Sha256 {
    const digest: seq<byte> -> Digest
    const refuses: nat -> bool
    var initialized: bool
    var absorbed: seq<byte>
    var clock: nat

    constructor (digest: seq<byte> -> Digest, refuses: nat -> bool)
      ensures !initialized && this.digest == digest && this.refuses == refuses && clock == 0
    {
      this.digest, this.refuses := digest, refuses;
      initialized, absorbed := false, [];
      clock := 0;
    }

    /** Calls of the hashing service refused so far. */
    ghost function Faults(): nat
      reads this`clock
    {
      Times(refuses, clock)
    }

    method Refused() returns (refused: bool)
      modifies this`clock
      ensures Faults() == old(Faults()) + (if refused then 1 else 0)
    {
      refused := refuses(clock);
      clock := clock + 1;
    }

    method Initialize() returns (ok: bool)
      modifies this
      ensures initialized == ok
      ensures ok ==> absorbed == []
      ensures !ok ==> Faults() > old(Faults())
      ensures Faults() >= old(Faults())
    {
      var refused := Refused();
      ok := !refused;
      initialized, absorbed := ok, [];
    }

    method Update(data: seq<byte>) returns (ok: bool)
      modifies this`absorbed, this`clock
      ensures ok ==> absorbed == old(absorbed) + data
      ensures !ok ==> !initialized || Faults() > old(Faults())
      ensures Faults() >= old(Faults())
    {
      if !initialized {
        return false;
      }
      var done := 0;
      while done < |data|
        invariant done <= |data|
        invariant absorbed == old(absorbed) + data[..done]
        invariant Faults() >= old(Faults())
      {
        var chunk := Min(|data| - done, HASH_CHUNK_BYTES);
        var refused := Refused();
        if refused {
          return false;
        }
        absorbed := absorbed + data[done..done + chunk];
        assert data[..done + chunk] == data[..done] + data[done..done + chunk];
        done := done + chunk;
      }
      return true;
    }

    method UpdateZeros(length: u64) returns (ok: bool)
      modifies this`absorbed, this`clock
      ensures ok ==> absorbed == old(absorbed) + Zeros(length)
      ensures !ok ==> !initialized || Faults() > old(Faults())
      ensures Faults() >= old(Faults())
    {
      if !initialized {
        return false;
      }
      var remaining: nat := length;
      while remaining != 0
        invariant remaining <= length
        invariant absorbed == old(absorbed) + Zeros(length - remaining)
        invariant Faults() >= old(Faults())
      {
        var chunk := Min(remaining, ZERO_BLOCK_BYTES);
        var updated := Update(Zeros(chunk));
        if !updated {
          return false;
        }
        remaining := remaining - chunk;
      }
      return true;
    }

    /** The digest of everything absorbed, as lower-case text; the object is spent afterwards. */
    method Finish() returns (ok: bool, hex: string)
      modifies this
      ensures ok ==> old(initialized) && hex == HexEncode(digest(old(absorbed))) && !initialized
      ensures !ok ==> hex == "" && (!old(initialized) || Faults() > old(Faults()))
      ensures Faults() >= old(Faults())
    {
      hex := "";
      if !initialized {
        return false, hex;
      }
      var refused := Refused();
      if refused {
        return false, hex;
      }
      hex := HexEncode(digest(absorbed));
      initialized, absorbed := false, [];
      return true, hex;
    }
  }
}

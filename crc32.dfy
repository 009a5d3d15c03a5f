/**
 * The CRC-32 checksum of ISO 3309 / ITU-T V.42, the one zlib and Python's
 * binascii compute: reflected polynomial 0xEDB88320, register preset to
 * 0xFFFFFFFF and complemented at the end. It is written as the table-driven
 * reference code of section 8 of RFC 1952 (`make_crc_table`, `update_crc`, `crc`).
 */
module Crc32 {
  import opened Utf8
  import opened Octet

  /** The reflected CRC-32 generator polynomial. */
  const POLY: bv32 := 0xEDB8_8320

  /** `k` rounds of the inner loop of `make_crc_table`: shift right, and add the
      polynomial whenever a one falls out of the register. */
  function Shifts(c: bv32, k: nat): bv32
    decreases k
  {
    if k == 0 then c
    else if c & 1 == 1 then Shifts(POLY ^ (c >> 1), k - 1)
    else Shifts(c >> 1, k - 1)
  }

  /** Entry `n` of the 256-entry table that `make_crc_table` builds. */
  function Table(n: bv32): bv32
    requires n < 256
  {
    Shifts(n, 8)
  }

  /** One pass of the loop of `update_crc`: look up the low byte of `c ^ b`, shift the rest down. */
  function ByteUpdate(c: bv32, b: bv8): bv32 {
    Table((c ^ (b as bv32)) & 0xFF) ^ (c >> 8)
  }

  /** The loop of `update_crc`, without its pre- and post-complement. */
  function UpdateCrc(c: bv32, octets: seq<bv8>): bv32
    decreases |octets|
  {
    if |octets| == 0 then c else UpdateCrc(ByteUpdate(c, octets[0]), octets[1..])
  }

  /** The CRC-32 of an octet string. */
  function Crc32(octets: seq<bv8>): bv32 {
    UpdateCrc(0xFFFF_FFFF, octets) ^ 0xFFFF_FFFF
  }

  /** The byte values as octets, the form `binascii.crc32` reads them in. */
  function Octets(bytes: seq<Byte>): (o: seq<bv8>)
    ensures |o| == |bytes|
  {
    seq(|bytes|, i requires 0 <= i < |bytes| => bytes[i] as bv8)
  }

  /** Each octet has the value of its byte: the conversion loses nothing. */
  lemma OctetsValues(bytes: seq<Byte>)
    ensures forall i :: 0 <= i < |bytes| ==> Octets(bytes)[i] as int == bytes[i]
  {
    forall i | 0 <= i < |bytes| ensures Octets(bytes)[i] as int == bytes[i] {
      OctetValue(bytes[i]);
    }
  }

  /** `crc32_hash` on the UTF-8 bytes: the checksum masked with `& 0xFFFFFFFF` and read
      as a non-negative integer. */
  function Crc32Hash(bytes: seq<Byte>): (h: nat)
    ensures h < 0x1_0000_0000
  {
    (Crc32(Octets(bytes)) & 0xFFFF_FFFF) as int
  }

  /** The register can be fed in pieces: checksumming `a + b` is checksumming `a`
      and carrying the register on into `b`, which is what lets `update_crc` be
      called on a running value. */
  lemma {:induction false} UpdateCrcAppend(c: bv32, a: seq<bv8>, b: seq<bv8>)
    ensures UpdateCrc(c, a + b) == UpdateCrc(UpdateCrc(c, a), b)
    decreases |a|
  {
    if |a| == 0 {
      assert a + b == b;
    } else {
      assert (a + b)[1..] == a[1..] + b;
      UpdateCrcAppend(ByteUpdate(c, a[0]), a[1..], b);
    }
  }

  /** The empty string checksums to 0. */
  lemma EmptyCheck()
    ensures Crc32([]) == 0
  {
  }

  /** `regs` holds the register before each octet of `s` and, last, after the final one. */
  predicate IsTrace(s: seq<bv8>, regs: seq<bv32>) {
    |regs| == |s| + 1 && forall j :: 0 <= j < |s| ==> ByteUpdate(regs[j], s[j]) == regs[j + 1]
  }

  /** Run from the register a trace records at position `i`, the loop ends on the trace's last register. */
  lemma {:induction false} UpdateCrcOfTrace(s: seq<bv8>, regs: seq<bv32>, i: nat)
    requires IsTrace(s, regs) && i <= |s|
    ensures UpdateCrc(regs[i], s[i..]) == regs[|s|]
    decreases |s| - i
  {
    if i == |s| {
      assert s[i..] == [];
    } else {
      assert s[i..][1..] == s[i + 1..];
      UpdateCrcOfTrace(s, regs, i + 1);
    }
  }

  /** A trace that starts from the preset register gives the checksum: its last register complemented. */
  lemma Crc32OfTrace(s: seq<bv8>, regs: seq<bv32>)
    requires IsTrace(s, regs) && regs[0] == 0xFFFF_FFFF
    ensures Crc32(s) == regs[|s|] ^ 0xFFFF_FFFF
  {
    assert s[0..] == s;
    UpdateCrcOfTrace(s, regs, 0);
  }

  /** The octets of "Hello World". */
  const HELLO_WORLD: seq<bv8> := [72, 101, 108, 108, 111, 32, 87, 111, 114, 108, 100]

  /** The register before and after each octet of "Hello World". */
  const HELLO_WORLD_TRACE: seq<bv32> := [0xFFFFFFFF, 0x55FAD9D0, 0xBB5EBDDA, 0x22B94804, 0x434B5022, 0x082E767D, 0x15D2033F, 0x437C3B69, 0xE920D90E, 0x595A1DCE, 0x388198D9, 0xB5E84EA9]

  /** It is the trace of the loop on "Hello World". */
  lemma HelloWorldCheckTrace()
    ensures IsTrace(HELLO_WORLD, HELLO_WORLD_TRACE)
  {
    forall j | 0 <= j < 11
      ensures ByteUpdate(HELLO_WORLD_TRACE[j], HELLO_WORLD[j]) == HELLO_WORLD_TRACE[j + 1]
    {
      if j == 0 {
        assert ByteUpdate(0xFFFFFFFF, 72) == 0x55FAD9D0;
      } else if j == 1 {
        assert ByteUpdate(0x55FAD9D0, 101) == 0xBB5EBDDA;
      } else if j == 2 {
        assert ByteUpdate(0xBB5EBDDA, 108) == 0x22B94804;
      } else if j == 3 {
        assert ByteUpdate(0x22B94804, 108) == 0x434B5022;
      } else if j == 4 {
        assert ByteUpdate(0x434B5022, 111) == 0x082E767D;
      } else if j == 5 {
        assert ByteUpdate(0x082E767D, 32) == 0x15D2033F;
      } else if j == 6 {
        assert ByteUpdate(0x15D2033F, 87) == 0x437C3B69;
      } else if j == 7 {
        assert ByteUpdate(0x437C3B69, 111) == 0xE920D90E;
      } else if j == 8 {
        assert ByteUpdate(0xE920D90E, 114) == 0x595A1DCE;
      } else if j == 9 {
        assert ByteUpdate(0x595A1DCE, 108) == 0x388198D9;
      } else {
        assert ByteUpdate(0x388198D9, 100) == 0xB5E84EA9;
      }
    }
  }

  /** The checksum of "Hello World" is 0x4A17B156 (1243066710), the value the module documentation starts from. */
  lemma HelloWorldCheck()
    ensures Crc32(HELLO_WORLD) == 0x4A17B156
  {
    HelloWorldCheckTrace();
    Crc32OfTrace(HELLO_WORLD, HELLO_WORLD_TRACE);
  }

  /** The octets of the nine ASCII digits "123456789". */
  const CHECK_DIGITS: seq<bv8> := [49, 50, 51, 52, 53, 54, 55, 56, 57]

  /** The register before and after each octet of the nine ASCII digits "123456789". */
  const CHECK_DIGITS_TRACE: seq<bv32> := [0xFFFFFFFF, 0x7C231048, 0xB0ACBB32, 0x77B79C2D, 0x641C1F5C, 0x340AC5E3, 0xF68D2C9E, 0xAFFC9660, 0x651F2550, 0x340BC6D9]

  /** It is the trace of the loop on the nine ASCII digits "123456789". */
  lemma StandardCheckTrace()
    ensures IsTrace(CHECK_DIGITS, CHECK_DIGITS_TRACE)
  {
    forall j | 0 <= j < 9
      ensures ByteUpdate(CHECK_DIGITS_TRACE[j], CHECK_DIGITS[j]) == CHECK_DIGITS_TRACE[j + 1]
    {
      if j == 0 {
        assert ByteUpdate(0xFFFFFFFF, 49) == 0x7C231048;
      } else if j == 1 {
        assert ByteUpdate(0x7C231048, 50) == 0xB0ACBB32;
      } else if j == 2 {
        assert ByteUpdate(0xB0ACBB32, 51) == 0x77B79C2D;
      } else if j == 3 {
        assert ByteUpdate(0x77B79C2D, 52) == 0x641C1F5C;
      } else if j == 4 {
        assert ByteUpdate(0x641C1F5C, 53) == 0x340AC5E3;
      } else if j == 5 {
        assert ByteUpdate(0x340AC5E3, 54) == 0xF68D2C9E;
      } else if j == 6 {
        assert ByteUpdate(0xF68D2C9E, 55) == 0xAFFC9660;
      } else if j == 7 {
        assert ByteUpdate(0xAFFC9660, 56) == 0x651F2550;
      } else {
        assert ByteUpdate(0x651F2550, 57) == 0x340BC6D9;
      }
    }
  }

  /** The standard CRC-32 check value: the checksum of "123456789" is 0xCBF43926. */
  lemma StandardCheck()
    ensures Crc32(CHECK_DIGITS) == 0xCBF43926
  {
    StandardCheckTrace();
    Crc32OfTrace(CHECK_DIGITS, CHECK_DIGITS_TRACE);
  }
}

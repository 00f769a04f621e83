/** The 16-bit additive checksum `chksum` and the two outbound command templates. */
module Checksum {
  import opened Bytes

  /** Arithmetic sum of a byte sequence, with no truncation; defined from the end, as the loop accumulates. */
  function Sum(s: seq<byte>): nat
    decreases |s|
  {
    if s == [] then 0 else Sum(s[..|s| - 1]) + s[|s| - 1]
  }

  /** The sum is additive over concatenation. */
  lemma {:induction false} SumConcat(a: seq<byte>, b: seq<byte>)
    ensures Sum(a + b) == Sum(a) + Sum(b)
    decreases |b|
  {
    if b == [] {
      assert a + b == a;
    } else {
      SumConcat(a, b[..|b| - 1]);
      assert (a + b)[..|a + b| - 1] == a + b[..|b| - 1];
    }
  }

  /** Every byte contributes at most 0xFF. */
  lemma {:induction false} SumBound(s: seq<byte>)
    ensures Sum(s) <= 0xFF * |s|
    decreases |s|
  {
    if s != [] {
      SumBound(s[..|s| - 1]);
    }
  }

  /** Up to 257 bytes the sum fits in 16 bits, so the truncating checksum is the plain sum there. */
  lemma ShortRangeSumFits(s: seq<byte>)
    requires |s| <= 257
    ensures Sum(s) < 0x1_0000 && Sum(s) % 0x1_0000 == Sum(s)
  {
    SumBound(s);
  }

  /**
   * `chksum(data, len)`: a uint16_t accumulator to which each of the first
   * `len` bytes is added; the C assignment back to uint16_t truncates the sum
   * modulo 2^16 at every step.
   */
  method Chksum(data: array<byte>, len: u16) returns (checksum: u16)
    requires len as int <= data.Length
    ensures checksum == Sum(data[..len]) % 0x1_0000
    ensures len == 0 ==> checksum == 0
  {
    checksum := 0;
    var i: u16 := 0;
    while i < len
      invariant i <= len
      invariant checksum == Sum(data[..i]) % 0x1_0000
    {
      assert data[..i + 1][..i] == data[..i];
      checksum := (checksum + data[i]) % 0x1_0000;
      i := i + 1;
    }
    assert data[..i] == data[..len];
  }

  /** Length of both command templates, and of each one's checksum-covered prefix. */
  const TemplateLength: nat := 21
  const CoveredLength: nat := 19

  /** `active_cmd`: the activation command (command word 0x01). */
  const ActiveCmd: seq<byte> := [
    0x4E, 0x57, 0x00, 0x13, 0x00, 0x00, 0x00, 0x00,
    0x01, 0x03, 0x00, 0x00, 0x00, 0x00, 0x00, 0x00,
    0x68, 0x00, 0x00, 0x01, 0x24]

  /** `frame2`: the read-all command (command word 0x06). */
  const ReadAllCmd: seq<byte> := [
    0x4E, 0x57, 0x00, 0x13, 0x00, 0x00, 0x00, 0x00,
    0x06, 0x03, 0x00, 0x00, 0x00, 0x00, 0x00, 0x00,
    0x68, 0x00, 0x00, 0x01, 0x29]

  /** The checksum a template carries in its last two bytes, read big-endian. */
  function Trailer(t: seq<byte>): u16
    requires |t| == TemplateLength
  {
    BigEndian16(t[TemplateLength - 2], t[TemplateLength - 1])
  }

  /** Checksum of a template's covered prefix, modulo 2^16 as `chksum` returns it. */
  function TemplateChecksum(t: seq<byte>): u16
    requires |t| == TemplateLength
  {
    Sum(t[..CoveredLength]) % 0x1_0000
  }

  /** Extending a prefix by one byte adds that byte. */
  lemma SumPrefixStep(s: seq<byte>, k: nat)
    requires k < |s|
    ensures Sum(s[..k + 1]) == Sum(s[..k]) + s[k]
  {
    assert s[..k + 1] == s[..k] + [s[k]];
    SumConcat(s[..k], [s[k]]);
    assert [s[k]][..0] == [];
  }

  /** The covered prefix of a template, summed byte by byte. */
  lemma CoveredSum(t: seq<byte>)
    requires |t| == TemplateLength
    ensures Sum(t[..CoveredLength]) == t[0] as int + t[1] + t[2] + t[3] + t[4] + t[5] + t[6] + t[7] + t[8] + t[9] + t[10] + t[11] + t[12] + t[13] + t[14] + t[15] + t[16] + t[17] + t[18]
  {
    assert t[..0] == [];
    SumPrefixStep(t, 0);
    SumPrefixStep(t, 1);
    SumPrefixStep(t, 2);
    SumPrefixStep(t, 3);
    SumPrefixStep(t, 4);
    SumPrefixStep(t, 5);
    SumPrefixStep(t, 6);
    SumPrefixStep(t, 7);
    SumPrefixStep(t, 8);
    SumPrefixStep(t, 9);
    SumPrefixStep(t, 10);
    SumPrefixStep(t, 11);
    SumPrefixStep(t, 12);
    SumPrefixStep(t, 13);
    SumPrefixStep(t, 14);
    SumPrefixStep(t, 15);
    SumPrefixStep(t, 16);
    SumPrefixStep(t, 17);
    SumPrefixStep(t, 18);
  }

  /** The activation command's first 19 bytes sum to 0x0124, which is also its trailer. */
  lemma ActiveCmdChecksum()
    ensures |ActiveCmd| == TemplateLength
    ensures TemplateChecksum(ActiveCmd) == 0x0124
    ensures Trailer(ActiveCmd) == TemplateChecksum(ActiveCmd)
  {
    CoveredSum(ActiveCmd);
  }

  /** The read-all command's first 19 bytes sum to 0x0129, which is also its trailer. */
  lemma ReadAllCmdChecksum()
    ensures |ReadAllCmd| == TemplateLength
    ensures TemplateChecksum(ReadAllCmd) == 0x0129
    ensures Trailer(ReadAllCmd) == TemplateChecksum(ReadAllCmd)
  {
    CoveredSum(ReadAllCmd);
  }
}

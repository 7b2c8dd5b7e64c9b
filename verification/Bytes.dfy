/** Bytes, big-endian lengths and the masking of section 5.3 of RFC 6455. */
module Bytes {

  type byte = bv8

  const CR: byte := 13
  const LF: byte := 10

  /** Unsigned big-endian value of a byte string. */
  function BigEndian(s: seq<byte>): (n: nat) {
    if s == [] then 0 else BigEndian(s[..|s| - 1]) * 256 + s[|s| - 1] as nat
  }

  function Pow256(width: nat): (p: nat)
    ensures p > 0
  {
    if width == 0 then 1 else 256 * Pow256(width - 1)
  }

  /** The low `width` bytes of n, most significant first. */
  function ToBigEndian(n: nat, width: nat): (s: seq<byte>)
    ensures |s| == width
  {
    if width == 0 then [] else ToBigEndian(n / 256, width - 1) + [(n % 256) as byte]
  }

  lemma {:induction false} BigEndianRoundTrip(n: nat, width: nat)
    requires n < Pow256(width)
    ensures BigEndian(ToBigEndian(n, width)) == n
  {
    if width > 0 {
      var s := ToBigEndian(n, width);
      assert s[..|s| - 1] == ToBigEndian(n / 256, width - 1);
      assert n / 256 < Pow256(width - 1);
      BigEndianRoundTrip(n / 256, width - 1);
      assert ((n % 256) as byte) as nat == n % 256;
    }
  }

  /** Exclusive-or with the four mask bytes, repeated. */
  function Masked(payload: seq<byte>, mask: seq<byte>): (s: seq<byte>)
    requires |mask| == 4
    ensures |s| == |payload|
  {
    seq(|payload|, i requires 0 <= i < |payload| => payload[i] ^ mask[i % 4])
  }

  lemma XorCancels(b: byte, m: byte)
    ensures (b ^ m) ^ m == b
  {
  }

  /** Masking twice with one key is the identity. */
  lemma MaskInvolution(payload: seq<byte>, mask: seq<byte>)
    requires |mask| == 4
    ensures Masked(Masked(payload, mask), mask) == payload
  {
    var twice := Masked(Masked(payload, mask), mask);
    forall i | 0 <= i < |payload|
      ensures twice[i] == payload[i]
    {
      XorCancels(payload[i], mask[i % 4]);
    }
  }

  method Unmask(payload: seq<byte>, mask: seq<byte>) returns (plain: seq<byte>)
    requires |mask| == 4
    ensures plain == Masked(payload, mask)
  {
    plain := payload;
    for index := 0 to |payload|
      invariant |plain| == |payload|
      invariant forall k | 0 <= k < index :: plain[k] == payload[k] ^ mask[k % 4]
      invariant forall k | index <= k < |payload| :: plain[k] == payload[k]
    {
      plain := plain[index := plain[index] ^ mask[index % 4]];
    }
  }
}

/**
  One frame as section 5.2 of RFC 6455 lays it out, byte by byte, and what the
  decoder reads: no length, key or bit is taken on the decoder's word.
 */
module FrameLayout {
  import opened Common
  import opened Bytes
  import opened Frames

  /** The length bits, and the bytes that extend them. */
  predicate LengthIsThere(p: seq<byte>) {
    |p| >= 2 && (p[1] & 0x7f == 126 ==> |p| >= 4) && (p[1] & 0x7f == 127 ==> |p| >= 10)
  }

  function Announced(p: seq<byte>): nat
    requires LengthIsThere(p)
  {
    if p[1] & 0x7f == 126 then p[2] as nat * 256 + p[3] as nat
    else if p[1] & 0x7f == 127 then
      0x100_0000_0000_0000 * p[2] as nat + 0x1_0000_0000_0000 * p[3] as nat
      + 0x100_0000_0000 * p[4] as nat + 0x1_0000_0000 * p[5] as nat
      + 0x100_0000 * p[6] as nat + 0x1_0000 * p[7] as nat + 0x100 * p[8] as nat + p[9] as nat
    else (p[1] & 0x7f) as nat
  }

  predicate HasKey(p: seq<byte>)
    requires |p| >= 2
  {
    p[1] & 0x80 == 0x80
  }

  function PayloadAt(p: seq<byte>): nat
    requires |p| >= 2
  {
    (if p[1] & 0x7f == 126 then 4 else if p[1] & 0x7f == 127 then 10 else 2) + if HasKey(p) then 4 else 0
  }

  /** Reserved bits are set, or the announced payload is longer than 64 MiB. */
  predicate Refused(p: seq<byte>) {
    |p| >= 2 && (p[0] & 0x70 != 0 || (LengthIsThere(p) && Announced(p) > 67108864))
  }

  predicate Complete(p: seq<byte>) {
    LengthIsThere(p) && !Refused(p) && PayloadAt(p) + Announced(p) <= |p|
  }

  /** The i-th byte of the payload, with the key taken off. */
  function PayloadByte(p: seq<byte>, i: nat): byte
    requires |p| >= 2 && PayloadAt(p) + i < |p|
  {
    var at := PayloadAt(p) + i;
    if HasKey(p) then p[at] ^ p[PayloadAt(p) - 4 + i % 4] else p[at]
  }

  lemma NextByte(s: seq<byte>, k: nat)
    requires k < |s|
    ensures BigEndian(s[..k + 1]) == BigEndian(s[..k]) * 256 + s[k] as nat
  {
    assert s[..k + 1][..k] == s[..k];
  }

  lemma TwoBytes(s: seq<byte>)
    requires |s| == 2
    ensures BigEndian(s) == s[0] as nat * 256 + s[1] as nat
  {
    NextByte(s, 0);
    NextByte(s, 1);
    assert s[..2] == s && s[..0] == [];
  }

  lemma EightBytes(s: seq<byte>)
    requires |s| == 8
    ensures BigEndian(s) ==
            0x100_0000_0000_0000 * s[0] as nat + 0x1_0000_0000_0000 * s[1] as nat
            + 0x100_0000_0000 * s[2] as nat + 0x1_0000_0000 * s[3] as nat
            + 0x100_0000 * s[4] as nat + 0x1_0000 * s[5] as nat + 0x100 * s[6] as nat + s[7] as nat
  {
    forall k: nat | k < 8
      ensures BigEndian(s[..k + 1]) == BigEndian(s[..k]) * 256 + s[k] as nat
    {
      NextByte(s, k);
    }
    assert s[..8] == s && s[..0] == [];
    SumOfEight(BigEndian(s[..1]), BigEndian(s[..2]), BigEndian(s[..3]), BigEndian(s[..4]),
               BigEndian(s[..5]), BigEndian(s[..6]), BigEndian(s[..7]), BigEndian(s[..8]),
               s[1] as nat, s[2] as nat, s[3] as nat, s[4] as nat, s[5] as nat, s[6] as nat, s[7] as nat);
  }

  lemma SumOfEight(
    n1: nat, n2: nat, n3: nat, n4: nat, n5: nat, n6: nat, n7: nat, n8: nat,
    b1: nat, b2: nat, b3: nat, b4: nat, b5: nat, b6: nat, b7: nat)
    requires n2 == n1 * 256 + b1 && n3 == n2 * 256 + b2 && n4 == n3 * 256 + b3 && n5 == n4 * 256 + b4
    requires n6 == n5 * 256 + b5 && n7 == n6 * 256 + b6 && n8 == n7 * 256 + b7
    ensures n8 == 0x100_0000_0000_0000 * n1 + 0x1_0000_0000_0000 * b1 + 0x100_0000_0000 * b2 + 0x1_0000_0000 * b3
                  + 0x100_0000 * b4 + 0x1_0000 * b5 + 0x100 * b6 + b7
  {
  }

  lemma LengthIsAnnounced(p: seq<byte>)
    requires LengthIsThere(p)
    ensures |p| >= LengthEnd(p[1]) && PayloadLength(p[1], p[2..LengthEnd(p[1])]) == Announced(p)
  {
    if p[1] & 0x7f == 126 {
      TwoBytes(p[2..4]);
    } else if p[1] & 0x7f == 127 {
      EightBytes(p[2..10]);
    }
  }

  lemma KeyBit(b: byte)
    ensures b & 0x80 != 0 <==> b & 0x80 == 0x80
  {
  }

  lemma HeadIff(p: seq<byte>)
    ensures ReadHead(p).Bad? <==> Refused(p)
    ensures ReadHead(p).Head? <==> LengthIsThere(p) && !Refused(p)
    ensures ReadHead(p).Head? ==>
              ReadHead(p) == Head(p[0] & 0x80 == 0x80, p[0] & 0x0f, HasKey(p), PayloadAt(p), Announced(p))
  {
    if |p| >= 2 {
      KeyBit(p[0]);
      KeyBit(p[1]);
      if LengthIsThere(p) {
        LengthIsAnnounced(p);
      }
    }
  }

  lemma PayloadBytes(h: Head, p: seq<byte>)
    requires h.Head? && h.start + h.length <= |p| && (h.masked ==> 6 <= h.start)
    ensures forall i | 0 <= i < h.length ::
              Payload(h, p)[i] == if h.masked then p[h.start + i] ^ p[h.start - 4 + i % 4] else p[h.start + i]
  {
    if h.masked {
      MaskedBytes(p[h.start..h.start + h.length], p[h.start - 4..h.start]);
    }
  }

  lemma MaskedBytes(body: seq<byte>, key: seq<byte>)
    requires |key| == 4
    ensures forall i | 0 <= i < |body| :: Masked(body, key)[i] == body[i] ^ key[i % 4]
  {
  }

  lemma ParseIff(p: seq<byte>)
    ensures ParseFrame(p).Violation? <==> Refused(p)
    ensures ParseFrame(p).Frame? <==> Complete(p)
  {
    HeadIff(p);
  }

  lemma FrameContents(h: Head, p: seq<byte>)
    requires h == ReadHead(p) && h.Head? && h.start + h.length <= |p|
    ensures ParseFrame(p) == Frame(h.final, h.opcode, Payload(h, p), h.start + h.length)
  {
  }

  /** The decoder takes a frame exactly when it is complete, and then with exactly these contents. */
  lemma {:induction false} FrameIff(p: seq<byte>)
    ensures ParseFrame(p).Violation? <==> Refused(p)
    ensures ParseFrame(p).Frame? <==> Complete(p)
    ensures Complete(p) ==>
              var f := ParseFrame(p);
              && f.final == (p[0] & 0x80 == 0x80) && f.opcode == p[0] & 0x0f
              && f.size == PayloadAt(p) + Announced(p) && |f.payload| == Announced(p)
              && forall i | 0 <= i < Announced(p) :: f.payload[i] == PayloadByte(p, i)
  {
    ParseIff(p);
    if Complete(p) {
      HeadIff(p);
      FrameContents(ReadHead(p), p);
      PayloadBytes(ReadHead(p), p);
    }
  }
}

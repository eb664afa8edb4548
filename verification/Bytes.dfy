/** Big-endian byte strings, as written by binary.BigEndian.PutUint64 and by MessagePack headers. */
module Bytes {
  import opened Prelude

  function BigEndian(n: nat, width: nat): (bs: seq<byte>)
    ensures |bs| == width
  {
    if width == 0 then [] else BigEndian(n / 256, width - 1) + [n % 256]
  }

  function FromBigEndian(bs: seq<byte>): nat {
    if bs == [] then 0 else 256 * FromBigEndian(bs[..|bs| - 1]) + bs[|bs| - 1]
  }

  function Zeros(k: nat): (bs: seq<byte>)
    ensures |bs| == k
  {
    seq(k, _ => 0)
  }

  // Writing a number and reading it back gives the number, provided it fits.
  lemma {:induction false} BigEndianReads(n: nat, width: nat)
    requires n < Pow(256, width)
    ensures FromBigEndian(BigEndian(n, width)) == n
  {
    if width == 0 {
    } else {
      BigEndianReads(n / 256, width - 1);
      var bs := BigEndian(n, width);
      assert bs[..|bs| - 1] == BigEndian(n / 256, width - 1);
    }
  }

  lemma ReadNext(bs: seq<byte>, k: nat)
    requires k < |bs|
    ensures FromBigEndian(bs[..k + 1]) == 256 * FromBigEndian(bs[..k]) + bs[k]
  {
    assert bs[..k + 1][..k] == bs[..k];
  }

  lemma ReadFour(bs: seq<byte>, k: nat)
    requires k + 4 <= |bs|
    ensures FromBigEndian(bs[..k + 4]) ==
            0x1_0000_0000 * FromBigEndian(bs[..k]) + 0x100_0000 * (bs[k] as int) +
            0x1_0000 * (bs[k + 1] as int) + 0x100 * (bs[k + 2] as int) + bs[k + 3]
  {
    ReadNext(bs, k);
    ReadNext(bs, k + 1);
    ReadNext(bs, k + 2);
    ReadNext(bs, k + 3);
  }

  // Eight bytes are a number, the first one counting most.
  lemma EightBytes(bs: seq<byte>)
    requires |bs| == 8
    ensures FromBigEndian(bs) ==
            (bs[0] as int) * 0x100_0000_0000_0000 + (bs[1] as int) * 0x1_0000_0000_0000 +
            (bs[2] as int) * 0x100_0000_0000 + (bs[3] as int) * 0x1_0000_0000 +
            (bs[4] as int) * 0x100_0000 + (bs[5] as int) * 0x1_0000 + (bs[6] as int) * 0x100 + bs[7]
  {
    ReadFour(bs, 0);
    ReadFour(bs, 4);
    assert FromBigEndian(bs[..0]) == 0 && bs[..8] == bs;
  }

  // Reading is injective at a fixed width: the bytes are determined by the number.
  lemma {:induction false} BigEndianWrites(bs: seq<byte>)
    ensures BigEndian(FromBigEndian(bs), |bs|) == bs
    ensures FromBigEndian(bs) < Pow(256, |bs|)
  {
    if bs == [] {
    } else {
      BigEndianWrites(bs[..|bs| - 1]);
    }
  }

  lemma {:induction false} LeadingZeros(k: nat, bs: seq<byte>)
    ensures FromBigEndian(Zeros(k) + bs) == FromBigEndian(bs)
  {
    var all := Zeros(k) + bs;
    if bs != [] {
      LeadingZeros(k, bs[..|bs| - 1]);
      assert all[..|all| - 1] == Zeros(k) + bs[..|bs| - 1];
    } else if k > 0 {
      LeadingZeros(k - 1, bs);
      assert all[..|all| - 1] == Zeros(k - 1) + bs;
      assert Zeros(k - 1) + bs == Zeros(k - 1);
    }
  }

  lemma {:induction false} BigEndianPair(n: nat)
    requires n < 0x1_0000
    ensures BigEndian(n, 2) == [n / 256, n % 256]
  {
    assert BigEndian(n / 256, 1) == [n / 256] by {
      assert BigEndian(n / 256 / 256, 0) == [];
    }
  }
}

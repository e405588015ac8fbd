/** Failures of the decoder and the wrappers that carry them. */
module Errors {

  /** The failures the PBZX decoder can meet: the crate's error enum collapsed
      to the cases the reader raises, with the io::Error kinds spelled out. */
  datatype Error =
    | ShortRead        // read_exact reached the end of the source
    | BadPbzxMagic     // the stream does not start with "pbzx"
    | BadLzmaMagic     // a compressed chunk does not start with the XZ signature
    | PayloadTooShort  // a compressed chunk holds fewer than 6 bytes
    | CorruptData      // raised by the XZ decoder while it produces a chunk

  datatype Result<+T> = Ok(value: T) | Err(error: Error)

  datatype Option<+T> = None | Some(value: T)
}

/** Bytes, 64-bit words and their big-endian encoding (u64::from_be_bytes). */
module Bytes {

  type byte = x: int | 0 <= x < 256

  const U64_BOUND: nat := 0x1_0000_0000_0000_0000

  type u64 = x: int | 0 <= x < 0x1_0000_0000_0000_0000

  /** 256 to the power n: the number of values n bytes can hold. */
  function Pow256(n: nat): (p: nat)
    ensures p > 0
  {
    if n == 0 then 1 else 256 * Pow256(n - 1)
  }

  lemma Pow256Values()
    ensures Pow256(3) == 0x100_0000
    ensures Pow256(8) == U64_BOUND
  {
    assert Pow256(0) == 1;
    assert Pow256(1) == 0x100;
    assert Pow256(2) == 0x1_0000;
    assert Pow256(3) == 0x100_0000;
    assert Pow256(4) == 0x1_0000_0000;
    assert Pow256(5) == 0x100_0000_0000;
    assert Pow256(6) == 0x1_0000_0000_0000;
    assert Pow256(7) == 0x100_0000_0000_0000;
  }

  /** The unsigned value of a byte string read most significant byte first. */
  function BeValue(bs: seq<byte>): nat
  {
    if bs == [] then 0 else BeValue(bs[..|bs| - 1]) * 256 + bs[|bs| - 1]
  }

  /** The n-byte big-endian representation of x modulo 256^n. */
  function BeBytes(x: nat, n: nat): (bs: seq<byte>)
    ensures |bs| == n
  {
    if n == 0 then [] else BeBytes(x / 256, n - 1) + [x % 256]
  }

  lemma {:induction false} BeValueBound(bs: seq<byte>)
    ensures BeValue(bs) < Pow256(|bs|)
  {
    if bs != [] {
      var init := bs[..|bs| - 1];
      BeValueBound(init);
      assert BeValue(init) * 256 <= (Pow256(|init|) - 1) * 256;
    }
  }

  /** Splitting a byte string splits its value at the matching power of 256. */
  lemma {:induction false} BeValueAppend(a: seq<byte>, b: seq<byte>)
    ensures BeValue(a + b) == BeValue(a) * Pow256(|b|) + BeValue(b)
  {
    if b == [] {
      assert a + b == a;
    } else {
      var b' := b[..|b| - 1];
      assert (a + b)[..|a + b| - 1] == a + b';
      BeValueAppend(a, b');
      calc {
        BeValue(a + b);
        BeValue(a + b') * 256 + b[|b| - 1];
        (BeValue(a) * Pow256(|b'|) + BeValue(b')) * 256 + b[|b| - 1];
        BeValue(a) * (Pow256(|b'|) * 256) + (BeValue(b') * 256 + b[|b| - 1]);
        BeValue(a) * Pow256(|b|) + BeValue(b);
      }
    }
  }

  /** Encoding a value that fits and reading it back gives the value. */
  lemma {:induction false} BeValueOfBeBytes(x: nat, n: nat)
    requires x < Pow256(n)
    ensures BeValue(BeBytes(x, n)) == x
  {
    if n > 0 {
      var bs := BeBytes(x, n);
      var q, r := x / 256, x % 256;
      assert x == q * 256 + r;
      assert q * 256 < Pow256(n - 1) * 256;
      assert bs == BeBytes(q, n - 1) + [r];
      assert bs[..n - 1] == BeBytes(q, n - 1);
      BeValueOfBeBytes(q, n - 1);
    }
  }

  /** Reading a byte string and encoding its value at the same width gives the bytes back. */
  lemma {:induction false} BeBytesOfBeValue(bs: seq<byte>)
    ensures BeBytes(BeValue(bs), |bs|) == bs
  {
    if bs != [] {
      var init := bs[..|bs| - 1];
      var v := BeValue(bs);
      assert v / 256 == BeValue(init) && v % 256 == bs[|bs| - 1];
      BeBytesOfBeValue(init);
    }
  }

  /** u64::from_be_bytes on an 8-byte array. */
  function U64FromBe(bs: seq<byte>): u64
    requires |bs| == 8
  {
    BeValueBound(bs);
    Pow256Values();
    BeValue(bs)
  }

  /** `u64::from_be_bytes`: the first byte is the most significant. */
  lemma U64FromBeHorner(bs: seq<byte>)
    requires |bs| == 8
    ensures U64FromBe(bs) ==
      var b := seq(8, i requires 0 <= i < 8 => bs[i] as int);
      ((((((b[0] * 256 + b[1]) * 256 + b[2]) * 256 + b[3]) * 256 + b[4]) * 256 + b[5]) * 256 + b[6]) * 256 + b[7]
  {
    forall k | 1 <= k <= 8
      ensures BeValue(bs[..k]) == BeValue(bs[..k - 1]) * 256 + bs[k - 1]
    {
      assert bs[..k][..k - 1] == bs[..k - 1];
    }
    assert bs[..8] == bs;
    assert bs[..0] == [];
  }

  /** u64::to_be_bytes. */
  function U64ToBe(v: u64): (bs: seq<byte>)
    ensures |bs| == 8
  {
    BeBytes(v, 8)
  }

  /** Reading back the big-endian bytes of a word gives the word. */
  lemma U64FromToBe(v: u64)
    ensures U64FromBe(U64ToBe(v)) == v
  {
    Pow256Values();
    BeValueOfBeBytes(v, 8);
  }

  /** Encoding the word read from 8 bytes gives those bytes back. */
  lemma U64ToFromBe(bs: seq<byte>)
    requires |bs| == 8
    ensures U64ToBe(U64FromBe(bs)) == bs
  {
    BeBytesOfBeValue(bs);
  }

  /** Two words with the same big-endian bytes are equal. */
  lemma U64ToBeInjective(v: u64, w: u64)
    requires U64ToBe(v) == U64ToBe(w)
    ensures v == w
  {
    U64FromToBe(v);
    U64FromToBe(w);
  }
}

/** Big-endian bytes of natural numbers, shared by both canonical encoders, the hash and EIP-712. */
module Bytes {
  import opened Arithmetic

  type Byte = b: int | 0 <= b < 256

  const TWO_64: nat := 0x1_0000_0000_0000_0000
  const TWO_256: nat := 0x1_0000_0000_0000_0000_0000_0000_0000_0000_0000_0000_0000_0000_0000_0000_0000_0000

  function Pow256(n: nat): (p: nat)
    ensures p > 0
  {
    if n == 0 then 1 else 256 * Pow256(n - 1)
  }

  /** The n lowest bytes of v, most significant first. */
  function ToBytes(v: nat, n: nat): (bs: seq<Byte>)
    ensures |bs| == n
  {
    if n == 0 then [] else ToBytes(v / 256, n - 1) + [v % 256]
  }

  function FromBytes(bs: seq<Byte>): nat {
    if bs == [] then 0 else 256 * FromBytes(bs[..|bs| - 1]) + bs[|bs| - 1]
  }

  /** Byte i of n is the digit of weight 256^(n-1-i): the most significant byte comes first. */
  lemma {:induction false} ByteAt(v: nat, n: nat, i: nat)
    requires i < n
    ensures ToBytes(v, n)[i] == v / Pow256(n - 1 - i) % 256
    decreases n
  {
    if i < n - 1 {
      ByteAt(v / 256, n - 1, i);
      assert Pow256(n - 1 - i) == 256 * Pow256(n - 2 - i);
      hide ToBytes, Pow256;
      DivideTwice(v, 256, Pow256(n - 2 - i));
    }
  }

  lemma {:induction false} FromToBytes(v: nat, n: nat)
    requires v < Pow256(n)
    ensures FromBytes(ToBytes(v, n)) == v
    decreases n
  {
    if n > 0 {
      FromToBytes(v / 256, n - 1);
      assert ToBytes(v, n)[..n - 1] == ToBytes(v / 256, n - 1);
    }
  }

  lemma {:induction false} ToFromBytes(bs: seq<Byte>)
    ensures FromBytes(bs) < Pow256(|bs|)
    ensures ToBytes(FromBytes(bs), |bs|) == bs
  {
    if bs != [] {
      var init, last := bs[..|bs| - 1], bs[|bs| - 1];
      ToFromBytes(init);
      assert FromBytes(bs) / 256 == FromBytes(init) && FromBytes(bs) % 256 == last;
      assert bs == init + [last];
    }
  }

  lemma {:induction false} Pow256Sum(m: nat, n: nat)
    ensures Pow256(m + n) == Pow256(m) * Pow256(n)
  {
    if n > 0 {
      Pow256Sum(m, n - 1);
      assert Pow256(m + n) == 256 * Pow256(m + (n - 1)) && Pow256(n) == 256 * Pow256(n - 1);
      hide Pow256;
      MulAssociates(256, Pow256(m), Pow256(n - 1));
      MulAssociates(Pow256(m), 256, Pow256(n - 1));
      assert 256 * Pow256(m) == Pow256(m) * 256;
    }
  }

  lemma Pow256Values()
    ensures Pow256(8) == TWO_64
    ensures Pow256(32) == TWO_256
  {
    assert Pow256(2) == 0x1_0000;
    hide Pow256;
    Pow256Sum(2, 2);
    Pow256Sum(4, 4);
    Pow256Sum(8, 8);
    Pow256Sum(16, 16);
  }

  // ---------- Sequences of 64-bit words ----------

  type Word = w: int | 0 <= w < TWO_64

  /** What an integer leaves in an unsigned or signed 64-bit slot: its value modulo 2^64. */
  function AsWord(v: int): Word {
    v % TWO_64
  }

  function WordBytes(w: Word): (bs: seq<Byte>)
    ensures |bs| == 8
  {
    ToBytes(w, 8)
  }

  function EncodeWords(ws: seq<Word>): (bs: seq<Byte>)
    ensures |bs| == 8 * |ws|
  {
    if ws == [] then [] else EncodeWords(ws[..|ws| - 1]) + WordBytes(ws[|ws| - 1])
  }

  function BytesWord(bs: seq<Byte>): Word
    requires |bs| == 8
  {
    Pow256Values();
    ToFromBytes(bs);
    FromBytes(bs)
  }

  function DecodeWords(bs: seq<Byte>): (ws: seq<Word>)
    requires |bs| % 8 == 0
    ensures |ws| == |bs| / 8
  {
    if bs == [] then [] else DecodeWords(bs[..|bs| - 8]) + [BytesWord(bs[|bs| - 8..])]
  }

  lemma EncodeNothing()
    ensures EncodeWords([]) == []
  {
  }

  lemma EncodeWordsSnoc(ws: seq<Word>, w: Word)
    ensures EncodeWords(ws + [w]) == EncodeWords(ws) + WordBytes(w)
  {
    assert (ws + [w])[..|ws|] == ws;
  }

  lemma DecodeWordsSnoc(bs: seq<Byte>, eight: seq<Byte>)
    requires |bs| % 8 == 0 && |eight| == 8
    ensures DecodeWords(bs + eight) == DecodeWords(bs) + [BytesWord(eight)]
  {
    assert (bs + eight)[..|bs|] == bs && (bs + eight)[|bs|..] == eight;
  }

  lemma BytesOfWord(w: Word)
    ensures BytesWord(WordBytes(w)) == w
  {
    Pow256Values();
    FromToBytes(w, 8);
  }

  /** Packing words into bytes loses nothing. */
  lemma {:induction false} DecodeEncodeWords(ws: seq<Word>)
    ensures DecodeWords(EncodeWords(ws)) == ws
  {
    if ws != [] {
      var init, last := ws[..|ws| - 1], ws[|ws| - 1];
      EncodeWordsSnoc(init, last);
      assert ws == init + [last];
      hide *;
      DecodeEncodeWords(init);
      DecodeWordsSnoc(EncodeWords(init), WordBytes(last));
      BytesOfWord(last);
    }
  }

  /** The words stand one after the other, eight bytes each. */
  lemma {:induction false} WordAt(ws: seq<Word>, i: nat)
    requires i < |ws|
    ensures EncodeWords(ws)[8 * i..8 * i + 8] == WordBytes(ws[i])
  {
    var init, last := ws[..|ws| - 1], ws[|ws| - 1];
    assert ws == init + [last];
    EncodeWordsSnoc(init, last);
    hide *;
    SliceOfConcat(EncodeWords(init), WordBytes(last), 8 * i, 8 * i + 8);
    if i < |init| {
      WordAt(init, i);
    }
  }

  lemma SliceOfConcat(x: seq<Byte>, y: seq<Byte>, from: nat, to: nat)
    requires from <= to <= |x + y|
    ensures to <= |x| ==> (x + y)[from..to] == x[from..to]
    ensures from == |x| && to == |x + y| ==> (x + y)[from..to] == y
  {
  }

  /** Byte i of a word is w / 256^(7-i) modulo 256. */
  lemma WordByteAt(w: Word, i: nat)
    requires i < 8
    ensures WordBytes(w)[i] == w / Pow256(7 - i) % 256
  {
    ByteAt(w, 8, i);
  }

  lemma BytesWordBytes(eight: seq<Byte>)
    requires |eight| == 8
    ensures WordBytes(BytesWord(eight)) == eight
  {
    ToFromBytes(eight);
  }

  lemma WordBytesInjective(a: Word, b: Word)
    ensures WordBytes(a) == WordBytes(b) <==> a == b
  {
    Pow256Values();
    FromToBytes(a, 8);
    FromToBytes(b, 8);
  }

  /** Every byte string of whole words is the packing of its words. */
  lemma {:induction false} EncodeDecodeWords(bs: seq<Byte>)
    requires |bs| % 8 == 0
    ensures EncodeWords(DecodeWords(bs)) == bs
  {
    if bs != [] {
      var init, last := bs[..|bs| - 8], bs[|bs| - 8..];
      EncodeDecodeWords(init);
      assert DecodeWords(bs) == DecodeWords(init) + [BytesWord(last)];
      EncodeWordsSnoc(DecodeWords(init), BytesWord(last));
      BytesWordBytes(last);
      assert bs == init + last;
    }
  }
}

/** Bytes, 32-bit words, and the two conversions the block function performs
    between them: the little-endian word load and the little-endian word
    store, together with the 32-bit left rotation used by the quarter-round.

    JavaScript numbers are abstracted to their residue modulo 2^32: every
    operation of the block function agrees with 32-bit machine arithmetic on
    that residue, so a word is a `bv32` and a byte a `bv8`. */
module Words {

  type byte = bv8
  type word = bv32

  /** The word whose little-endian encoding is `b0 b1 b2 b3`: byte 0 is the
      least significant. */
  function LoadWord(b0: byte, b1: byte, b2: byte, b3: byte): word
  {
    (b0 as word) | ((b1 as word) << 8) | ((b2 as word) << 16) | ((b3 as word) << 24)
  }

  /** The four bytes of `w`, least significant first. */
  function StoreWord(w: word): (r: seq<byte>)
    ensures |r| == 4
  {
    [(w & 0xFF) as byte, ((w >> 8) & 0xFF) as byte, ((w >> 16) & 0xFF) as byte, ((w >> 24) & 0xFF) as byte]
  }

  /** Byte `k` of the loaded word, counting from the least significant, is
      argument `bk`. */
  lemma LoadWordBytes(b0: byte, b1: byte, b2: byte, b3: byte)
    ensures var w := LoadWord(b0, b1, b2, b3);
            && (w & 0xFF) as byte == b0
            && ((w >> 8) & 0xFF) as byte == b1
            && ((w >> 16) & 0xFF) as byte == b2
            && ((w >> 24) & 0xFF) as byte == b3
  {
  }

  /** Loading the four bytes a word is stored as gives the word back. */
  lemma LoadStoreWord(w: word)
    ensures var r := StoreWord(w); LoadWord(r[0], r[1], r[2], r[3]) == w
  {
  }

  /** Storing the word loaded from four bytes gives those bytes back. */
  lemma StoreLoadWord(b0: byte, b1: byte, b2: byte, b3: byte)
    ensures StoreWord(LoadWord(b0, b1, b2, b3)) == [b0, b1, b2, b3]
  {
  }

  /** The rotation helper of the block function: a shift left by `n` or'ed
      with a logical shift right by `32 - n`. */
  function Rotl(x: word, n: nat): word
    requires 0 < n < 32
  {
    (x << n) | (x >> (32 - n))
  }

  /** For each distance the quarter-round uses, the helper is exactly the
      32-bit left rotation. */
  lemma RotlIsRotation(x: word, n: nat)
    requires n == 16 || n == 12 || n == 8 || n == 7
    ensures Rotl(x, n) == x.RotateLeft(n)
  {
    if n == 16 {
      assert Rotl(x, 16) == x.RotateLeft(16);
    } else if n == 12 {
      assert Rotl(x, 12) == x.RotateLeft(12);
    } else if n == 8 {
      assert Rotl(x, 8) == x.RotateLeft(8);
    } else {
      assert Rotl(x, 7) == x.RotateLeft(7);
    }
  }

  /** Rotating by `n` and then by `32 - n` is the identity, for each of the
      rotation distances the quarter-round uses. */
  lemma RotlUndo(x: word, n: nat)
    requires n == 16 || n == 12 || n == 8 || n == 7
    ensures Rotl(Rotl(x, n), 32 - n) == x
  {
    RotlIsRotation(x, n);
    if n == 16 {
      assert Rotl(Rotl(x, 16), 16) == x;
    } else if n == 12 {
      assert Rotl(Rotl(x, 12), 20) == x;
    } else if n == 8 {
      assert Rotl(Rotl(x, 8), 24) == x;
    } else {
      assert Rotl(Rotl(x, 7), 25) == x;
    }
  }

  /** Addition modulo 2^32, the sum a `Uint32Array` element keeps. */
  function Add(a: word, b: word): word
  {
    a + b
  }

  /** Subtraction modulo 2^32. */
  function Sub(a: word, b: word): word
  {
    a - b
  }

  /** Subtracting an addend undoes the addition, modulo 2^32. */
  lemma SubAdd(a: word, b: word)
    ensures Sub(Add(a, b), a) == b
  {
    assert Sub(Add(a, b), a) == Sub(a + b, a);
  }

  /** The little-endian encodings of the words of `ws`, one after the other. */
  function StoreWords(ws: seq<word>): (bs: seq<byte>)
    ensures |bs| == 4 * |ws|
  {
    if ws == [] then [] else StoreWord(ws[0]) + StoreWords(ws[1..])
  }

  /** The words whose little-endian encodings are the consecutive 4-byte
      groups of `bs`. */
  function LoadWords(bs: seq<byte>): (ws: seq<word>)
    requires |bs| % 4 == 0
    ensures |ws| == |bs| / 4
    decreases |bs|
  {
    if bs == [] then [] else [LoadWord(bs[0], bs[1], bs[2], bs[3])] + LoadWords(bs[4..])
  }

  /** Bytes `4i .. 4i+3` of the encoding are the encoding of word `i`. */
  lemma {:induction false} StoreWordsAt(ws: seq<word>, i: nat)
    requires i < |ws|
    ensures StoreWords(ws)[4 * i..4 * i + 4] == StoreWord(ws[i])
  {
    if i > 0 {
      StoreWordsAt(ws[1..], i - 1);
      var head, rest := StoreWord(ws[0]), StoreWords(ws[1..]);
      assert StoreWords(ws) == head + rest;
      assert (head + rest)[4 * i..4 * i + 4] == rest[4 * (i - 1)..4 * (i - 1) + 4];
    }
  }

  /** Encoding one more word appends its four bytes. */
  lemma {:induction false} StoreWordsSnoc(ws: seq<word>, w: word)
    ensures StoreWords(ws + [w]) == StoreWords(ws) + StoreWord(w)
  {
    if ws != [] {
      StoreWordsSnoc(ws[1..], w);
      assert (ws + [w])[1..] == ws[1..] + [w];
    }
  }

  /** Word `i` of the loaded words is the word of bytes `4i .. 4i+3`. */
  lemma {:induction false} LoadWordsAt(bs: seq<byte>, i: nat)
    requires |bs| % 4 == 0 && i < |bs| / 4
    ensures LoadWords(bs)[i] == LoadWord(bs[4 * i], bs[4 * i + 1], bs[4 * i + 2], bs[4 * i + 3])
    decreases i
  {
    if i > 0 {
      LoadWordsAt(bs[4..], i - 1);
      assert bs[4..][4 * (i - 1)] == bs[4 * i];
      assert bs[4..][4 * (i - 1) + 1] == bs[4 * i + 1];
      assert bs[4..][4 * (i - 1) + 2] == bs[4 * i + 2];
      assert bs[4..][4 * (i - 1) + 3] == bs[4 * i + 3];
    }
  }

  /** Storing the loaded words gives the bytes back. */
  lemma {:induction false} StoreLoadWords(bs: seq<byte>)
    requires |bs| % 4 == 0
    ensures StoreWords(LoadWords(bs)) == bs
    decreases |bs|
  {
    if bs != [] {
      StoreLoadWords(bs[4..]);
      StoreLoadWord(bs[0], bs[1], bs[2], bs[3]);
      var ws := LoadWords(bs);
      assert ws[1..] == LoadWords(bs[4..]);
      assert StoreWords(ws) == [bs[0], bs[1], bs[2], bs[3]] + bs[4..];
    }
  }

  /** Loading the encoding of a word sequence gives the words back. */
  lemma {:induction false} LoadStoreWords(ws: seq<word>)
    ensures LoadWords(StoreWords(ws)) == ws
  {
    if ws != [] {
      LoadStoreWords(ws[1..]);
      var r := StoreWord(ws[0]);
      var bs := StoreWords(ws);
      assert bs == r + StoreWords(ws[1..]);
      assert bs[4..] == StoreWords(ws[1..]);
      assert bs[0] == r[0] && bs[1] == r[1] && bs[2] == r[2] && bs[3] == r[3];
      LoadStoreWord(ws[0]);
    }
  }
}

/** The add-rotate-xor quarter-round of the block function, its explicit
    inverse, and the facts that make it a bijection on four words.

    The round xors the ROTATED SUM into its target (`d ^= rotl(a + b, 16)`),
    which is neither the Salsa20 quarterround of section 3 of Bernstein's
    Salsa20 specification nor the ChaCha quarter round of section 2.1 of
    RFC 8439; `ChaChaQuarterRound` below is the latter, kept as a reference
    to show the two differ. */
module QuarterRounds {
  import opened Words

  /** The four words a quarter-round reads and returns, in argument order. */
  datatype Quad = Quad(a: word, b: word, c: word, d: word)

  /** The quarter-round: each line updates one word from the value just
      computed before it. */
  function QuarterRound(a: word, b: word, c: word, d: word): Quad
  {
    var a1 := a + b;
    var d1 := d ^ Rotl(a1, 16);
    var c1 := c + d1;
    var b1 := b ^ Rotl(c1, 12);
    var a2 := a1 + b1;
    var d2 := d1 ^ Rotl(a2, 8);
    var c2 := c1 + d2;
    var b2 := b1 ^ Rotl(c2, 7);
    Quad(a2, b2, c2, d2)
  }

  /** Undoes the quarter-round one line at a time, last line first: an
      addition is undone by a subtraction, an xor by the same xor. */
  function InverseQuarterRound(a: word, b: word, c: word, d: word): Quad
  {
    var b1 := b ^ Rotl(c, 7);
    var c1 := c - d;
    var d1 := d ^ Rotl(a, 8);
    var a1 := a - b1;
    var b0 := b1 ^ Rotl(c1, 12);
    var c0 := c1 - d1;
    var d0 := d1 ^ Rotl(a1, 16);
    var a0 := a1 - b0;
    Quad(a0, b0, c0, d0)
  }

  // Proof steps for the two lemmas that follow them: the four lemmas below
  // give the solver each round as one flat expression, which its bit-vector
  // simplifier can cancel term by term.

  lemma UnfoldQuarterRound(a: word, b: word, c: word, d: word)
    ensures
      var a1 := a + b;
      var d1 := d ^ Rotl(a1, 16);
      var c1 := c + d1;
      var b1 := b ^ Rotl(c1, 12);
      var a2 := a1 + b1;
      var d2 := d1 ^ Rotl(a2, 8);
      var c2 := c1 + d2;
      var b2 := b1 ^ Rotl(c2, 7);
      QuarterRound(a, b, c, d) == Quad(a2, b2, c2, d2)
  {
  }

  lemma InverseUndoesSteps(a: word, b: word, c: word, d: word)
    ensures
      var a1 := a + b;
      var d1 := d ^ Rotl(a1, 16);
      var c1 := c + d1;
      var b1 := b ^ Rotl(c1, 12);
      var a2 := a1 + b1;
      var d2 := d1 ^ Rotl(a2, 8);
      var c2 := c1 + d2;
      var b2 := b1 ^ Rotl(c2, 7);
      InverseQuarterRound(a2, b2, c2, d2) == Quad(a, b, c, d)
  {
  }

  lemma UnfoldInverseQuarterRound(a: word, b: word, c: word, d: word)
    ensures
      var b1 := b ^ Rotl(c, 7);
      var c1 := c - d;
      var d1 := d ^ Rotl(a, 8);
      var a1 := a - b1;
      var b0 := b1 ^ Rotl(c1, 12);
      var c0 := c1 - d1;
      var d0 := d1 ^ Rotl(a1, 16);
      var a0 := a1 - b0;
      InverseQuarterRound(a, b, c, d) == Quad(a0, b0, c0, d0)
  {
  }

  lemma StepsUndoInverse(a: word, b: word, c: word, d: word)
    ensures
      var b1 := b ^ Rotl(c, 7);
      var c1 := c - d;
      var d1 := d ^ Rotl(a, 8);
      var a1 := a - b1;
      var b0 := b1 ^ Rotl(c1, 12);
      var c0 := c1 - d1;
      var d0 := d1 ^ Rotl(a1, 16);
      var a0 := a1 - b0;
      QuarterRound(a0, b0, c0, d0) == Quad(a, b, c, d)
  {
  }

  /** The inverse recovers the quarter-round's arguments: the quarter-round
      is injective. */
  lemma QuarterRoundInverse(a: word, b: word, c: word, d: word)
    ensures var r := QuarterRound(a, b, c, d);
            InverseQuarterRound(r.a, r.b, r.c, r.d) == Quad(a, b, c, d)
  {
    UnfoldQuarterRound(a, b, c, d);
    InverseUndoesSteps(a, b, c, d);
  }

  /** Every four words are the quarter-round of the inverse's result: the
      quarter-round is surjective, hence a bijection on four words. */
  lemma QuarterRoundSurjective(a: word, b: word, c: word, d: word)
    ensures var v := InverseQuarterRound(a, b, c, d);
            QuarterRound(v.a, v.b, v.c, v.d) == Quad(a, b, c, d)
  {
    UnfoldInverseQuarterRound(a, b, c, d);
    StepsUndoInverse(a, b, c, d);
  }

  /** Four zero words are a fixed point. */
  lemma QuarterRoundZero()
    ensures QuarterRound(0, 0, 0, 0) == Quad(0, 0, 0, 0)
  {
    assert Rotl(0, 16) == 0;
    assert Rotl(0, 12) == 0;
    assert Rotl(0, 8) == 0;
    assert Rotl(0, 7) == 0;
  }

  /** The ChaCha quarter round of section 2.1 of RFC 8439, which rotates
      after the xor. */
  function ChaChaQuarterRound(a: word, b: word, c: word, d: word): Quad
  {
    var a1 := a + b;
    var d1 := Rotl(d ^ a1, 16);
    var c1 := c + d1;
    var b1 := Rotl(b ^ c1, 12);
    var a2 := a1 + b1;
    var d2 := Rotl(d1 ^ a2, 8);
    var c2 := c1 + d2;
    var b2 := Rotl(b1 ^ c2, 7);
    Quad(a2, b2, c2, d2)
  }

  /** The block function's quarter-round is not the ChaCha one: on
      `(1, 0, 0, 1)` the first step already differs, since
      `1 ^ rotl(1, 16)` is `0x10001` while `rotl(1 ^ 1, 16)` is 0. */
  lemma NotChaChaQuarterRound()
    ensures QuarterRound(1, 0, 0, 1) != ChaChaQuarterRound(1, 0, 0, 1)
  {
    // The RFC 8439 round: a = 1, d = rotl(1 ^ 1, 16) = 0, c = 0, b = 0,
    // then a = 1, d = rotl(1, 8) = 0x100, c = 0x100, b = rotl(0x100, 7).
    assert Rotl(0, 16) == 0;
    assert Rotl(0, 12) == 0;
    assert Rotl(1, 8) == 0x100;
    assert Rotl(0x100, 7) == 0x8000;
    assert ChaChaQuarterRound(1, 0, 0, 1).d == 0x100;
    // This round: d = 1 ^ rotl(1, 16) = 0x10001, c = 0x10001,
    // b = rotl(0x10001, 12) = 0x10001000, a = 0x10001001,
    // d = 0x10001 ^ rotl(0x10001001, 8).
    assert Rotl(1, 16) == 0x10000;
    assert Rotl(0x10001, 12) == 0x10001000;
    assert Rotl(0x10001001, 8) == 0x100110;
    assert QuarterRound(1, 0, 0, 1).d == 0x110111;
  }
}

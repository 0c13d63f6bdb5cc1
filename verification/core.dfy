/** The block function `coreSalsa20`: load the 64 input bytes as 16
    little-endian words, run the mixing loop on a copy, add the copy back to
    the loaded words word by word modulo 2^32, and store the 16 sums
    little-endian as the 64 output bytes. The 64 constant bytes are loaded
    too, and then never used. */
module Core {
  import opened Words
  import opened QuarterRounds
  import opened Iteration
  import opened Rounds

  /** The feed-forward: each mixed word added to the word it started from,
      modulo 2^32. */
  function FeedForward(state: Block, mixed: Block): Block
  {
    seq(16, i requires 0 <= i < 16 => Add(state[i], mixed[i]))
  }

  /** Recovers the mixed vector from the feed-forward's result and the
      starting vector. */
  function FeedBack(state: Block, out: Block): (mixed: Block)
  {
    seq(16, i requires 0 <= i < 16 => Sub(out[i], state[i]))
  }

  /** Knowing the starting vector, the feed-forward loses nothing. */
  lemma FeedBackOfFeedForward(state: Block, mixed: Block)
    ensures FeedBack(state, FeedForward(state, mixed)) == mixed
  {
    var r := FeedForward(state, mixed);
    forall i | 0 <= i < 16
      ensures FeedBack(state, r)[i] == mixed[i]
    {
      SubAdd(state[i], mixed[i]);
    }
  }

  /** The block function on 64 input bytes and 64 constant bytes. */
  function Salsa20Core(input: seq<byte>, constants: seq<byte>): (out: seq<byte>)
    requires |input| == 64 && |constants| == 64
    ensures |out| == 64
  {
    var state: Block := LoadWords(input);
    StoreWords(FeedForward(state, Mix(state)))
  }

  /** Output bytes `4i .. 4i+3` are the little-endian encoding of input word
      `i` plus word `i` of the mixed vector, modulo 2^32. */
  lemma OutputWords(input: seq<byte>, constants: seq<byte>)
    requires |input| == 64 && |constants| == 64
    ensures var state: Block := LoadWords(input);
            var out := Salsa20Core(input, constants);
            forall i :: 0 <= i < 16 ==>
              && state[i] == LoadWord(input[4 * i], input[4 * i + 1], input[4 * i + 2], input[4 * i + 3])
              && out[4 * i..4 * i + 4] == StoreWord(Add(state[i], Mix(state)[i]))
  {
    var state: Block := LoadWords(input);
    var r := FeedForward(state, Mix(state));
    forall i | 0 <= i < 16
      ensures state[i] == LoadWord(input[4 * i], input[4 * i + 1], input[4 * i + 2], input[4 * i + 3])
      ensures StoreWords(r)[4 * i..4 * i + 4] == StoreWord(Add(state[i], Mix(state)[i]))
    {
      LoadWordsAt(input, i);
      StoreWordsAt(r, i);
    }
  }

  /** Knowing the input, the output gives back the mixed vector: the mixing
      loop's result is the output words minus the input words. */
  lemma RecoverMixed(input: seq<byte>, constants: seq<byte>)
    requires |input| == 64 && |constants| == 64
    ensures var state: Block := LoadWords(input);
            FeedBack(state, LoadWords(Salsa20Core(input, constants))) == Mix(state)
  {
    var state: Block := LoadWords(input);
    LoadStoreWords(FeedForward(state, Mix(state)));
    FeedBackOfFeedForward(state, Mix(state));
  }

  /** The constant bytes have no effect on the output. */
  lemma ConstantsIgnored(input: seq<byte>, c1: seq<byte>, c2: seq<byte>)
    requires |input| == 64 && |c1| == 64 && |c2| == 64
    ensures Salsa20Core(input, c1) == Salsa20Core(input, c2)
  {
  }

  /** The block function maps 64 zero bytes to themselves, whatever the
      constants. */
  lemma Salsa20CoreZero(input: seq<byte>, constants: seq<byte>)
    requires |input| == 64 && |constants| == 64
    requires forall k :: 0 <= k < 64 ==> input[k] == 0
    ensures Salsa20Core(input, constants) == input
  {
    LoadZeros(input);
    MixZero();
    FeedForwardZero();
    StoreLoadWords(input);
  }

  /** Zero bytes load as zero words. */
  lemma LoadZeros(input: seq<byte>)
    requires |input| == 64
    requires forall k :: 0 <= k < 64 ==> input[k] == 0
    ensures LoadWords(input) == Zero
  {
    var state: Block := LoadWords(input);
    forall i | 0 <= i < 16
      ensures state[i] == 0
    {
      LoadWordsAt(input, i);
    }
  }

  /** Adding the zero vector to itself gives the zero vector. */
  lemma FeedForwardZero()
    ensures FeedForward(Zero, Zero) == Zero
  {
  }

  /** The quarter-round applied in place to the four words at `ix`, as one
      destructuring assignment of the mixing loop. */
  method QuarterRoundInPlace(x: array<word>, ix: Indices)
    requires x.Length == 16 && ix.Valid()
    modifies x
    ensures x[..] == Apply(old(x[..]), ix)
  {
    ghost var x0: Block := x[..];
    var r := QuarterRound(x[ix.a], x[ix.b], x[ix.c], x[ix.d]);
    // The right-hand side is evaluated first, then the targets are
    // assigned left to right.
    x[ix.a] := r.a;
    assert x[..] == x0[ix.a := r.a];
    x[ix.b] := r.b;
    assert x[..] == x0[ix.a := r.a][ix.b := r.b];
    x[ix.c] := r.c;
    assert x[..] == x0[ix.a := r.a][ix.b := r.b][ix.c := r.c];
    x[ix.d] := r.d;
    assert x[..] == Put(x0, ix, r);
  }

  /** One load loop: word `i` from bytes `4i .. 4i+3`, least significant
      byte first. */
  method LoadState(bytes: seq<byte>) returns (state: array<word>)
    requires |bytes| == 64
    ensures fresh(state)
    ensures state[..] == LoadWords(bytes)
  {
    state := new word[16];
    for i := 0 to 16
      invariant forall k :: 0 <= k < i ==> state[k] == LoadWords(bytes)[k]
    {
      LoadWordsAt(bytes, i);
      state[i] := (bytes[i * 4] as word) | ((bytes[i * 4 + 1] as word) << 8)
        | ((bytes[i * 4 + 2] as word) << 16) | ((bytes[i * 4 + 3] as word) << 24);
    }
  }

  /** One iteration of the mixing loop in place: the eight quarter-rounds
      in the order written, columns first. */
  method DoubleRoundInPlace(x: array<word>)
    requires x.Length == 16
    modifies x
    ensures x[..] == DoubleRound(old(x[..]))
  {
    ghost var x0: Block := x[..];
    QuarterRoundInPlace(x, Indices(4, 8, 12, 0));
    QuarterRoundInPlace(x, Indices(9, 13, 1, 5));
    QuarterRoundInPlace(x, Indices(14, 2, 6, 10));
    QuarterRoundInPlace(x, Indices(3, 7, 11, 15));
    QuarterRoundInPlace(x, Indices(1, 6, 11, 0));
    QuarterRoundInPlace(x, Indices(12, 5, 10, 15));
    QuarterRoundInPlace(x, Indices(2, 7, 8, 13));
    QuarterRoundInPlace(x, Indices(3, 4, 9, 14));
    DoubleRoundSteps(x0);
  }

  /** The mixing loop in place. The source counts `i = 0, 2, ..., 18`; here
      `round` counts the iterations, so `i == 2 * round`. */
  method MixInPlace(x: array<word>)
    requires x.Length == 16
    modifies x
    ensures x[..] == Mix(old(x[..]))
  {
    ghost var start: Block := x[..];
    for round := 0 to MixIterations
      invariant x[..] == Iterate(DoubleRound, start, round)
    {
      IterateStep(DoubleRound, start, round);
      DoubleRoundInPlace(x);
    }
  }

  /** The store loop: the sum of word `i` of each vector, modulo 2^32, as
      output bytes `4i .. 4i+3`, least significant first. */
  method StoreSums(state: array<word>, x: array<word>) returns (output: seq<byte>)
    requires state.Length == 16 && x.Length == 16
    ensures output == StoreWords(FeedForward(state[..], x[..]))
  {
    ghost var sums := FeedForward(state[..], x[..]);
    output := [];
    for i := 0 to 16
      invariant output == StoreWords(sums[..i])
    {
      // `state[i] + x[i]` reduced modulo 2^32, as the shifts and masks
      // below reduce it.
      var result := Add(state[i], x[i]);
      assert result == sums[i];
      StoreWordsSnoc(sums[..i], sums[i]);
      assert sums[..i + 1] == sums[..i] + [sums[i]];
      output := output + [(result & 0xFF) as byte, ((result >> 8) & 0xFF) as byte,
                          ((result >> 16) & 0xFF) as byte, ((result >> 24) & 0xFF) as byte];
    }
    assert sums[..16] == sums;
  }

  /** The copy loop: a new array holding the words of `state`. */
  method CopyState(state: array<word>) returns (x: array<word>)
    ensures fresh(x)
    ensures x[..] == state[..]
  {
    x := new word[state.Length];
    for i := 0 to state.Length
      invariant forall k :: 0 <= k < i ==> x[k] == state[k]
    {
      x[i] := state[i];
    }
  }

  /** The block function written as the source writes it: the two load
      loops, a copy of the state, the mixing loop on the copy, and the store
      loop. */
  method CoreSalsa20(input: seq<byte>, constants: seq<byte>) returns (output: seq<byte>)
    requires |input| == 64 && |constants| == 64
    ensures output == Salsa20Core(input, constants)
  {
    var state := LoadState(input);
    ghost var s0: Block := state[..];
    assert s0 == LoadWords(input);
    var constantState := LoadState(constants);
    var x := CopyState(state);
    assert x[..] == s0;
    MixInPlace(x);
    assert state[..] == s0;
    output := StoreSums(state, x);
    assert output == StoreWords(FeedForward(s0, Mix(s0)));
    assert Salsa20Core(input, constants) == StoreWords(FeedForward(s0, Mix(s0)));
  }
}

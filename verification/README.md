# coreSalsa20 block function in Dafny

This project models `coreSalsa20`, the block function of the repository (`origin.js`). It takes a 64-byte input block and a 64-byte constants block and fills a 64-byte output block:

1. **Load.** The 64 input bytes are read as 16 little-endian 32-bit words, the state. The constants are loaded the same way into a second array.
2. **Copy.** The state is copied into a working vector.
3. **Mix.** The loop runs ten times. Each iteration is a double round: the quarter-round applied to four "column" quadruples, then to four "diagonal" quadruples, each written back into the vector.
4. **Feed-forward.** Each mixed word is added to the state word it started from, modulo 2^32. The 16 sums are stored little-endian as the output.

The code is labelled a Salsa20 core, but its quarter-round is neither:
- the Salsa20 quarterround of section 3 of Bernstein's Salsa20 specification;
- nor the ChaCha quarter round of section 2.1 of RFC 8439.

It xors the **rotated sum** into its target: `a += b; d ^= rotl(a, 16)`. The model follows the code. The ChaCha round rotates after the xor, `d = rotl(d ^ a, 16)`; `QuarterRounds.NotChaChaQuarterRound` proves the two differ.

The source also loads the constants and then never reads them. The model keeps this, and `Core.ConstantsIgnored` proves it.

JavaScript arithmetic is modelled as 32-bit words (`bv32`). The intermediates are doubles below 2^53 and signed or unsigned 32-bit values, and every operation in the function agrees with arithmetic modulo 2^32:
- `<<`, `>>`, `>>>`, `^`, `|` and `&` reduce their operands modulo 2^32;
- `Uint32Array` stores wrap.

Modules, one per part of the function:
- `Words`: bytes, words, the little-endian load and store of one word and of a word sequence, and the rotation helper `q`.
- `QuarterRounds`: the quarter-round `round`, its explicit inverse, and the reference ChaCha round.
- `Iteration`: n-fold iteration of a function, with its induction facts.
- `Rounds`: the 16-word vector, one destructuring assignment (`Apply`), the column and diagonal groups, the double round, and the ten-iteration mixing loop (`Mix`), each with its inverse.
- `Core`: the feed-forward, the whole function `Salsa20Core`, and `CoreSalsa20`. `CoreSalsa20` is a method on arrays that follows the source loop by loop and is proved equal to `Salsa20Core`.

## Model

| member | source | states |
|---|---|---|
| `Words.LoadWordBytes` | origin.js:45 | byte k of the word loaded from four bytes (shift right 8k, mask 0xFF) is the k-th byte: the load puts byte 0 in the low bits |
| `Words.LoadStoreWord` | origin.js:82-85 | loading the four bytes stored for a word gives the word back |
| `Words.StoreLoadWord` | origin.js:45 | storing the word loaded from four bytes gives the same four bytes back |
| `Words.RotlIsRotation` | origin.js:59 | for distances 16, 12, 8 and 7, `q` (shift left or'ed with logical shift right by 32 - n) is the 32-bit left rotation |
| `Words.RotlUndo` | origin.js:59 | for each distance n the quarter-round uses, rotating by n and then by 32 - n restores the word |
| `Words.StoreWordsAt` | origin.js:82-85 | bytes 4i to 4i+3 of a stored word sequence are the little-endian encoding of word i |
| `Words.StoreWordsSnoc` | origin.js:80-85 | storing one more word appends exactly its four bytes, as each store-loop iteration does |
| `Words.LoadWordsAt` | origin.js:44-46 | loaded word i is built from bytes 4i to 4i+3, least significant first |
| `Words.StoreLoadWords` | origin.js:44-46 | storing the loaded words reproduces the bytes: loading loses nothing |
| `Words.LoadStoreWords` | origin.js:80-85 | loading the stored bytes reproduces the words: storing loses nothing |
| `QuarterRounds.QuarterRoundInverse` | origin.js:61-67 | the explicit inverse (each line undone in reverse order) returns the quarter-round's four arguments, so the quarter-round is injective |
| `QuarterRounds.QuarterRoundSurjective` | origin.js:61-67 | every four words are the quarter-round of the inverse's result; with the previous row, the quarter-round is a bijection on four words |
| `QuarterRounds.QuarterRoundZero` | origin.js:61-67 | four zero words are a fixed point of the quarter-round |
| `QuarterRounds.NotChaChaQuarterRound` | origin.js:62-65 | xoring the rotated sum differs from the RFC 8439 rotate-after-xor round, shown on the input (1, 0, 0, 1) |
| `Rounds.GroupsArePartitions` | origin.js:69-77 | the column group and the diagonal group each touch every one of the 16 indices exactly once, and each call has four distinct indices |
| `Rounds.ColumnsArePartition` | origin.js:69-72 | the four column quadruples are disjoint, each has distinct indices, and together they cover 0..15 |
| `Rounds.DiagonalsArePartition` | origin.js:74-77 | the four diagonal quadruples are disjoint, each has distinct indices, and together they cover 0..15 |
| `Rounds.PutEffect` | origin.js:69-77 | writing four words back to a quadruple leaves the other words unchanged and, at distinct indices, leaves exactly those four words |
| `Rounds.PutPut` | origin.js:69-77 | a second write to the same quadruple overwrites the first completely |
| `Rounds.ApplyEffect` | origin.js:69-77 | one destructuring assignment leaves the 12 other words unchanged and writes the quarter-round of the four words it read to its four indices |
| `Rounds.ApplyInverseEffect` | origin.js:69-77 | the inverse assignment has the same frame and writes the inverse quarter-round |
| `Rounds.ApplyInverseOfApply` | origin.js:69-77 | applying the inverse at the same distinct indices restores the whole vector |
| `Rounds.ApplyOfApplyInverse` | origin.js:69-77 | applying the assignment after its inverse restores the whole vector |
| `Rounds.ApplyGroupFrame` | origin.js:69-72 | a group of assignments leaves every word that none of its quadruples touches unchanged |
| `Rounds.ApplyGroupIsParallel` | origin.js:69-72 | in a group of pairwise disjoint quadruples, each quadruple ends up holding the quarter-round of its words as they were before the group, so the sequential order does not matter |
| `Rounds.ApplyGroupInverseOfApplyGroup` | origin.js:69-77 | the inverse assignments in reverse order undo a group |
| `Rounds.ApplyGroupOfApplyGroupInverse` | origin.js:69-77 | a group undoes its reverse-order inverse |
| `Rounds.DoubleRoundSteps` | origin.js:69-77 | the double round is the eight assignments in the order written: the four columns, then the four diagonals |
| `Rounds.DoubleRoundBijective` | origin.js:69-77 | the inverse double round undoes the double round and the double round undoes it: one loop iteration is a permutation of the 16-word vectors |
| `Rounds.InverseMixOfMix` | origin.js:58-78 | ten inverse double rounds undo the mixing loop |
| `Rounds.MixOfInverseMix` | origin.js:58-78 | every vector is the result of the mixing loop on some vector, so the loop is a permutation |
| `Rounds.DoubleRoundZero` | origin.js:69-77 | the zero vector is a fixed point of one loop iteration |
| `Rounds.MixZero` | origin.js:58-78 | the zero vector is a fixed point of the whole mixing loop |
| `Iteration.IterateInverse` | origin.js:58 | if g undoes f, then n applications of g undo n applications of f; with the one-iteration fact this is the loop's inverse |
| `Core.FeedBackOfFeedForward` | origin.js:81 | subtracting the state words from the feed-forward's sums gives back the mixed words: knowing the state, the addition loses nothing |
| `Core.Salsa20Core` | origin.js:42-87 | the output is exactly 64 bytes |
| `Core.OutputWords` | origin.js:80-85 | input word i is the little-endian word of input bytes 4i to 4i+3, and output bytes 4i to 4i+3 encode that word plus mixed word i, modulo 2^32 |
| `Core.RecoverMixed` | origin.js:80-85 | the output words minus the input words are the mixing loop's result: the store and the feed-forward lose nothing |
| `Core.ConstantsIgnored` | origin.js:48-51 | two calls with the same input and different constants give identical output, because the loaded constants are never read |
| `Core.Salsa20CoreZero` | origin.js:42-87 | 64 zero input bytes give 64 zero output bytes, whatever the constants |
| `Core.QuarterRoundInPlace` | origin.js:69-77 | one destructuring assignment on the array, with the round evaluated first and the four targets then assigned left to right, leaves `Apply` of its old contents, for any four valid indices |
| `Core.LoadState` | origin.js:43-46 | the load loop fills a new 16-word array with the little-endian words of the bytes |
| `Core.CopyState` | origin.js:53-56 | the copy loop gives a new array equal to the state |
| `Core.DoubleRoundInPlace` | origin.js:69-77 | the eight assignments of the loop body, in place, compute the double round |
| `Core.MixInPlace` | origin.js:58-78 | the loop leaves the array holding the mixing loop's result on its starting contents |
| `Core.StoreSums` | origin.js:80-85 | the store loop's bytes are the little-endian encoding of the word-wise sums of the two arrays modulo 2^32 |
| `Core.CoreSalsa20` | origin.js:42-87 | the source's sequence of loops (load input, load constants, copy, mix, store) returns exactly `Salsa20Core` of its inputs |

## Left out

- The module-interop helpers `setFunctionName`, `dynamicRequire`, `mergeObjects` and `createAndMerge` (origin.js:1-39) are left out. They are JavaScript reflection and `require` plumbing that the block function does not use.
- The `fetch` listener and `handleRequest` (origin.js:91-110) are left out. They are HTTP, `Response` and console I/O.
- Calls with short buffers are not modelled. The sample call passes a 16-byte input, so JavaScript reads `undefined` past the end and treats it as 0. A short output buffer silently drops writes. The model requires exactly 64 input bytes and 64 constant bytes. A longer input behaves as its first 64 bytes, since the load loop reads only bytes 0 to 63. The constants are loaded and never read, so a constants buffer of any length gives the same output; requiring exactly 64 constant bytes is a modelling choice.
- Array elements outside 0..255 are not modelled. The model takes bytes as `bv8`. A JavaScript caller may pass arbitrary numbers, which the load would or together.
- The JavaScript number representation is not modelled. This covers doubles, signed 32-bit results of `^` and `|`, and `Uint32Array` coercions. Words are their residues modulo 2^32; every operation of the function agrees with that arithmetic, and no intermediate reaches 2^53.
- Core.CoreSalsa20: returns the 64 output bytes as a sequence instead of writing them into a caller-owned buffer. Elements of a longer buffer beyond index 63 are not described.
- Core.MixInPlace: counts iterations with `round = 0 .. 9` where the source counts `i = 0, 2, .., 18`. The body does not read the counter, so only the number of iterations matters.
- Known-answer outputs are not stated. No expected output is recorded for this variant, and published Salsa20 and ChaCha vectors do not apply to it. Only the all-zero case is proved.
- Avalanche and other statistical or security claims are left out. They are not properties of the code that can be proved.

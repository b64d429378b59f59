# Formal model of the CredaCash libraries

This Dafny project models the computational heart of the CredaCash libraries
(`cclib` and `cccommon`) and proves what the code is for. Loops of the C++ code
are methods with loops, objects whose methods update them are classes, buffers
changed in place are arrays; machine words are integers with the wrap-around
written out. Each method is proved against a specification function, and the
theorems are about those functions, for all inputs, all runs, or all reachable
states.

    dafny verify dfyconfig.toml

| files | what they cover |
|---|---|
| `RangeArith`, `RangeCoder`, `RangeRoundTrip`, `RangePhantoms` | the carry-less range coder as functions on symbol indexes; decoding inverts encoding; length bounds; what happens past the end of the input |
| `AlphaCodec` | `cc_alpha_encode` and `cc_alpha_decode` as loops on 64-bit registers that refine those functions |
| `Encodings`, `Alphabets`, `BestEncoding`, `ShortestEncoding`, `SelectorNine` | the concrete tables and their alphabets, truncation search, table selection, the length nibble, exactly which encoding is emitted, why selector 9 is never emitted below 65536 bytes, and what happens beyond |
| `Limbs`, `BaseN`, `Payspec`, `MasterSecret`, `AcceptedStrings` | limb shifts in place; base-N printing and parsing; payspec and master secret strings, and exactly which are accepted |
| `Numeral`, `NumberParser`, `NumberTexts`, `NumberReadings`, `NumberGrammar` | what a number text denotes, the parser's loops, the texts it reads and as what, and the documented format |
| `NodeHash`, `HashFormula`, `HashCircuit`, `HashWitness`, `HashResults` | the knapsack hash as it computes values, as a formula, and as it emits constraints; exactly which results the constraints admit |
| `MerklePath`, `MerkleCircuit`, `EnforcedHash`, `OutputPad` | the in-place tree generator and folding a path; the rules that the proof code builds from the hash, and exactly what they admit |
| `Field`, `Circuit`, `BitGadgets`, `MaskedOutput`, `AmountCircuit`, `TxCircuit`, `SecretsRule`, `AssetBalance`, `TxAssets`, `TxAmounts`, `TxComplete` | the constraints that the proof code emits, what any satisfying witness obeys, and when there is one |
| `SmartBuf`, `SmartBufHandles` | reference-counted buffers with recursive release, and the handle operations |
| `SpinLock`, `BufferRace` | the re-entrant lock, and the reference count of one buffer, as interleaved atomic steps |
| `UniFloats` | software floats: multiplication and division with directed rounding, against exact real values |
| `SignedAmount`, `ValueMap`, `XpayWire` | order-preserving packing, the exponential value map, payment claims on the wire |
| `Arith`, `Bytes`, `Options` | integer arithmetic, machine words, optional values |

How the model reads the code:

- Bit operations are arithmetic: `(v & CC_ENC_LOWER) << 8 | 255` is
  `v % 2^48 * 256 + 255`, top bytes agree when the quotients by 2^48 do, and an
  `|` of words without a common bit is a sum.
- The range coder's loop runs, after a forced flush has begun, with `hval` below
  `lval`. `AlphaCodec.RawFlush` is that loop; the specification `Flush` has the
  two cases it amounts to, and `RawFlushIsFlush` proves them equal.
- Parameters of the model: the checksum and hash functions (siphash, the hash
  bases), random siblings, the old-table flag, the result of `malloc`, the field's
  prime (a hypothesis, from which the absence of zero divisors is derived), the
  exponential table (non-decreasing is the hypothesis).
- The constraint system is a list of expressions that have to be zero in the
  field. The variables that the C++ code introduces for intermediate products are
  expanded into the expressions; new bits and remainders are variables.
- Reference counting keeps, as history, the multiset of owning references outside
  the slots, the buffers whose release is under way, and every address freed.
- In the spin lock one step is one access to an atomic field; who set the inner
  flag is a history note. A thread unlocks only what it has locked, and nests
  fewer than 2^32 locks.
- In `BufferRace` one step is one access to a buffer's count or to one of its guard
  words. Every thread has handles of its own, which it can copy, drop, or pass on.

Where the code and its documentation differ, the code is modelled, and the
condition under which it keeps the documented promise is proved:

- Slot 9 of the decode tables (`encode.cpp:567-568`) holds the bin table. Below
  65536 bytes selector 9 is never emitted; beyond it can be, and what was encoded
  comes back if and only if its selector is not 9 (`SelectorNine.DecodesIff`,
  `FailingInput`).
- The number parser accepts a decimal point without digits, where its format asks
  for a digit: an accepted text is in the documented format if and only if it is
  hex or its mantissa is more than a point (`NumberGrammar.AcceptedIsDocumented`).
  It limits exponents to 24 bits, which the format does not mention
  (`DocumentedIsAccepted`, `LargeExponent`).
- `UniFloat` rounds the absolute value: a directed product or quotient is on the
  side asked for if and only if the operands' signs do not differ or nothing is
  rounded off (`UniFloats.ProductSideIff`, `QuotientSideIff`).
- Asked for the nearest quotient, `UniFloat::Divide` adds `(x.mant + 1) / 2`, half a unit
  too much for an odd divisor: the quotient of the mantissas is the nearest if and only if
  the divisor is even or the remainder is not the one just below its middle
  (`UniFloats.NearestIff`).
- Bits extracted without a remainder are called the bits of the value. They are if
  and only if 2^n is at most p more than the value; 254 bits of a small value have a
  second spelling (`BitGadgets.DeterminedIff`).
- A hash in the circuit of fewer than 254 bits is cut with a remainder that nothing
  bounds. Its result can be every field element of so many bits and no other,
  whatever the inputs are (`HashResults.NarrowIff`). So the rule for `M_address`, 128
  bits (`CCproof.cpp:1501-1511`), can be satisfied for exactly the public values of 128
  bits (`EnforcedHash.NarrowRuleIff`); and the one-time pad, 104 bits
  (`CCproof.cpp:1437-1456`), is the witness's choice: an enforced field can be published
  as the value encrypted with any bits under its mask (`OutputPad.PadsIff`,
  `PublishedIff`).
- A hash of 254 bits can only be the hash of its inputs if and only if the sum before the
  last knapsack has no second spelling in 254 bits, or one with the same last knapsack
  (`HashResults.DeterminedHashIff`). The rule for Merkle paths admits exactly the roots
  to which some spelling of every value on the way leads (`MerkleCircuit.CheckIff`); a
  root other than the path's own is among them whenever the topmost sum has a second
  spelling with another last knapsack (`OtherRoot`).
- The parameters of a value map are said to be those with which the largest code decodes
  to the largest value; the search stops at the first that decode to no more
  (`ValueMap.FindUnityIndex`), and parameters that are given are not checked. What the
  code's own check of a map asserts of rounding up holds if and only if the largest code
  decodes to at least the largest value, of rounding down if and only if to at most that
  (`RoundsUpIff`, `RoundsDownIff`).

## Model

| member | source | states |
|---|---|---|
| RangeRoundTrip.RoundTrip | source/cclib/src/encode.cpp:343-502 | For every alphabet of 2 to 255 symbols and every symbol string, forced flushes included, decoding the encoder's bytes with the same symbol count gives the string, and the decoder has then consumed exactly the encoder's bytes: no phantom 128, none left over |
| RangeArith.SymbolUnique | source/cclib/src/encode.cpp:482-492 | The symbol read off at d is the one and only symbol whose rounded-up sub-interval holds d (both directions) |
| RangeArith.NarrowNests | source/cclib/src/encode.cpp:384-387 | Narrowing to a symbol gives a non-empty interval inside the old one and strictly smaller; the encoder's termination on phantom symbols rests on it |
| RangeCoder.WindowFollows | source/cclib/src/encode.cpp:459-475 | For arbitrary input bytes the byte-shifting loop keeps lval <= dval <= hval |
| RangeCoder.SymbolInRange | source/cclib/src/encode.cpp:477-486 | With the window inside the registers the symbol is below mod and the window is inside its sub-interval: both range-error branches are unreachable |
| RangeCoder.Tail | source/cclib/src/encode.cpp:376-417 | Past the end of the input exactly the bytes still missing are emitted, seven after the last real symbol, for every pair of registers; terminating although phantom symbols may emit nothing |
| RangeRoundTrip.EncodingMeets | source/cclib/src/encode.cpp:374-418 | Read as a 56-bit number, the next seven bytes of an encoding lie in the sub-interval of its first symbol, whatever follows |
| RangeRoundTrip.LengthAtMost | source/cclib/src/encode.cpp:343-423 | An encoding has at least seven bytes and at most six more than the input has symbols |
| RangeRoundTrip.LengthAtLeast224 | source/cclib/src/encode.cpp:374-418 | With 224 symbols every seven symbols cost at least one byte |
| RangePhantoms.NarrowIs | source/cclib/src/encode.cpp:384-387 | The lower bound of a symbol's sub-interval is the exact fraction of the interval, rounded up, by two inequalities without a quotient; the upper bound is one below the next symbol's lower bound |
| RangePhantoms.FlushIs | source/cclib/src/encode.cpp:393-417 | The byte-emitting loop in closed form: every leading byte in which the registers agree, and no more; and then, if fewer than mod values are left, the seven bytes of the lower register and the full range |
| RangePhantoms.EncodingGoesOn | source/cclib/src/encode.cpp:376-383 | What is written past the end of the input is what symbols mod / 2 would have given: an encoding is a prefix of the encoding of the string extended by any number of them |
| RangePhantoms.DecodingGoesOn | source/cclib/src/encode.cpp:459-467 | What is read past the end of the input is 128: any number of bytes 128 behind any input change nothing |
| AlphaCodec.ForcedFlush | source/cclib/src/encode.cpp:393-417 | A pair astride a byte boundary with fewer than mod values left makes the loop run exactly seven times, through rounds with hval below lval: it emits the seven bytes of lval and ends with the full range |
| AlphaCodec.RawFlushIsFlush | source/cclib/src/encode.cpp:393-417 | The masking loop as the code runs it computes the two-case flush of the specification, in at most seven rounds, from every interval |
| AlphaCodec.Narrow64 | source/cclib/src/encode.cpp:384-387 | In wrapping 64-bit arithmetic the new registers are the exact sub-interval: no product or sum wraps |
| AlphaCodec.Symbol64 | source/cclib/src/encode.cpp:482-483 | In wrapping 64-bit arithmetic the symbol is the exact quotient and is below mod |
| AlphaCodec.ShiftOut | source/cclib/src/encode.cpp:393-417 | The byte-emitting loop on 64-bit registers appends exactly the flushed bytes and leaves the flushed registers; past the end of the input it stops when eofm says that seven bytes are out, and not before |
| AlphaCodec.ShiftIn | source/cclib/src/encode.cpp:459-475 | The byte-reading loop of the decoder mirrors the encoder's flush and keeps dval equal to the last seven input bytes |
| AlphaCodec.CcAlphaEncode | source/cclib/src/encode.cpp:343-423 | Fails exactly on a char outside the alphabet; otherwise appends the range coder's bytes (a copy, with 256 symbols) |
| AlphaCodec.CcAlphaDecode | source/cclib/src/encode.cpp:428-502 | Appends the chars that the range decoder reads (a prefix copy, with 256 symbols), for arbitrary bytes and counts; its own range checks are proved never to fire |
| AlphaCodec.CharsRoundTrip | source/cclib/src/encode.cpp:343-502 | Decoding with the inverse table gives back every string over the alphabet |
| AlphaCodec.CharsCanBeEncoded | source/cclib/src/encode.cpp:145-179 | With inverse tables the encoder accepts every string of table symbols, and looks up the indexes it was made from |
| Encodings.SlotInverse | source/cclib/src/encode.cpp:567-568 | Every range-coded slot but slot 9 has a bin and a sym table that undo each other (the concrete tables) |
| Alphabets.Alphabets | source/cclib/src/encodings.c:22-43 | Each slot's table accepts just the chars that the introduction names for its base, every one of the 256 bytes considered, and their indexes follow the codes, except that letters come before digits in base 32, 32z and 66, and the signs of base 38 and 66 last |
| Alphabets.Base57Alphabet | source/cclib/src/encodings.c:36-36 | Base 57 has the chars of base 58 without the digit 1 |
| Alphabets.Base57Order | source/cclib/src/encodings.c:115-119 | and another order: the digits come behind the letters |
| Encodings.Slot9Mismatch | source/cclib/src/encode.cpp:567-568 | Slot 9 uses the bin table twice: with its own sym table it would be an inverse pair, as it is every char comes out 32 too low |
| BestEncoding.BestRoundTrip | source/cclib/src/encode.cpp:571-666 | Every byte string shorter than 65536 is encoded, never with selector 9, and decoded to itself under the old and the new table mapping |
| BestEncoding.ShortEncodingDecodes | source/cclib/src/encode.cpp:571-666 | Beyond 65536 bytes: whatever is encoded in at most 8192 bytes is decoded to itself, because selector 9 yields nothing so short |
| BestEncoding.SlotRoundTrip | source/cclib/src/encode.cpp:586-612 | Whatever is emitted with a selector other than 9 decodes to the input: the nibble holds the exact length difference although the product wraps at 32 bits |
| BestEncoding.Slot9NeverDecodes | source/cclib/src/encode.cpp:538-558 | No non-empty prefix of a slot 9 encoding decodes to the input through slot 9's tables, so it is never truncated |
| BestEncoding.Slot9NeverChosen | source/cclib/src/encode.cpp:582-613 | Below 65536 bytes the length difference of an untruncated slot 9 encoding never fits the nibble, so selector 9 is never emitted |
| SelectorNine.DecodesIff | source/cclib/src/encode.cpp:571-666 | For every byte string that an int can count and that is encoded: decoding gives it back, under the old and the new table mapping, if and only if the selector in the first byte is not 9 |
| SelectorNine.Slot9Loses | source/cclib/src/encode.cpp:630-666 | Whatever is emitted with selector 9 does not decode to the data: the new mapping subtracts 32 from every char, the old one copies fewer bytes than there are chars |
| SelectorNine.FailingInput | source/cclib/src/encode.cpp:571-618 | 77365 bytes of 255 are such an input: every slot below 9 refuses them, and slot 9 gives 75507 or 75508 bytes, both of which fit the nibble |
| SelectorNine.LengthOfLast | source/cclib/src/encode.cpp:374-418 | A string of n symbols 223 out of 224 is encoded in 7 + e bytes, where 224^(n-1) is at most 256^(e+1) and at least 256^e, less one part in 2^40 for each symbol |
| BestEncoding.LastSlotWorks | source/cclib/src/encode.cpp:582-613 | The 256-symbol slot accepts every string below 65536 bytes and copies it behind the header byte 169 |
| BestEncoding.BestLength | source/cclib/src/encode.cpp:571-618 | A result is at most seven bytes longer than the data |
| BestEncoding.CcAlphaEncodeShortest | source/cclib/src/encode.cpp:526-565 | The truncation search returns the prefix that the specified search finds, which is the shortest one in the sense of ShortestEncoding.KeptIsShortest; fails exactly on a char outside the alphabet |
| BestEncoding.CcAlphaEncodeBest | source/cclib/src/encode.cpp:571-618 | Returns the first slot's result that decodes and fits the length nibble, or -1 and nothing; never fails below 65536 bytes |
| ShortestEncoding.BestIff | source/cclib/src/encode.cpp:526-618 | Exactly what is emitted, without reference to the search: the first slot that has all the chars and whose shortest prefix fits the length nibble; nothing if there is none. A shortest prefix is one that decodes, or is the whole encoding; every shorter one that fits the nibble is barred by one, between the two, that fits and does not decode |
| ShortestEncoding.ShortestUnique | source/cclib/src/encode.cpp:526-565 | Only one length has that property |
| ShortestEncoding.WholeDecodes | source/cclib/src/encode.cpp:526-565 | The whole encoding decodes in every slot but slot 9, in which nothing does |
| ShortestEncoding.KeptIsShortest | source/cclib/src/encode.cpp:526-565 | The search loop keeps that length, in every slot |
| BestEncoding.CcAlphaDecodeBest | source/cclib/src/encode.cpp:630-666 | The header byte, the old mapping, the unknown-selector error and the negative-length case, for arbitrary bytes |
| BestEncoding.DecodedLength | source/cclib/src/encode.cpp:630-666 | Arbitrary bytes: refused exactly if the first is 176 or more, with the output as it was; otherwise the number of chars follows from the first byte and the length, with the size ratio of the slot that the byte names (16 higher under the old mapping, if it names slot 9), and slot 10 gives the bytes themselves |
| BaseN.PrintedParses | source/cclib/src/encode.cpp:223-322 | cc_destringify, given the width, inverts cc_stringify for every alphabet, limit and 256-bit value, in fixed, full and variable width, with and without the shift digit, zero included, and leaves the rest of the input |
| BaseN.PrintedParsesToSeparator | source/cclib/src/encode.cpp:223-322 | The same without a width, when a separator outside the alphabet follows |
| BaseN.ComputeShift | source/cclib/src/encode.cpp:181-200 | Shifts out all trailing zero bits, or mod - 1 of them if there are more, from val and as many from maxval |
| BaseN.ShiftIsExact | source/cclib/src/encode.cpp:181-200 | The shift loses no set bit: shifting back gives the value |
| BaseN.ShiftIsMaximal | source/cclib/src/encode.cpp:181-200 | Unless the limit is reached, what is left after the shift is odd |
| BaseN.DigitsStandFor | source/cclib/src/encode.cpp:248-261 | The digits stand for the value; cut to nchars digits, for the value modulo mod^nchars |
| BaseN.Width | source/cclib/src/encode.cpp:248-261 | Full width prints as many digits as the limit has, a fixed width exactly nchars |
| BaseN.VariableWidth | source/cclib/src/encode.cpp:248-261 | A negative width prints no zero behind the last digit that counts |
| BaseN.PrintedShift | source/cclib/src/encode.cpp:181-262 | With a shift char the string is the symbol of k and the digits of an odd number that makes up the value with 2^k, or of any number if k is the largest symbol |
| BaseN.CharsSpell | source/cclib/src/encode.cpp:307-317 | Parsing the symbols of digits gives their value: the 256-bit multiplications and additions do not wrap when the value fits |
| BaseN.CcStringify | source/cclib/src/encode.cpp:223-262 | Appends the shift digit, if asked for, and the digits; a limit of 0 stands for the largest 256-bit number |
| BaseN.CcDestringify | source/cclib/src/encode.cpp:266-322 | Takes the first field off the input, with 32-bit width arithmetic; the errors for missing input and invalid chars |
| Payspec.SpecRoundTrip | source/cclib/src/payspec.cpp:604-725 | Printing and parsing a payspec: every destination in the field and optional 40-bit amount come back, and the checksum is accepted, whatever the checksum function |
| Payspec.DestWidth | source/cclib/src/payspec.cpp:688-688 | A field of 254 bits takes 44 base-57 digits, the width that the parser hard-codes |
| Payspec.Base57Tables | source/cclib/src/encodings.c:115-119 | The base-57 tables undo each other and contain neither separator |
| Payspec.PayspecFromJson | source/cclib/src/payspec.cpp:604-619 | Writes the printed payspec for a destination and optional amount |
| Payspec.PayspecToJson | source/cclib/src/payspec.cpp:655-725 | Parses any byte string: length, type, fields, amount overflow, separators and checksum, each with its error; AcceptedStrings.PayspecIff says which strings pass |
| AcceptedStrings.PayspecIff | source/cclib/src/payspec.cpp:655-726 | Exactly which strings are accepted, and as what: the prefix CC0, 44 chars that spell the destination modulo 2^256, no amount or a shifted number below 2^40, two separators, and five chars that spell the checksum of all before them modulo 57^5; then anything |
| AcceptedStrings.WrongChecksum | source/cclib/src/payspec.cpp:718-726 | With any other five chars in the place of its checksum, a payspec is refused as a checksum mismatch |
| MasterSecret.MasterSecretRoundTrip | source/cclib/src/payspec.cpp:242-415 | Every 256-bit salt, memory size and number of units in a master secret string is parsed back, with ten iterations for each unit as long as 64 bits hold them, and the checksum is accepted, whatever the checksum function |
| MasterSecret.SaltWidth | source/cclib/src/payspec.cpp:383-383 | A 256-bit salt takes 44 base-57 digits, the width that the parser hard-codes |
| MasterSecret.GenerateMasterSecret | source/cclib/src/payspec.cpp:259-280 | Prints the string, with the iterations rounded up to units of ten if that fits 64 bits, and with 0 units if it wraps |
| MasterSecret.ComputeMasterSecretParams | source/cclib/src/payspec.cpp:370-415 | Parses any byte string: length, prefix, fields, separator and checksum, each with its error; the iterations are the units times ten in 64-bit arithmetic |
| AcceptedStrings.MasterSecretIff | source/cclib/src/payspec.cpp:370-415 | Exactly which strings are accepted, and as what: the prefix CCMS, 44 chars that spell the salt modulo 2^256, a shifted number whose low 64 bits are the memory, a separator, a number whose low 64 bits are the units, and at the very end five chars that spell the checksum of all before them |
| MerklePath.FoldReachesRoot | source/cclib/src/payspec.cpp:936-944 | From 2^k leaves, k at most the depth, folding any leaf with its generated path ends at the root, from every level on |
| MerklePath.GenerateTree | source/cclib/src/payspec.cpp:891-945 | The in-place generator fills tree and path columns with the specified tree, random siblings included, and its final root assertion holds for every leaf |
| MerklePath.RecordSiblings | source/cclib/src/payspec.cpp:919-924 | (i >> j) ^ 1 is the sibling of leaf i's ancestor at level j, and is in range |
| MerklePath.HashPairs | source/cclib/src/payspec.cpp:926-931 | Hashes each pair of a level into the next level and changes nothing else |
| MerklePath.Merkle | source/cclib/src/zkhash.hpp:644-679 | The folding loop returns the top of the path |
| MerklePath.NodeIsSymmetric | source/cclib/src/transaction.cpp:4392-4403 | The node hash does not depend on which child is left: there is no prfkey for the Merkle basis |
| NodeHash.KeylessHashIgnoresOrder | source/cclib/src/zkhash.hpp:585-635 | Without a prfkey any permutation of the inputs has the same hash |
| NodeHash.Knapsack1 | source/cclib/src/zkhash.hpp:474-528 | As values: the knapsack is the sum of the selected bases in the field, and the base counter advances only with a prfkey |
| NodeHash.HashFinish | source/cclib/src/zkhash.hpp:540-583 | As values: eight Diophantine rounds, the optional final knapsack, and the cut to outbits |
| NodeHash.Hash | source/cclib/src/zkhash.hpp:585-635 | As values: the accumulating loop computes the hash from the two totals over all inputs, reduced once |
| NodeHash.ExtractBits | source/cclib/src/zkhash.hpp:430-443 | The bits of a value, lowest first, and what is above them |
| HashFormula.HashIs | source/cclib/src/zkhash.hpp:430-635 | The hash as a formula, for any inputs and key: bit i of a value selects the base 256 + i without a key, and with one 256 + (first + counter + i) % 2048 or, in the second knapsack, 256 + siphash(counter + i) % 2048, where the counter grows by two for each bit of the inputs before; eight rounds of x^2 + x + 1 and of y^2 - y + 1 are added to both totals; the low 2 * outbits, or 254, bits of that are hashed once more unless skipped; and what is not of 254 bits is cut |
| HashFormula.FoldIs | source/cclib/src/zkhash.hpp:644-679 | Each value of a folded path is the keyless hash of 254 bits each of the value below and of the path's value, the last step being skipped except at the top |
| HashFormula.PathIs | source/cclib/src/payspec.cpp:919-924 | A leaf's path holds at each level the node that has the same half as its ancestor and is another one, or the random value beside the only node |
| HashFormula.NodeIs | source/cclib/src/payspec.cpp:926-934 | Every inner node of the generated tree is the hash of its two children, the root with the last step |
| HashCircuit.Knapsack1 | source/cclib/src/zkhash.hpp:474-528 | In the circuit: a new variable, and the constraint that the bits weighted with their bases add up to it |
| HashCircuit.Hash | source/cclib/src/zkhash.hpp:585-635 | In the circuit: bits and two knapsacks for every input, given as value or as bits, the Diophantine rounds as expressions, the final knapsack and the cut; exactly the specified constraints and variables |
| HashCircuit.HashSound | source/cclib/src/zkhash.hpp:540-635 | A helper of HashResults.AdmittedIff: any satisfying witness's result is one that the hash steps have on the numbers that its bits spell, with the remainders that the witness chooses. By itself it does not tie a result of fewer than 254 bits to the inputs (NarrowIff) |
| HashCircuit.FullWidth | source/cclib/src/zkhash.hpp:540-583 | With 254 output bits, as for Merkle nodes, the result is the hash of the spelled numbers if the sum before the final knapsack has no second spelling in 254 bits; the exact condition is DeterminedHashIff |
| HashWitness.ResultComplete | source/cclib/src/zkhash.hpp:402-635 | Every result that the hash steps can have, with any spelling of the inputs and any remainders of the cuts, is that of a satisfying witness |
| HashResults.AdmittedIff | source/cclib/src/zkhash.hpp:402-635 | The constraints of a hash admit exactly the results that the hash steps can have with some spelling of the inputs and some remainders of the cuts |
| HashResults.NarrowIff | source/cclib/src/zkhash.hpp:566-582 | In a field of at most 254 bits, with fewer than 254 output bits and whatever the inputs, the constraints admit exactly the field elements of so many bits as results: the result is not tied to the inputs |
| HashResults.DeterminedHashIff | source/cclib/src/zkhash.hpp:540-583 | With inputs that have one spelling: every satisfying witness has the hash as its result if and only if the result has no bit at all, or all 254 and the last knapsack is skipped or the sum before it has no second spelling in 254 bits, or one with the same last knapsack |
| HashResults.FullAdmittedIff | source/cclib/src/zkhash.hpp:540-583 | With such inputs and 254 bits, the constraints admit exactly the sum, or the last knapsacks of its one or two spellings |
| HashResults.HashIsSumOrLast | source/cclib/src/zkhash.hpp:540-583 | The hash that the code computes is one of these: the one of the sum itself |
| HashResults.HashComplete | source/cclib/src/zkhash.hpp:402-635 | Whatever the inputs' values, unmasked ones within their bits, the values that the code computes for the new variables satisfy everything the hash emits, and the result is the hash of the inputs |
| EnforcedHash.CheckHash | source/cclib/src/CCproof.cpp:1501-1511 | What a rule emits that ties a public value to a hash: the hash, and (hash - public) * enforce = 0 |
| EnforcedHash.NarrowRuleIff | source/cclib/src/CCproof.cpp:1501-1511 | With fewer than 254 bits, as for addresses, the rule can be satisfied exactly when it is not enforced or the public value has so few bits, whatever is hashed |
| EnforcedHash.WideRuleIff | source/cclib/src/CCproof.cpp:1513-1527 | With 254 bits, as for commitments and serial numbers, and inputs with one spelling: exactly when it is not enforced or the public value is the last knapsack of a spelling of the hash's sum |
| MerkleCircuit.Merkle | source/cclib/src/zkhash.hpp:644-679 | In the circuit: the folding loop emits a hash for every level, the last knapsack only at the top |
| MerkleCircuit.CheckMerkle | source/cclib/src/CCproof.cpp:1887-1900 | What is emitted for an input with a path: the leaf, the path, and (top - root) * enforce = 0 |
| MerkleCircuit.NodeIff | source/cclib/src/zkhash.hpp:585-635 | The hash of two values admits exactly the hashes of their spellings in 254 bits: one or two of each value, and of the sum at the top |
| MerkleCircuit.MerkleIff | source/cclib/src/zkhash.hpp:644-679 | For paths of any length, the constraints admit exactly the tops to which such hashes lead, level by level |
| MerkleCircuit.CheckIff | source/cclib/src/CCproof.cpp:1887-1900 | The check can be satisfied if and only if the path is not enforced or the public root is admitted: the fold, over some spelling at every level, of a leaf that is the hash of some spelling of the commitment's sum |
| MerkleCircuit.EnforcedPath | source/cclib/src/CCproof.cpp:1887-1900 | If nothing on the way up has a second spelling, every satisfying witness of an enforced path makes the public root the fold of the commitment's leaf along the path |
| MerkleCircuit.OtherRoot | source/cclib/src/CCproof.cpp:1887-1900 | If the topmost sum has a second spelling with another last knapsack, a root other than that fold is admitted |
| MerkleCircuit.TreeLeafPasses | source/cclib/src/payspec.cpp:936-944 | Every leaf of a generated tree, with its recorded path and the tree's root, passes the check inside the circuit |
| Field.NoZeroDivisors | source/cclib/src/CCproof.cpp:1388-1397 | In the field of a prime a product is zero only if a factor is; the selector and booleanity rules rest on it |
| Circuit.ConstraintSystem.ConstrainValue | source/cclib/src/zkhash.hpp:200-247 | Adds sum(bit * basis) + remainder * next basis = value, for any bases; with a bit-value variable sum(bit * basis) = bit value and bit value + remainder * next basis = value |
| Circuit.ConstraintSystem.ExtractBits | source/cclib/src/zkhash.hpp:402-472 | Adds new bit variables, a booleanity constraint for each, the optional remainder and bit-value variables, and the value constraints |
| Circuit.ConstraintSystem.CheckGreaterEqual | source/cclib/src/CCproof.cpp:1275-1297 | Adds the bits of a - b and the constraint that the remainder, or remainder times or_zero, is zero |
| BitGadgets.BitsMeanValue | source/cclib/src/zkhash.hpp:402-472 | A satisfying witness has bits in {0, 1} that spell the value, up to 2^n times the remainder |
| BitGadgets.BitvalMeansBits | source/cclib/src/zkhash.hpp:402-472 | With a bit-value variable, that variable is the number that the bits spell, and makes up the value with 2^n times the remainder |
| BitGadgets.BitsSpellValue | source/cclib/src/CCproof.cpp:1166-1250 | Without a remainder, the number that the bits spell is the value plus a multiple of p |
| BitGadgets.SpelledIff | source/cclib/src/CCproof.cpp:1166-1250 | The satisfying extensions spell exactly the numbers below 2^n that equal the value in the field: each of them, and no other |
| BitGadgets.DeterminedIff | source/cclib/src/CCproof.cpp:1166-1250 | The bits are determined by the value if and only if 2^n is at most p more than the value: always for the narrow fields, not for 254-bit and 256-bit extractions of small values |
| BitGadgets.BitsBoundValue | source/cclib/src/CCproof.cpp:1166-1193 | If 2^n is at most p more than the value, in particular for n of up to 253 bits, the constraints are a range check: the value is below 2^n and is spelled by the bits |
| BitGadgets.GreaterEqualIff | source/cclib/src/CCproof.cpp:1271-1297 | For operands below 2^n and 2^(n+1) <= p the constraints have a satisfying extension exactly when a >= b or the or_zero value is 0 |
| TxCircuit.CheckSecrets | source/cclib/src/CCproof.cpp:1624-1649 | What is emitted for the spend (and the trust) secrets of an input |
| TxCircuit.SecretsThreshold | source/cclib/src/CCproof.cpp:1624-1649 | A satisfying witness whose validity bit is 1 has at least the required number of slots that are both valid and used; both directions are SecretsRule.SecretsIff |
| SecretsRule.SecretsIff | source/cclib/src/CCproof.cpp:1624-1649 | The constraints have a satisfying extension if and only if every slot has a bit that is 0 or 1, the required number is below 8, and allValid is 0 or the number of valid and used slots is at least the required one |
| AssetBalance.SelectedOnce | source/cclib/src/CCproof.cpp:1381-1397 | Over the list entries that are v, the selectors of a coin add up to 1 if v is its asset and to 0 otherwise, however often v is in the list |
| AssetBalance.AssetsBalance | source/cclib/src/CCproof.cpp:1946-1961 | Selectors that obey the rules and balanced list entries conserve every asset value, listed or not |
| TxAssets.ComputeTx | source/cclib/src/CCproof.cpp:1902-1961 | The selector constraints of all outputs and inputs and the balance constraints are what the loops emit; TxConstraintsIff says exactly what they mean |
| TxAssets.TxConstraintsIff | source/cclib/src/CCproof.cpp:1902-1961 | A witness satisfies what is emitted if and only if every coin's selectors add up to one and are 0 at every list entry that is not its asset, and every list entry balances with the selected amounts |
| TxAssets.TxBalances | source/cclib/src/CCproof.cpp:1946-1961 | Any witness satisfying what is emitted conserves every asset in the field: inputs equal outputs times multiplier, plus the donation for asset 0 |
| TxAssets.TxBalancesExactly | source/cclib/src/CCproof.cpp:1946-1961 | With totals below p the integers balance |
| TxAmounts.ComputeWhole | source/cclib/src/CCproof.cpp:1902-1961 | Bits of every encoded amount, the integers built from them in the place of the encoded amounts, and the selector and balance constraints are what is emitted |
| TxAmounts.AmountsBalance | source/cclib/src/CCproof.cpp:1946-1961 | From the encoded amounts to integers: in a field of 254 bits, with 32-bit multipliers and at most 65536 inputs and outputs, any witness satisfying what is emitted makes the sums of tx_amount_decode of the encoded input and output amounts balance, for every asset; the donation can be negative |
| TxComplete.SelectableIff | source/cclib/src/CCproof.cpp:1902-1961 | Coins with selectors that obey the constraints have their assets in the list and conserve every asset; and coins that do, with one-hot selectors, obey the constraints |
| TxComplete.WholeIff | source/cclib/src/CCproof.cpp:1902-1961 | Completeness and soundness of the whole system: in a field of 254 bits, for 32-bit multipliers and at most 65536 inputs and outputs, values of the selectors, the amounts' bits and the integers exist that satisfy what is emitted if and only if the encoded amounts have 40 bits, every asset is in the list, and the integers that the amounts stand for balance, for every asset |
| MaskedOutput.CheckEncrypted | source/cclib/src/CCproof.cpp:1448-1451 | What is emitted for one encrypted field |
| MaskedOutput.EncryptionRule | source/cclib/src/CCproof.cpp:1319-1345 | A satisfying witness encrypts each bit with the masked pad bit, the pad bits spell the chosen pad, and the same exclusive or decrypts |
| MaskedOutput.EnforcedField | source/cclib/src/CCproof.cpp:1437-1451 | If enforced, what is published is value ^ (mask & pad) |
| MaskedOutput.UnenforcedField | source/cclib/src/CCproof.cpp:1430-1451 | If not enforced and fully masked, what is published is 0 whatever the value |
| OutputPad.OneTimePad | source/cclib/src/CCproof.cpp:1439-1446 | Emits the hash of 104 bits and its cut behind bit 64, with the remainder as the upper part |
| OutputPad.CheckOutput | source/cclib/src/CCproof.cpp:1436-1457 | Emits the pad and the encryption of the asset with its lower part and of the amount with its upper part |
| OutputPad.PadsIff | source/cclib/src/CCproof.cpp:1439-1446 | The two parts of the pad can be exactly those with a lower part below 2^64 that together are of 104 bits in the field: any 64 bits and any 40 bits among them, whatever is hashed |
| OutputPad.PublishedIff | source/cclib/src/CCproof.cpp:1436-1457 | The constraints of the pad and of both fields can be satisfied if and only if each published field is its value exclusive-ored with: any bits under its mask, if it is enforced; its own masked bits, if it is not. The inputs of the hash have no part in it |
| AmountCircuit.ComputeIntegerAmount | source/cclib/src/CCproof.cpp:1349-1373 | The expression that the three loops build |
| AmountCircuit.CircuitDecodes | source/cclib/src/CCproof.cpp:1349-1373 | On bits, the circuit's value is what tx_amount_decode makes of the encoded amount, for every amount |
| AmountCircuit.CircuitDecodesExactly | source/cclib/src/transaction.cpp:173-186 | In a field of more than 144 bits the circuit's value is the decoded integer itself |
| SmartBuf.IncValid | source/cccommon/src/SmartBuf.cpp:234-268 | A further reference keeps every count equal to the references that exist |
| SmartBuf.BeginFreeValid | source/cccommon/src/SmartBuf.cpp:284-318 | When the last reference goes, what the slots own passes to the release and every other count stays exact |
| SmartBuf.SwapValid | source/ccnode/src/block.cpp:86-100 | Exchanging what a slot owns keeps every count exact |
| SmartBuf.Heap.Malloc | source/cccommon/src/SmartBuf.cpp:47-112 | A new buffer has count 1 and objcount grows by one |
| SmartBuf.Heap.IncRef | source/cccommon/src/SmartBuf.cpp:234-268 | One more reference, nothing else |
| SmartBuf.Heap.DecRef | source/cccommon/src/SmartBuf.cpp:270-330 | One reference is given back; buffers that thereby lose their last reference are freed, each once, recursively; nothing outside any set of buffers that holds p and is closed under slots goes, and what stays keeps its slots; objcount stays the number of buffers; the recursion ends |
| SmartBuf.Heap.Free | source/cccommon/src/SmartBuf.cpp:284-327 | The slots are released before the memory is, and the address is never in use again |
| SmartBuf.Heap.ReleaseSlots | source/cccommon/src/SmartBuf.cpp:309-318 | Every non-null slot from 1 on gives exactly its own reference back |
| SmartBuf.Heap.ReleaseOne | source/cccommon/src/SmartBuf.cpp:313-317 | The temporary handle takes one reference and gives two back |
| SmartBuf.Heap.ExchangeSlot | source/ccnode/src/block.cpp:86-100 | The slot holds the new reference, the old one is given back, the handles' references are as before |
| SmartBufHandles.Handles.Create | source/cccommon/src/SmartBuf.cpp:47-112 | A handle of its own buffer, or an empty one for a bad size or a failed malloc; counts stay exact |
| SmartBufHandles.Handles.FromPointer | source/cccommon/src/SmartBuf.cpp:345-359 | A second handle on a live buffer; counts stay exact |
| SmartBufHandles.Handles.ClearRef | source/cccommon/src/SmartBuf.cpp:403-415 | Empties the handle; nothing outside what its buffer leads to disappears; counts stay exact |
| SmartBufHandles.Handles.Share | source/cccommon/src/SmartBuf.cpp:361-378 | Copy assignment and SetBasePtr: the handle holds the other buffer, which another handle keeps alive directly or through a path of slots; counts stay exact, self assignment does nothing |
| SmartBufHandles.Handles.MoveAssign | source/cccommon/src/SmartBuf.cpp:388-401 | The reference moves without a count changing, and the old one is given back |
| SmartBufHandles.Handles.MoveConstruct | source/cccommon/src/SmartBuf.cpp:380-386 | The reference moves without a count changing |
| SmartBufHandles.Handles.SetAuxPtrCount | source/cccommon/src/SmartBuf.cpp:200-205 | New zeroed slots own nothing |
| SmartBufHandles.Handles.SetSlot | source/ccnode/src/block.cpp:86-100 | The slot holds the buffer of the other handle; counts stay exact |
| SmartBufHandles.NothingLeaks | source/cccommon/src/SmartBuf.cpp:270-330 | With no handle left and slots that form no cycle, no buffer is left |
| SpinLock.LockIsSafe | source/cccommon/src/SpinLock.hpp:111-158 | In every interleaving no assertion of unlock fails, at most one thread is inside, and whenever the flag is free count is that thread's depth and threadid its name |
| SpinLock.StepInv | source/cccommon/src/SpinLock.hpp:111-158 | Every atomic step of every thread keeps the invariant |
| SpinLock.LockSucceeds | source/cccommon/src/SpinLock.hpp:111-142 | From every state the invariant allows, the schedule of six steps of one thread takes an admissible lock() to its end with one more level, first or nested, and leaves the other threads alone |
| SpinLock.UnlockSucceeds | source/cccommon/src/SpinLock.hpp:144-158 | The schedule of five steps of one thread takes unlock() to its end with one level less |
| SpinLock.LockBacksOff | source/cccommon/src/SpinLock.hpp:128-141 | The schedule of four steps of a thread that finds another one inside takes it back to the flag, and has changed nothing |
| SpinLock.LockUnlock | source/cccommon/src/SpinLock.hpp:111-158 | lock() and unlock() in a row, first or nested, leave the flag free and the count and all depths as they were |
| SpinLock.UnlockFailsIff | source/cccommon/src/SpinLock.hpp:144-158 | In any state with the flag free the assertions of unlock fail if and only if another thread is inside, or none |
| BufferRace.FreedOnce | source/cccommon/src/SmartBuf.cpp:234-330 | In every interleaving of threads that copy, drop and pass on references: the count is the number of references, no guard check fails, nothing touches the buffer after it was freed, and once the references are gone and no thread is on its way to free it, it has been freed exactly once |
| BufferRace.StepInv | source/cccommon/src/SmartBuf.cpp:234-330 | Every step of every thread, on the count or on a guard word, keeps the invariant |
| BufferRace.LastDropFrees | source/cccommon/src/SmartBuf.cpp:270-330 | From every state the invariant allows, a thread that drops the last reference, or is past the decrement, marks the guards and frees the buffer in the steps that its call has left |
| BufferRace.CopyAdds | source/cccommon/src/SmartBuf.cpp:234-268 | The five steps of IncRef by one thread alone add one to the count and one reference of that thread, and change nothing else |
| BufferRace.DropTakesOne | source/cccommon/src/SmartBuf.cpp:270-330 | The five steps of DecRef with one of several references take one away, and change nothing else |
| BufferRace.CopyDrop | source/cccommon/src/SmartBuf.cpp:234-330 | Both in a row leave the count, all references and the guards as they were |
| BufferRace.FailsIff | source/cccommon/src/SmartBuf.cpp:114-152 | In any state, reachable or not, a step fails if and only if its guard check finds a count out of range or a guard word gone, or the buffer has been freed |
| NumberParser.ParseIntValue | source/cclib/src/jsonutil.cpp:465-488 | Succeeds exactly for texts that denote an integer within the limit, with a mantissa below 2^256, and returns it: negative numbers in two's complement, or in the field when the limit is the field's |
| NumberParser.ParseSignedValue | source/cclib/src/jsonutil.cpp:394-463 | The sign, the limit (with the one more that negative numbers get, and the case of 256 bits), the closing L, and the choice between hex and decimal |
| NumberParser.ParseHexValue | source/cclib/src/jsonutil.cpp:238-281 | The number of the hex digits if all are hex and it is at most the limit; limits below 16, where 256-bit differences wrap, included; NumberReadings.HexReading says which number a hex text is |
| NumberParser.ParseDecValue | source/cclib/src/jsonutil.cpp:283-392 | The loop over mantissa, point and exponent returns mantissa * 10^(exponent - fraction digits) if that is an integer within the limit |
| NumberParser.TimesTenPlus | source/cclib/src/jsonutil.cpp:347-363 | The two checks before the 256-bit product and sum refuse exactly the results of 2^256 and more |
| NumberParser.ExponentIsValue | source/cclib/src/jsonutil.cpp:318-326 | The recursive call reads a signed decimal of 24 bits, without point or exponent of its own |
| NumberTexts.PointAndExponent | source/cclib/src/jsonutil.cpp:9-37 | a.bEx denotes ab * 10^(x - |b|), for all digit strings and exponents |
| NumberTexts.SignedRoundTrip | source/cclib/src/jsonutil.cpp:465-488 | Every integer within the limits is read back from its decimal text |
| NumberReadings.HexReading | source/cclib/src/jsonutil.cpp:238-281 | The hex text of every integer, of any size, made of the digits 0 to 9 and a to f, or A to F, with either prefix, a sign and a closing L or not, is read as that integer if it is in the limits and refused otherwise; negative ones as 2^256 or the field's size less |
| NumberReadings.DecimalReading | source/cclib/src/jsonutil.cpp:394-488 | The same for the decimal texts of all integers below 2^256 |
| NumberReadings.ReadingIs | source/cclib/src/jsonutil.cpp:394-488 | The same for every text with such an absolute value |
| NumberReadings.ExponentReading | source/cclib/src/jsonutil.cpp:318-326 | The text of every exponent between -2^24 and 2^24, with or without a plus, is read as that exponent |
| NumberReadings.PointReading | source/cclib/src/jsonutil.cpp:9-37 | a.bEx is read as v if and only if ab is below 2^256 and v = ab * 10^(x - |b|), with the powers of ten on the side on which they are integers |
| NumberGrammar.LonePoint | source/cclib/src/jsonutil.cpp:14-37 | A lone decimal point is accepted as 0 and is not in the documented format: a witness for the next row |
| NumberGrammar.AcceptedIsDocumented | source/cclib/src/jsonutil.cpp:9-37 | Every accepted text is in the documented format if and only if it is hex or the part between its sign and its exponent letter or closing L is not a lone point |
| NumberGrammar.DocumentedIsAccepted | source/cclib/src/jsonutil.cpp:9-37 | Every documented hex number is accepted; every other documented number if and only if its mantissa is below 2^256, its result integral, and its exponent one of 24 bits |
| NumberGrammar.LargeExponent | source/cclib/src/jsonutil.cpp:318-326 | 0ev is documented but refused, for every v beyond 24 bits |
| UniFloats.Multiply | source/cccommon/src/unifloat.cpp:580-595 | The product fits 128 bits; the result is the specified tuple (product of the mantissas, less its excess bits, rounded as asked), has at most 52 bits or is 2^52, and its absolute value is on the side asked for and off by at most one part in 2^51; zero only for zero |
| UniFloats.Divide | source/cccommon/src/unifloat.cpp:597-623 | The shifted numerator and the rounding term fit 128 bits; the result is the specified tuple, its absolute value on the side asked for and off by at most one part in 2^50; the largest float when the divisor is 0 |
| UniFloats.Normalize | source/cccommon/src/unifloat.cpp:494-511 | Shifts by the least number of bits that brings the mantissa below 2^52, rounding as asked |
| UniFloats.Shift | source/cccommon/src/unifloat.cpp:454-492 | The quotient by 2^shift, rounded down, up, or to the nearest with halves up |
| UniFloats.ProductIs | source/cccommon/src/unifloat.cpp:580-595 | The product is that of the mantissas, cut by the fewest bits that leave at most 52: it is the multiple of 2^bits next below, next above, or nearest with halves up, by inequalities without quotients |
| UniFloats.QuotientIs | source/cccommon/src/unifloat.cpp:597-623 | The same for the quotient of the mantissas, 64 bits up: the largest integer that is at most, or the smallest that is at least the exact one, or the rounded one of NearestIff; then cut |
| UniFloats.NearestIff | source/cccommon/src/unifloat.cpp:611-616 | What the division asked for the nearest returns is at most half a unit off if and only if the divisor is even or the remainder is not half a unit below its middle |
| UniFloats.ProductSideIff | source/cccommon/src/unifloat.cpp:580-595 | A product rounded up is at least the exact one, and one rounded down at most, if and only if the operands' signs do not differ or the product of the mantissas has no set bit among its excess bits |
| UniFloats.QuotientSideIff | source/cccommon/src/unifloat.cpp:597-623 | The same for quotients: if and only if the signs do not differ, or the division leaves no remainder and the quotient fits the mantissa |
| UniFloats.RoundsTheOtherWay | source/cccommon/src/unifloat.cpp:580-595 | For mantissas 2^62 + 1 of different signs the product rounded up is below the exact one |
| UniFloats.QuotientTheOtherWay | source/cccommon/src/unifloat.cpp:597-623 | For mantissas 2^62 + 1 and 2^62 of different signs the quotient rounded down is above the exact one |
| Limbs.ShiftUp | source/cclib/src/CCbigint.cpp:33-58 | In place, for any number of limbs and bits: the product with 2^n modulo the capacity |
| Limbs.ShiftDown | source/cclib/src/CCbigint.cpp:60-85 | In place: the quotient by 2^n, rounded down |
| Limbs.Mask | source/cclib/src/CCbigint.cpp:87-108 | In place: the residue modulo 2^n |
| Limbs.Bit | source/cclib/src/CCbigint.cpp:18-31 | The bit of the number, 0 past the last limb |
| SignedAmount.PackSignedAmount | source/cclib/src/amounts.cpp:897-918 | Succeeds exactly for two's complement values from -2^191 to 2^191 - 1 |
| SignedAmount.UnpackSignedAmount | source/cclib/src/amounts.cpp:862-876 | Every 24 bytes unpack to the sign-extended number, whatever the fourth limb held before |
| SignedAmount.StoredSigned | source/cclib/src/amounts.cpp:860-918 | Unpacking inverts packing, and what is stored is the signed amount plus 2^191 |
| SignedAmount.UnpackedIsPackable | source/cclib/src/amounts.cpp:860-918 | Every 24 bytes are the packed form of the amount they unpack to |
| SignedAmount.PackedOrder | source/cclib/src/amounts.cpp:905-907 | The byte order of packed forms is the numeric order of the signed amounts, and equal forms are equal amounts |
| ValueMap.DecodeIncreases | source/cclib/src/map_values.cpp:74-85 | Decoding is strictly increasing on a non-decreasing table, interpolation and rounding included |
| ValueMap.MapExpGetExp | source/cclib/src/map_values.cpp:58-72 | The interpolation in 64-bit words computes the exact interpolated value |
| ValueMap.MapExpDecode | source/cclib/src/map_values.cpp:74-85 | Decoding in machine words computes the exact formula: nothing wraps; what the formula means is CodeStandsFor |
| ValueMap.CodeStandsFor | source/cclib/src/map_values.cpp:51-85 | What every code decodes to, by inequalities without the code's own quotients: its index is the one to which an even spread of the codes over the indexes from unity's on takes it, and the result is offset plus e steps times the ratio of the interpolated table values there and at unity, rounded down |
| ValueMap.MapExpEncode | source/cclib/src/map_values.cpp:146-177 | Between the ends, rounding up finds the least code decoding to at least val, or the largest code if none does, rounding down the greatest decoding to at most val; the nearest end from offset down and from decMax up, for parameters with which the largest code decodes to less or more than decMax too |
| ValueMap.EncodingOfDecoded | source/cclib/src/map_values.cpp:146-177 | The encoding of a decoded code, in both directions, is the code if and only if the code is 0 or the largest, or decodes to less than decMax |
| ValueMap.EncodingUnique | source/cclib/src/map_values.cpp:146-177 | A value has only one encoding in each direction |
| ValueMap.RoundsUpIff | source/cclib/src/map_values.cpp:179-203 | Rounding up, no value up to decMax decodes to less than it was, if and only if the largest code decodes to at least decMax |
| ValueMap.RoundsDownIff | source/cclib/src/map_values.cpp:205-221 | Rounding down, no value from offset to decMax decodes to more than it was, if and only if the largest code decodes to at most decMax |
| ValueMap.FindUnityIndex | source/cclib/src/map_values.cpp:113-139 | From any start of the search, the least index of unity with which the largest code decodes to at most decMax |
| ValueMap.SearchHits | source/cclib/src/map_values.cpp:113-139 | That index meets decMax exactly if any index does |
| ValueMap.PaymentTimes | source/cclib/src/xtransaction-xreq.cpp:35-41 | The precomputed index for payment times meets decMax exactly, and the one before it does not |
| ValueMap.ConstantTableIsLinear | source/cclib/src/map_values.cpp:74-85 | On a constant table decoding is linear: the hypotheses on maps can be met |
| XpayWire.Xpay.DataToWire | source/cclib/src/xtransaction-xpay.cpp:83-110 | Throws exactly when an id cannot be encoded or the transaction id is empty or too long; otherwise advances the cursor by the wire length and, if that fits, has written exactly the wire form |
| XpayWire.Xpay.DataFromWire | source/cclib/src/xtransaction-xpay.cpp:112-139 | Reads the fields of a complete claim, the block id up to the end |
| XpayWire.WireRoundTrip | source/cclib/src/xtransaction-xpay.cpp:83-139 | What was written is received: match number, amount word, transaction id and possibly empty block id, under either table mapping and whatever the receiver held before |
| XpayWire.WireLayout | source/cclib/src/xtransaction-xpay.cpp:83-110 | The wire form byte for byte: 8 and 4 bytes of the words, lowest first, one less than the length of the encoded transaction id, that id, the encoded block id |
| XpayWire.CanSendIff | source/cclib/src/xtransaction-xpay.cpp:96-109 | A claim can be sent if and only if its transaction id is not empty, both ids can be encoded, and the encoded transaction id has at most 248 bytes |
| XpayWire.RefusedIff | source/cclib/src/xtransaction-xpay.cpp:127-138 | A complete claim is refused if and only if one of its encoded ids starts with a byte from 176 on |
| XpayWire.ShortIdsRoundTrip | source/cclib/src/xtransaction-xpay.cpp:83-139 | Every claim with a transaction id of 1 to 241 bytes and a block id of up to 281 bytes is sent, fits, and is received |
| XpayWire.CopyToBuf | source/cccommon/src/CCutil.cpp:164-180 | The cursor always advances; the bytes are copied only if they fit as a whole |
| XpayWire.CopyFromBuf | source/cccommon/src/CCutil.cpp:192-214 | The cursor always advances; the bytes are padded with zeros, or are all zeros past the end |

## Left out

- BestEncoding.BestRoundTrip: for strings below 65536 bytes. Beyond, the 32-bit product in `cc_table_expected_strlen` wraps, so that no table may fit, and selector 9 can be emitted, with which the data are lost; SelectorNine.DecodesIff says exactly when what is encoded comes back.
- BestEncoding.SlotRoundTrip: for lengths below 2^31, because the decoder counts chars in an `int`.
- BaseN.PrintedParses: a fixed width is given enough digits for the value, since the code cuts the others off (DigitsStandFor says what is then printed).
- BaseN.PrintedParsesToSeparator: for inputs below 2^31 bytes, because the width is a 32-bit number.
- AcceptedStrings.PayspecIff: for strings below 2^31 bytes, because the widths of fields are 32-bit numbers.
- AcceptedStrings.WrongChecksum: as for PayspecIff.
- AcceptedStrings.MasterSecretIff: as for PayspecIff.
- Payspec.PayspecFromJson: starts from the parsed destination and amount; JSON objects, and the unused type key, are not modelled.
- MasterSecret.ComputeMasterSecretParams: ends with the parameters of the passphrase hash; the hash is foreign code and the calibration of iterations depends on the clock.
- NumberParser.ParseIntValue: for texts below 2^30 chars, so that no `int` index or exponent counter overflows; the kinds of error are not told apart.
- MerklePath.GenerateTree: asks for at least two leaves, as the code's own assertion does, and for a power of two, as its comment does; the fixed leaf count and depth are parameters.
- NodeHash.Hash: the computed value; what the same template emits inside the circuit is HashCircuit.Hash.
- NodeHash.Knapsack1: the computed value; the constraint is that of HashCircuit.Knapsack1.
- NodeHash.HashFinish: the computed value; the constraints are those of HashCircuit.Hash.
- HashCircuit.HashSound: the remainders of the two cuts are the witness's own, so that it ties no result of fewer than 254 bits to the inputs; HashResults.NarrowIff and DeterminedHashIff say exactly what is admitted, and when it is the hash.
- HashCircuit.Hash: asks for at least one input, since the code starts from uninitialized sums.
- TxCircuit.CheckSecrets: the rules on lock times, delay times, hash keys and spend specifications follow the same gadget and are not repeated.
- TxAssets.ComputeTx: selectors and balance only; the rules on commitments, serial numbers and addresses are instances of EnforcedHash.CheckHash, and that on Merkle paths is MerkleCircuit.CheckMerkle, each on its own inputs. They are not put together to one system.
- MerkleCircuit.EnforcedPath: under the condition that nothing on the way has a second spelling, because without it the code admits other roots; CheckIff is the exact statement.
- HashCircuit.FullWidth: one direction; DeterminedHashIff has both.
- MaskedOutput.CheckEncrypted: one field, for any pad; OutputPad.CheckOutput is the pad with both fields.
- MaskedOutput.EnforcedField: for any pad; what the pad can be is OutputPad.PadsIff.
- SmartBuf.Heap.DecRef: one thread at a time; the interleavings of several threads are those of BufferRace, for one buffer. Addresses are never reused, so a freed address stays recognizable.
- BufferRace.FreedOnce: for at most as many references as CheckGuard accepts, and threads that do not use one handle at the same time; what the slots own is released in one step.
- SmartBuf.Heap.IncRef: needs a live buffer whose count has not reached the largest one that CheckGuard accepts; beyond, the code aborts.
- SmartBuf.Heap.ExchangeSlot: takes the new reference before it stores it, where the code stores first; with one thread there is no difference.
- SmartBufHandles.Handles.Share: needs another handle from which a path of slots leads to the buffer, because the code gives the old reference up first and would then use freed memory.
- SmartBufHandles.Handles.SetAuxPtrCount: once for a new buffer, with at most 20 slots; `GetAuxPtrCount` aborts on more, and a repeated call would drop or invent references.
- TxComplete.WholeIff: the selector, amount and balance constraints only; the constraints that the code emits in between, on other fields, are left out.
- TxAmounts.AmountsBalance: the constraints that the code emits in between, on other fields, are left out.
- SmartBufHandles.NothingLeaks: for slots without cycles; reference counting does not free a cycle.
- UniFloats.Multiply: operands are exact dyadic numbers with 63-bit mantissas, as Decompose makes them of finite doubles; exponents are unbounded, so overflow and underflow of the result are not modelled.
- UniFloats.Divide: as for Multiply.
- ValueMap.MapExpEncode: for parameters with which no 64-bit product and no 32-bit result overflows.
- ValueMap.FindUnityIndex: from any start, which the code estimates with `log2`; for maps in which some index of unity decodes the largest code to more than decMax and some to no more, as the two loops need to end.
- XpayWire.Xpay.DataFromWire: for inputs that hold a complete claim whose block id fits the code's string buffer.
- XpayWire.CopyToBuf: without the hex mode; for cursors that do not wrap at 32 bits, where the code would write outside the buffer.
- XpayWire.CopyFromBuf: for reads of at most the target's size and cursors that do not wrap, beyond which the code reads or clears foreign memory.
- XpayWire.Xpay.DataToWire: the amount is an opaque 32-bit word.
- `UniFloat::WireEncode`, decimal conversions and `UniFloat::Add`: they depend on the host's `double`, or do not aim at directed rounding in general.
- `bigint_byteswap`, byte counts, unsigned packing, hex copies and base64: easy members.
- The SNARK library, siphash, blake2 and ed25519 are not part of this model.
- Databases, consensus, networking, signal handling, the Python scripts and JSON command dispatch: I/O and plumbing.

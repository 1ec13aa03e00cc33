# Simplified DES with a brute-force key search

A Dafny model of `sdes.py`. That file is a toy block cipher modelled on
Simplified DES: a 10-bit key, an 8-bit block, and a two-round Feistel
network between the initial permutation IP and its inverse. It also holds a
brute-force search that tries all 1024 keys against known
plaintext/ciphertext pairs.

Bits are the integers 0 and 1 (`Bits.Bit`), and bit lists are `seq<Bit>`.
The tables are the source's constants (`Tables`). Each loop in the source
becomes a method proved equal to a specification function (a sequence
comprehension for `permute`, recursive functions for the others), and the
properties are proved as lemmas about those functions:

- `permute` becomes `Bits.Permute`, proved against `Bits.Permuted`.
- `generate_subkeys` becomes `Cipher.GenerateSubkeys`, proved against `Cipher.SubkeysOf` and `Cipher.Schedule`.
- `encrypt` and `decrypt` become `Cipher.Encrypt` and `Cipher.Decrypt`, proved against `Cipher.Enciphered`, `Cipher.Deciphered`, `Cipher.Feistel` and `Cipher.Rounds`.
- The search loops become `KeySearch.SearchKey` and `KeySearch.BruteForce`, proved against `KeySearch.FirstKey` and `KeySearch.Searched`.

The straight-line helpers (`split_into_half`, `left_circular_shift`, `xor`,
`substitute`, `round_function`) become functions.

Modules: `Wrappers` (Option, Result), `Bits` (bit-list helpers and binary
rendering), `Tables` (the constants), `Cipher` (S-boxes, round function, key
schedule, encrypt, decrypt), `ZeroKey` (the all-zero key worked through)
and `KeySearch`.

**Decryption here does not invert encryption, and the model follows the
code.** In textbook Simplified DES, decryption inverts encryption because
the halves are not exchanged after the last round. In this code both loops
exchange the halves after every round, including the last one (sdes.py:85,
sdes.py:94), and nothing undoes the final exchange. So this model does not
assert the round trip. It proves what does hold:

- Exchanging the halves around decrypt gives the inverse of encrypt, in both directions (`Cipher.PreimageOfEncrypt`, `Cipher.EncryptOfPreimage`).
- So for a fixed key, encrypt is a bijection on 8-bit blocks (`Cipher.EncryptInjective`).
- Decrypt undoes encrypt on a block exactly when the half exchange commutes with encrypting it (`Cipher.DecryptUndoesEncryptIff`).
- Under the all-zero key, the all-zero block encrypts to `01011010`, which decrypts to `10101110` (`ZeroKey.DecryptDoesNotUndoEncrypt`).

The code also accepts inputs a stricter implementation would reject. `xor`
truncates to the shorter list, and `split_into_half` splits odd lengths
unevenly. The model states both as the code does them.

## Model

| member | source | states |
|---|---|---|
| Bits.Permuted | sdes.py:35-42 | `permute` on a table whose entries all address the input: one bit per table entry |
| Bits.PermutedBits | sdes.py:37-39 | bit j of the permuted list is the input bit at position `table[j]`, counting from 1 |
| Bits.Permute | sdes.py:35-42 | fails with InvalidPermutationIndex exactly when some table entry exceeds the input's length; otherwise returns one bit per table entry, the j-th being `original[table[j]-1]`, and equals `Permuted` |
| Bits.SplitIntoHalf | sdes.py:44-45 | the two halves concatenate to the input; the first has floor(n/2) bits and the second the rest, so even lengths split into equal halves |
| Bits.LeftCircularShift | sdes.py:47-48 | same length as the input; for n up to the length, bit i is input bit i+n, wrapping past the end; for n at or beyond the length the list is unchanged (Python slicing) |
| Bits.ShiftCompose | sdes.py:47-48 | rotating by a and then by b equals rotating by a+b when a+b is within the length (so 1 then 2 on a 5-bit half is 3) |
| Bits.XorBit | sdes.py:51 | the bit `x ^ y` equals (x+y) mod 2 |
| Bits.Xor | sdes.py:50-51 | as long as the shorter input (zip); each bit is the exclusive-or of the bits at that position |
| Bits.XorSelfInverse | sdes.py:50-51 | exclusive-or with the same mask twice gives the original list back |
| Bits.FromBits | sdes.py:54-55 | the MSB-first binary value of a bit list is below 2 to the power of its length |
| Bits.ToBits | sdes.py:56 | `format(v, '0Nb')` of a v below 2^N, as a bit list, has exactly N bits |
| Bits.FromToBits | sdes.py:56 | reading back the N-bit rendering of a v below 2^N gives v: the rendering is MSB first and exact |
| Bits.ToFromBits | sdes.py:131 | rendering a bit list's value at the list's own width gives the list back |
| Bits.ParseBits | sdes.py:99-100 | one bit per character, bit i being 1 exactly when character i is '1' |
| Bits.ShowBits | sdes.py:99-100 | spelling a bit list gives a '0'/'1' string of the same length, character i being '1' exactly when bit i is 1 |
| Bits.ParseShowBits | sdes.py:99-100 | parsing a '0'/'1' string is exactly the inverse of spelling a bit list, in both directions |
| Tables.TablesInRange | sdes.py:4-19 | every entry of IP, IP_INV, EP, P4, P10 and P8 addresses a position of the list it is applied to (8, 8, 4, 4, 10 and 10 bits), so the cipher's permutations never raise |
| Tables.SBoxesValid | sdes.py:21-30 | S0 and S1 are 4 by 4 grids of values 0 to 3 |
| Tables.IPInverse | sdes.py:3-7 | IP_INV undoes IP and IP undoes IP_INV on every 8-bit block |
| Cipher.Row | sdes.py:54 | the S-box row is 2*b0 + b3, in 0..3 |
| Cipher.Col | sdes.py:55 | the S-box column is 2*b1 + b2, in 0..3 |
| Cipher.Substitute | sdes.py:53-56 | two bits whose MSB-first value is the S-box entry at (row, column); never fails on a valid S-box |
| Cipher.RoundFunction | sdes.py:58-68 | a half of at least 4 bits and a subkey of at least 8 bits give a 4-bit result |
| Cipher.Schedule | sdes.py:73-77 | one 8-bit subkey per rotation amount |
| Cipher.KeyHalves | sdes.py:71-72 | P10 of the key splits into two 5-bit halves |
| Cipher.SubkeysOf | sdes.py:70-78 | exactly two 8-bit subkeys |
| Cipher.SubkeyRotations | sdes.py:70-78 | subkey 1 is P8 of the post-P10 halves each rotated by 1; subkey 2 is P8 of them rotated by 3, because the rotations accumulate |
| Cipher.GenerateSubkeys | sdes.py:70-78 | the loop over the shift amounts produces exactly `SubkeysOf(key)` |
| Cipher.Round | sdes.py:85 | a round moves R to the left and leaves a 4-bit right half |
| Cipher.Rounds | sdes.py:84-85 | the round loop keeps both halves at 4 bits |
| Cipher.Feistel | sdes.py:81-86 | IP, the round loop and IP_INV yield an 8-bit block |
| Cipher.Reverse | sdes.py:93 | `reversed`: the same length, element i being element n-1-i |
| Cipher.ReverseFirst | sdes.py:93 | reversing a non-empty list puts its first element last, after the reversal of the rest |
| Cipher.Enciphered | sdes.py:80-87 | encryption of a block of at least 8 bits under a key of at least 10 bits is 8 bits |
| Cipher.Deciphered | sdes.py:89-96 | decryption is the same network with the subkeys reversed, and yields 8 bits |
| Cipher.Encrypt | sdes.py:80-87 | the method's loop computes exactly `Enciphered` |
| Cipher.Decrypt | sdes.py:89-96 | the method's backward loop over the subkeys computes exactly `Deciphered` |
| Cipher.RoundsAppend | sdes.py:84-85 | one more subkey adds one more round after the others |
| Cipher.RoundsUndone | sdes.py:85 | each round (L, R) to (R, L xor F(R, k)) is invertible: the rounds with reversed subkeys on the exchanged halves give back the exchanged input |
| Cipher.SwapHalves | sdes.py:83-86 | exchanging the halves between IP and IP_INV yields 8 bits |
| Cipher.SwapHalvesInvolution | sdes.py:83-86 | exchanging the halves twice is the identity on 8-bit blocks |
| Cipher.FeistelUndone | sdes.py:80-96 | the network with reversed subkeys between two half exchanges undoes the network |
| Cipher.Preimage | sdes.py:89-96 | the inverse of encryption, decrypt between two half exchanges, yields 8 bits |
| Cipher.PreimageOfEncrypt | sdes.py:80-96 | Preimage recovers every 8-bit plaintext from its encryption |
| Cipher.EncryptOfPreimage | sdes.py:80-96 | encrypting the preimage of an 8-bit ciphertext gives the ciphertext, so encryption is onto |
| Cipher.EncryptInjective | sdes.py:80-87 | for a fixed key, equal encryptions of 8-bit blocks mean equal blocks |
| Cipher.DecryptUndoesEncryptIff | sdes.py:80-96 | decrypt(encrypt(P)) == P holds exactly when exchanging the halves commutes with encrypting P |
| ZeroKey.ZeroKeySubkeys | sdes.py:70-78 | the all-zero key is an ordinary key, whose two subkeys are all zero |
| ZeroKey.EncryptZeroBlock | sdes.py:80-87 | under the all-zero key the all-zero block encrypts to 01011010 |
| ZeroKey.DecryptZeroKeyCiphertext | sdes.py:89-96 | under the all-zero key, a block whose halves after IP are 1000 and 1011 decrypts to 10101110 |
| ZeroKey.DecryptDoesNotUndoEncrypt | sdes.py:80-96 | decrypting the encryption of the all-zero block under the all-zero key gives 10101110, not the block |
| KeySearch.KeyBits | sdes.py:131 | key i is rendered with exactly 10 bits |
| KeySearch.KeyBitsValue | sdes.py:131 | the MSB-first value of key i's bits is i |
| KeySearch.EveryKeyVisited | sdes.py:130-131 | every 10-bit key is key number FromBits(key), below 1024, so the search tries it |
| KeySearch.Matches | sdes.py:137-141 | key i passes the search's test: decrypting C under it gives P and encrypting P under it gives C |
| KeySearch.FirstTrue | sdes.py:130-145 | the first true position from `from` on, with every position before it false, or none when all are false |
| KeySearch.Checks | sdes.py:130-141 | one check outcome per key index, 1024 in all |
| KeySearch.FirstKey | sdes.py:130-145 | the answer for a pair, when there is one, is a key index below 1024 |
| KeySearch.FirstKeyIsFirst | sdes.py:136-145 | FirstKey is the first passing key: the index it returns passes both `decrypt(C) == P` and `encrypt(P) == C`, and every smaller index, or every index at all when it returns none, fails one of them |
| KeySearch.SearchKey | sdes.py:130-145 | the loop that stops at the first matching key returns exactly `FirstKey` |
| KeySearch.Searched | sdes.py:126-145 | the search over a list of pairs gives one answer per pair |
| KeySearch.SearchedStep | sdes.py:126-128 | searching one more pair appends that pair's answer to the earlier answers |
| KeySearch.SearchedAnswer | sdes.py:126-145 | answer k is the `FirstKey` of pair k's parsed plaintext and ciphertext |
| KeySearch.BruteForce | sdes.py:126-145 | the loop over the pairs returns exactly `Searched`, so answer k is the first key of pair k |
| KeySearch.FoundKeyCommutesWithSwap | sdes.py:137-141 | when a key passes both checks for a pair, the half exchange maps that pair to another pair of the same key |

## Left out

- Printing (sdes.py:142 and sdes.py:145) is I/O. The search returns an optional key index per pair instead, and key i's bits are `KeyBits(i)`.
- The unused `generate_subkeys` call at sdes.py:134 does not affect the result and is not modelled.
- The hard-coded list of pairs (sdes.py:103-123) is test data. `BruteForce` takes the pairs as a parameter, and no search over those particular pairs is carried out.
- Bits.Permute: table entries below 1 are excluded by a precondition. The source checks only the upper bound, and Python would read such entries with negative indexing.
- Bits.LeftCircularShift: the amount is a natural number. Python's slicing would rotate right for a negative amount; the cipher only passes 1 and 2 (sdes.py:33).
- Bits.ToBits: only values below 2^N are rendered. For larger values `format` writes more than N digits; S-box entries are at most 3 and keys below 1024, so the cipher never asks for that.
- Bits.ParseBits: inputs are restricted to '0' and '1'. Python's `int` would also accept other digits.
- Cipher.Substitute, Cipher.RoundFunction, Cipher.SubkeysOf, Cipher.Enciphered and Cipher.Deciphered require inputs long enough for their permutations and indexing. They require a half of at least 4 bits, a subkey of at least 8 bits, a key of at least 10 bits and a block of at least 8 bits. The IndexError or ValueError that the source raises on shorter lists is not modelled. Only `Permute` models its error path.
- Cipher.Substitute requires S-box entries in 0..3 (`ValidSBox`). Both tables meet this (`SBoxesValid`). A larger entry would be rendered with more than two bits by `format`.
- Cipher.RoundFunction: its contract states only the 4-bit length. Its value is given by its definition, which the `ZeroKey` lemmas evaluate on four inputs.
- Cipher.Enciphered, Cipher.Deciphered: their own contracts state only the 8-bit length. What they compute is stated in the inverse lemmas `PreimageOfEncrypt`, `EncryptOfPreimage` and `DecryptUndoesEncryptIff`.
- KeySearch.KeyBits, KeySearch.FirstKey: their own contracts state only the key's width and the answer's range. That key i reads back as i, and that the answer is the first passing key, are the lemmas `KeyBitsValue` and `FirstKeyIsFirst`.
- The round trip `decrypt(encrypt(P, K), K) == P` is not asserted, because the code does not meet it. `DecryptDoesNotUndoEncrypt` exhibits an input where it fails.
- Inside the cipher, the permutations use the total function `Permuted` rather than the error-returning `Permute`. `TablesInRange` shows that the error path cannot be reached there.

# rolldice in Dafny

`rolldice.py` turns dice rolls into a base 64 secret. Each roll lands in a
`Dice` object, which keeps the faces of the die and throws away any other
value. `get_bytes` then packs the rolls:

- every roll is written in its minimal binary form (`bin(v)[2:]`);
- the forms are joined in roll order;
- the joined bit string is cut into 8-bit chunks from the front;
- each chunk is read as an unsigned number.

There are two ways to fill the die:

- `simulate_dice_throws` rolls it automatically a fixed number of times;
- `dice_throws` reads lines of comma- or space-separated numbers until enough
  valid rolls have been kept.

Both return the standard base 64 encoding of the packed bytes.

The model has seven modules:

- `Wrappers`: the `Option` and `Result` types that carry the error cases.
- `Bits`: `bin(v)[2:]`, `int(s, 2)`, fixed-width rendering and the lemmas
  that tie them together.
- `Packing`: the concatenated bit string, the chunks, the packed bytes, and
  an unpacking function that reproduces the bit string from them.
- `Base64`: the encoding of section 4 of RFC 4648 (standard alphabet, `=`
  padding). It comes with a decoder and the round trip.
- `Tokens`: how one input line is read. Commas become spaces, the line is
  split as `str.split()` splits it, and every token goes through `int()`.
- `Rolldice`:
  - the `Dice` class (a `const` side count and a `seq<int>` of rolls);
  - the automatic roll loop, as a method;
  - the collection loop of `dice_throws`, as a method proved against the
    function `Collect`, with lemmas about what `Collect` delivers.
- `D6Example`: the rolls `[1, 2, 3, 4, 5, 6]` worked through the pipeline.

The last chunk is an important detail. When the bit count `B` is not a
multiple of 8, the code keeps the trailing partial chunk and reads it as the
value of its own bits, so `get_bytes` gives ceil(B/8) bytes. The model keeps
it too. The trailing partial chunk is neither dropped nor zero-padded: for
`[1..6]` the bit string is `11011100101110` (14 bits), the bytes are `DC 2E`
and the text is `3C4=`.

## Model

| member | source | states |
|---|---|---|
| Rolldice.Dice.constructor | rolldice.py:15-17 | a new die has the given side count and no rolls; the side count is a `const`, so no later call can change it |
| Rolldice.Dice.RollDice | rolldice.py:20-26 | a value in [1, num_sides] is appended; any other value leaves the rolls unchanged; with no value, one face in [1, num_sides] is appended; every roll stays a face of the die |
| Rolldice.Dice.GetBytes | rolldice.py:28-32 | `get_bytes` returns the packing of the current rolls and has no frame, so it changes nothing |
| Bits.Bin | rolldice.py:29 | `bin(v)[2:]` is a non-empty bit string, and it starts with 1 for every v >= 1 |
| Bits.BinLength | rolldice.py:29 | the minimal binary form of v >= 1 has length w with 2^(w-1) <= v < 2^w, i.e. floor(log2 v) + 1 |
| Bits.ValueOfBin | rolldice.py:29-31 | reading the minimal binary form back with `int(s, 2)` gives the number |
| Bits.BinOfValueOf | rolldice.py:29-31 | a bit string that starts with 1 is the minimal binary form of its value, so the form is unique |
| Bits.LeadingOneValue | rolldice.py:29 | a bit string of length n whose first bit is 1 has a value of at least 2^(n-1) |
| Bits.ValueOf | rolldice.py:31 | `int(s, 2)` of an n-bit string is below 2^n |
| Bits.ValueOfToBits | rolldice.py:31 | rendering a value below 2^k in k bits and reading it back gives the value |
| Bits.ToBitsOfValueOf | rolldice.py:31 | rendering a bit string's value in the string's own width gives the string back, leading zeros included |
| Packing.Concat | rolldice.py:29 | `''.join` of bit strings is a bit string |
| Packing.BinaryString | rolldice.py:29 | `binary_str` is a bit string; it is empty exactly when there are no rolls, and otherwise starts with the leading 1 of the first roll's form |
| Packing.BinaryStringAppend | rolldice.py:29 | appending a roll appends its minimal binary form to the joined bit string, so the forms stand in roll order |
| Packing.ConcatAppend | rolldice.py:29 | `''.join` of two lists one after the other is the join of the first followed by the join of the second |
| Packing.Chunks | rolldice.py:30 | a bit string of B bits gives ceil(B/8) chunks; each holds 1 to 8 bits; every chunk but the last holds exactly 8 |
| Packing.ChunkAt | rolldice.py:30 | chunk i is the slice `s[8i : 8i + 8]` that the comprehension over `range(0, len(s), 8)` takes |
| Packing.ConcatChunks | rolldice.py:30 | joining the chunks gives back the bit string |
| Packing.LastChunkWidth | rolldice.py:30 | the last chunk holds B mod 8 bits, or 8 when B is a multiple of 8 |
| Packing.ByteOf | rolldice.py:31 | `int(chunk, 2)` of a chunk of k <= 8 bits is a byte below 2^k |
| Packing.Pack | rolldice.py:30-31 | the bytes of a B-bit string number ceil(B/8); they are empty exactly when the string is; the last byte is below 2^k when it comes from a k-bit partial chunk |
| Packing.UnpackPack | rolldice.py:29-31 | writing every byte but the last in 8 bits, and the last in (B mod 8, or 8) bits, reproduces the bit string |
| Packing.GetBytes | rolldice.py:28-32 | `get_bytes` yields ceil(B/8) bytes; unpacking them reproduces the joined binary forms of the rolls; the last byte is below 2^k for a last chunk of k bits, so it too is fixed by the bits; no rolls give no bytes |
| Bits.ToBitsSplit | rolldice.py:52 | for v == h * 2^k + l with l < 2^k, the (j + k)-bit rendering of v is the j-bit rendering of the high part h followed by the k-bit rendering of the low part l |
| Base64.CharOf | rolldice.py:52 | the 64 values map onto the alphabet of Table 1 of RFC 4648 in its order: 0-25 to `A`-`Z`, 26-51 to `a`-`z`, 52-61 to `0`-`9`, 62 to `+`, 63 to `/`; no value maps to the pad `=` |
| Base64.GroupBits | rolldice.py:52 | the four 6-bit values of a full group, each in 6 bits, are the 24 bits of its three bytes, most significant first |
| Base64.OneByteBits | rolldice.py:52 | the two 6-bit values for a final single byte are its 8 bits followed by four zero bits |
| Base64.TwoBytesBits | rolldice.py:52 | the three 6-bit values for a final pair of bytes are their 16 bits followed by two zero bits |
| Base64.Encode | rolldice.py:52 | the encoding of n bytes has 4 * ceil(n/3) characters |
| Base64.IndexOfCharOf | rolldice.py:52 | every character of the alphabet names its own 6-bit value |
| Base64.DecodeEncodeGroup | rolldice.py:52 | a full group of three bytes decodes from its four characters |
| Base64.DecodeEncodeOne | rolldice.py:52 | a final single byte, padded with `==`, decodes back |
| Base64.DecodeEncodeTwo | rolldice.py:52 | a final pair of bytes, padded with `=`, decodes back |
| Base64.DecodeEncode | rolldice.py:52 | decoding the encoding gives back the bytes, so no byte is lost or altered |
| Rolldice.Output | rolldice.py:51-52 | the text for a roll sequence has 4 * ceil(n/3) characters for its n packed bytes and decodes back to those bytes |
| Rolldice.SimulateDiceThrows | rolldice.py:46-53 | exactly the given number of automatic rolls, all of them faces of the die; the result is the base 64 text of their packing |
| Tokens.IsSpace | rolldice.py:64 | the separators of `str.split()`: exactly the characters `str.isspace` accepts; a comma, a digit and a sign are never separators, so commas need the replacement |
| Tokens.ReplaceCommas | rolldice.py:64 | `replace(",", " ")` keeps the length, turns every comma into a space, leaves every other character alone, and leaves no comma |
| Tokens.WordLength | rolldice.py:64 | the leading run of non-whitespace characters ends at the first whitespace character or at the end |
| Tokens.Split | rolldice.py:64 | `str.split()` yields only non-empty tokens without whitespace, made of characters of the line |
| Tokens.SplitAllSpace | rolldice.py:64 | a line of whitespace alone yields no token |
| Tokens.SplitToken | rolldice.py:64 | a single token splits into itself |
| Tokens.WordLengthOfToken | rolldice.py:64 | a run without whitespace is one word for its whole length |
| Tokens.WordLengthBeforeSpace | rolldice.py:64 | a word never reaches past a whitespace character |
| Tokens.SplitSeparated | rolldice.py:64 | splitting at a whitespace character equals splitting each side and joining the lists |
| Tokens.Tokenize | rolldice.py:64 | the tokens of a line are non-empty and hold neither whitespace nor a comma |
| Tokens.ParseInt | rolldice.py:65 | `int(t)` succeeds exactly for digits with an optional leading sign |
| Tokens.Decimal | rolldice.py:65 | a reference inverse of `int()`, not called by the program, used to state its round trip: the decimal rendering of a natural number is a digit string |
| Tokens.DecimalValueOfDecimal | rolldice.py:65 | the digits of the reference rendering `Decimal(n)` have the value n |
| Tokens.ParseIntDecimal | rolldice.py:65 | `int()` of the decimal rendering of any integer v, with a `-` for negatives, gives v |
| Tokens.ParseAll | rolldice.py:65 | `[int(num) for num in tokens]` succeeds exactly when every token does; it keeps the count and gives `int` of each token in order |
| Tokens.ParseLine | rolldice.py:64-65 | a line's numbers exist exactly when all of its tokens parse, one number per token |
| Rolldice.Accepted | rolldice.py:66-68 | what `roll_dice` keeps of entered values lies in [1, num_sides] and is no longer than the input |
| Rolldice.AcceptedAppend | rolldice.py:66-68 | the values kept from two inputs, one after the other, are those kept from the first followed by those kept from the second |
| Rolldice.AcceptedMembers | rolldice.py:66-68 | a value is kept exactly when it was entered and is a face of the die |
| Rolldice.FeedLine | rolldice.py:66-68 | feeding one line's values appends exactly the accepted ones, in order, and every roll stays a face |
| Rolldice.Collect | rolldice.py:62-68 | when the loop ends normally it holds at least the required number of rolls, all of them faces, after reading no more lines than were given |
| Rolldice.Shifted | rolldice.py:62-63 | counting k earlier lines changes the number of lines read and nothing else |
| Rolldice.Entered | rolldice.py:63-65 | the values of a run of lines exist exactly when every line parses |
| Rolldice.EnteredPrefix | rolldice.py:63-65 | the values of the first k lines are the first line's values followed by those of the next k - 1 lines |
| Rolldice.PrefixRolls | rolldice.py:62-68 | the rolls kept after k lines are those kept from the first line followed by those kept from the next k - 1 lines |
| Rolldice.CollectUnfold | rolldice.py:62-68 | one pass of the loop while rolls are missing feeds the first line and goes on with the rest |
| Rolldice.CollectOk | rolldice.py:62-68 | after a normal end, the lines read all parse, and the rolls are the in-order filter to [1, num_sides] of every value on them |
| Rolldice.CollectStopsEarly | rolldice.py:62-68 | the loop stops at the first line after which it has enough rolls: before that line the count was still short; the last line is fed whole, so the count can overshoot |
| Rolldice.CollectSucceeds | rolldice.py:62-68 | the loop ends normally whenever some first k lines all parse and give enough rolls, so it never reports an error for input that completes it |
| Rolldice.CollectEndOfInput | rolldice.py:62-65 | input runs out (`EOFError`) exactly when every line parses and all of them together still give too few rolls |
| Rolldice.CollectNextLine | rolldice.py:62-68 | reading the next line while rolls are missing moves the loop forward by exactly one line |
| Rolldice.ShiftedTwice | rolldice.py:62-63 | counting j lines and then k more lines is the same as counting j + k lines |
| Rolldice.DiceThrows | rolldice.py:56-71 | the loop method gives the base 64 text of the rolls `Collect` delivers, or exactly the error (`EOFError` or `ValueError`) at which `Collect` stops |
| D6Example.FirstThreeBits | rolldice.py:29 | the rolls 1, 2, 3 give the bit string `11011` |
| D6Example.AllBits | rolldice.py:29 | the rolls 1 to 6 give the 14-bit string `11011100101110` |
| D6Example.TwoChunks | rolldice.py:30 | that string cuts into the chunks `11011100` and `101110` |
| D6Example.TwoBytes | rolldice.py:30-31 | those chunks pack to the bytes 0xDC and 0x2E |
| D6Example.FourCharacters | rolldice.py:52 | the bytes 0xDC and 0x2E encode as `3C4=` |
| D6Example.Pipeline | rolldice.py:28-32 | for the D6 rolls 1 to 6, `get_bytes` is `DC 2E` and the printed text is `3C4=` |

## Left out

- `bits_of_entropy` and `required_dice_rolls` (rolldice.py:35-43) use floating point (`math.log2`, `math.floor`). The roll count is a natural-number parameter of `SimulateDiceThrows` and `DiceThrows` instead.
- `secrets.randbelow` (rolldice.py:22) is a cryptographic random source. A roll without a value is a nondeterministic choice of a face in [1, num_sides].
- Rolldice.Dice.RollDice: requires num_sides >= 1 for an automatic roll. With fewer sides, `randbelow` raises `ValueError`, and the model does not include that error.
- Rolldice.SimulateDiceThrows: also returns the rolls it drew, which the program keeps to itself, because the random draws cannot be named otherwise.
- Logging (rolldice.py:7-11, 18, 24) has no effect on the state and is left out.
- `input()`, `print()`, `argparse` and `__main__` (rolldice.py:58, 61, 63, 67, 74-81) are left out:
  - the input lines of `dice_throws` are a given sequence of strings, and running out of them stands for `EOFError`;
  - the side count, which the program may read with `input()`, is a parameter;
  - the progress messages are dropped.
- Tokens.ParseInt: accepts only an optional `+` or `-` followed by ASCII digits. Python's `int()` also accepts underscores between digits and non-ASCII decimal digits; the model rejects such tokens. Python 3.11 and later also raise `ValueError` for a decimal token longer than 4300 digits (the integer string conversion limit); the model parses such a token.
- The `base64` library is replaced by the model's own encoder, which follows section 4 of RFC 4648.

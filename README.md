# LZW text compressor, modelled in Dafny

This project models `TextCompressor`, an LZW compressor and expander with
fixed-width 12-bit codewords. Codes 0 .. 255 stand for the single bytes and
256 is the end-of-stream codeword (Eof). Codes 257 .. 4095 go to learned
phrases.

- **`compress`** repeatedly looks up the longest known phrase at the cursor
  in a ternary search trie and emits its code. While input remains and codes
  are left, it learns that phrase plus the next character under the next free
  code. It ends with Eof.
- **`expand`** rebuilds the same phrases in a 4096-slot array, one step
  behind the compressor. A codeword the table does not hold yet decodes to
  the previous phrase plus that phrase's first character.

The model has four modules:

- **`PrefixDictionary`** (`prefix_dictionary.dfy`): the trie as a class
  `Tst`. Its contents are one `map` field, which `Insert` updates in place.
  `LongestMatch` is defined by its meaning (`IsLongestMatch`): the length of
  the longest key that is a prefix of the text at the cursor. `LongestUpTo`
  is a scan over the candidate lengths, proved to give that length.
  `GetLongestPrefix` is a loop proved to return the longest match.
- **`LzwSpec`** (`lzw_spec.dfy`): the reference definition in pure functions.
  - `EncodeFrom`/`Encode` give the codewords, the phrase of each codeword and
    the final trie.
  - `DecodeFrom`/`Decode` give what the expander writes. They also give the
    failure that stops it, where the Java code would throw.
- **`TextCompressor`** (`text_compressor.dfy`): the two routines as
  imperative methods, with the trie and the `array` table mutated in place.
  `Compress` is proved to return `Encode(text).codes`, and `Expand` to return
  `Decode(input)`.
- **`LzwProofs`** (`lzw_proofs.dfy`): what the reference definition promises:
  - the bounds of the codeword stream;
  - the order in which codes are assigned;
  - that the phrases of the codewords spell the text;
  - that expansion undoes compression.

  The round trip is proved through two predicates:
  - `Mirrors`: a code-to-phrase table that is the exact inverse of the trie.
  - `Sync`: the expander's table is that table less its last slot while it
    has room. So after each codeword, the expander's `maxCode` is the value
    the compressor's `startCode` had one step earlier.

How the I/O is represented:

- The compressor's input (`BinaryStdIn.readString`) is a `string` whose
  characters are all below 256 (`IsByteText`).
- Each 12-bit write is one element appended to a `seq<int>`.
- Each 12-bit read takes the next element of a `seq<Code>`, where `Code` is
  0 .. 4095. Reading past the end of that sequence is the failure
  `StreamExhausted`.

The LZW round-trip law is meant to hold for every text, the empty one
included. The code as written does not deliver it for the empty text, and
the model follows the code (see Findings).

## Model

| member | source | states |
|---|---|---|
| PrefixDictionary.Tst.constructor | src/TextCompressor.java:40 | a new trie holds no keys |
| PrefixDictionary.Tst.Insert | src/TextCompressor.java:44 | after insertion the trie maps the key to the code; every other key is unchanged |
| PrefixDictionary.Tst.Lookup | src/TextCompressor.java:52 | finds a code exactly when the key is in the trie, and then it is the key's code |
| PrefixDictionary.LongestUpTo | src/TextCompressor.java:51 | the scan over lengths `m`, `m - 1`, ...: its result is at most `m`, and when non-zero the text at the cursor has a key of that length |
| PrefixDictionary.LongestUpToIsLongest | src/TextCompressor.java:51 | no key that is a prefix of the text at the cursor, and within the bound, is longer than the scan's result |
| PrefixDictionary.LongestMatchUnique | src/TextCompressor.java:51 | at most one length is the longest match |
| PrefixDictionary.LongestUpToIsMatch | src/TextCompressor.java:51 | the scan over every length up to the end of the text gives the longest match |
| PrefixDictionary.LongestMatch | src/TextCompressor.java:51 | the longest match stays inside the text, and a non-zero one is a key |
| PrefixDictionary.LongestMatchIsLongest | src/TextCompressor.java:51 | no key that is a prefix of the text at the cursor is longer than `LongestMatch` |
| PrefixDictionary.Tst.GetLongestPrefix | src/TextCompressor.java:51 | returns the longest key that is a prefix of the text at the cursor, or "" when there is none |
| LzwSpec.Seeds | src/TextCompressor.java:43-45 | the seeded trie maps each one-byte phrase to its byte value and holds nothing else |
| LzwSpec.MatchNonEmpty | src/TextCompressor.java:43-45 | with every byte seeded, the longest match at a cursor inside the text is never empty |
| LzwSpec.Learn | src/TextCompressor.java:58-63 | the counter grows by one exactly when a next character exists and `startCode < 4096`; otherwise the state is unchanged |
| LzwSpec.LearnHasSeeds | src/TextCompressor.java:58-61 | learning keeps every one-byte phrase a key |
| LzwSpec.EncodeFrom | src/TextCompressor.java:49-69 | one codeword per phrase, then the final Eof; there are no phrases exactly when the cursor is at the end of the text |
| LzwSpec.EncodeFromUnfold | src/TextCompressor.java:49-66 | at a cursor inside the text the match is non-empty and a key; compression emits its code and its phrase, then goes on past it from the learned state |
| LzwSpec.EncodeFromStep | src/TextCompressor.java:49-66 | one loop step emits the code of the match, learns, and moves the cursor past the match; compression from the new cursor gives the rest of the output |
| LzwSpec.Encode | src/TextCompressor.java:37-69 | the whole stream: one codeword per phrase, then Eof; no phrases exactly for the empty text |
| LzwSpec.InitialTable | src/TextCompressor.java:77-86 | the table starts with 257 filled slots: the one-byte phrases, then "" at Eof |
| LzwSpec.DecodeFrom | src/TextCompressor.java:92-112 | the loop ends without failure only if it has read an Eof, and never at a null slot |
| LzwSpec.DecodeFromNext | src/TextCompressor.java:94-112 | a codeword other than Eof, unless the empty-previous-phrase case, writes its entry: the slot's phrase below `maxCode`, otherwise `val + val[0]`. The table gains `val + entry[0]` when it has room, and expansion continues from there |
| LzwSpec.Decode | src/TextCompressor.java:86-112 | expansion succeeds only if an Eof follows the first codeword; it stops at a null slot exactly when the first codeword is 257 or above |
| LzwSpec.DecodeChecked | src/TextCompressor.java:87-95 | the corrected expansion: a stream that starts with Eof expands to "" without failure |
| TextCompressor.Compress | src/TextCompressor.java:37-71 | the emitted codewords are exactly `Encode(text).codes` |
| TextCompressor.SeedsGrow | src/TextCompressor.java:43-45 | inserting byte `b` into the seeds below `b` gives the seeds up to `b` |
| TextCompressor.SeedTrie | src/TextCompressor.java:43-45 | after seeding, the trie holds exactly the 256 one-byte phrases under their own values |
| TextCompressor.LearnNext | src/TextCompressor.java:58-63 | inserts match plus next character under `startCode` and increments it only when a next character exists and `startCode < 4096`; otherwise changes nothing |
| TextCompressor.NewCodeTable | src/TextCompressor.java:76-84 | slots 0 .. 255 hold the one-byte phrases, slot 256 holds "", slots 257 .. 4095 are null |
| TextCompressor.TableIsGrow | src/TextCompressor.java:108-109 | storing a phrase at `maxCode` fills the first null slot and changes no other slot |
| TextCompressor.Expand | src/TextCompressor.java:74-115 | writes exactly `Decode(input)` and stops with its failure. Loop invariants keep `257 <= maxCode <= 4096`, slots below `maxCode` filled and the rest null |
| TextCompressor.ExpandChecked | src/TextCompressor.java:87-92 | like `Expand`, but a stream starting with Eof expands to "" without failure: returns exactly `DecodeChecked(input)` |
| LzwProofs.InitialDictInv | src/TextCompressor.java:43-46 | the seeded trie and `startCode = 257` satisfy the trie invariant: every byte is a key, every key is non-empty, every code is below the counter and none is Eof |
| LzwProofs.LearnedIsNew | src/TextCompressor.java:58-61 | the phrase learned after a longest match is not already a key |
| LzwProofs.LearnKeepsDict | src/TextCompressor.java:58-63 | a learning step keeps the trie invariant and every old key with its code. A new phrase gets exactly `startCode` and the counter grows by one; otherwise nothing changes |
| LzwProofs.LearnKeepsEntry | src/TextCompressor.java:58-61 | a learning step keeps any given key with its code |
| LzwProofs.EncodeFromDict | src/TextCompressor.java:49-67 | compression ends in a state that keeps the trie invariant; keys are never removed or re-coded |
| LzwProofs.EncodeFromNonEmpty | src/TextCompressor.java:49-66 | every phrase of the stream is non-empty |
| LzwProofs.EncodeFromSpells | src/TextCompressor.java:49-66 | the phrases, one after another, spell the rest of the text |
| LzwProofs.EncodeFromShape | src/TextCompressor.java:49-69 | both of the above together |
| LzwProofs.EncodeFromCodes | src/TextCompressor.java:51-53 | each codeword before Eof is the final trie's code for its phrase |
| LzwProofs.FirstPhrase | src/TextCompressor.java:51 | the first phrase is the longest match at the cursor and starts with the cursor's character |
| LzwProofs.EncodeFromCounter | src/TextCompressor.java:58-63 | the final counter is the start counter plus one per codeword except the last before Eof, capped at 4096 |
| LzwProofs.EncodeFromKeeps | src/TextCompressor.java:58-63 | compression never removes a key or changes its code |
| LzwProofs.LearnedFirst | src/TextCompressor.java:58-61 | the first learned phrase (first phrase plus first character of the second) ends under the starting `startCode` |
| LzwProofs.LearnedAt | src/TextCompressor.java:58-63 | the phrase learned after codeword k gets code `start + k` while codes remain |
| LzwProofs.EncodeFromRange | src/TextCompressor.java:41-69 | every codeword is in 0 .. 4095, the last is Eof and no earlier one is |
| LzwProofs.InitialMirrors | src/TextCompressor.java:43-46 | the expander's initial table is the inverse of the seeded trie |
| LzwProofs.MirrorsIsDecodeTable | src/TextCompressor.java:77-86 | a table inverse to a trie holds a non-empty phrase in every slot except Eof |
| LzwProofs.LearnMirrors | src/TextCompressor.java:58-61 | appending the learned phrase keeps the table inverse to the trie |
| LzwProofs.DecodeEntry | src/TextCompressor.java:98-109 | in step with the compressor, the expander decodes the codeword of the match (deferred entry included) to that match; its table then equals the compressor's |
| LzwProofs.SyncStep | src/TextCompressor.java:108-112 | after the step, expander and compressor are in step at the next cursor |
| LzwProofs.RoundTripStep | src/TextCompressor.java:49-66 | one codeword of the round trip: the rest of the stream is the compression of the rest of the text, and the expander writes the match |
| LzwProofs.RoundTripFrom | src/TextCompressor.java:94-112 | from any cursor at which the two are in step, expansion writes exactly the rest of the text and stops at Eof without failure |
| LzwProofs.SeedMatch | src/TextCompressor.java:43-51 | against the seeded trie alone, the longest match is one character |
| LzwProofs.RoundTrip | src/TextCompressor.java:37-115 | for every non-empty byte text, expansion of its compression is the text, with no failure |
| LzwProofs.EmptyInputQuirk | src/TextCompressor.java:87-94 | the empty text compresses to the lone Eof, and its expansion writes "" and then fails reading past the end |
| LzwProofs.RoundTripChecked | src/TextCompressor.java:87-95 | with the first codeword checked against Eof, expansion undoes compression for every byte text, the empty one included |
| LzwProofs.CodewordBounds | src/TextCompressor.java:41-69 | stream bounds and exactly one final Eof; at least two codewords for non-empty text; final `startCode` in 257 .. 4096; every trie code below it and not Eof |
| LzwProofs.Coverage | src/TextCompressor.java:49-66 | the phrases of the codewords before Eof are non-empty, spell the whole text, and each codeword is the final trie's code for its phrase |
| LzwProofs.CodeAssignment | src/TextCompressor.java:46-63 | codes 257, 258, ... go in order to the phrases learned after each codeword but the last; the final counter is `min(4096, 257 + phrases - 1)`, or 257 for the empty text |
| LzwProofs.EncodeFromMirrors | src/TextCompressor.java:49-67 | compression from a state that has an inverse code table ends in a state that has one too |
| LzwProofs.CodesUnique | src/TextCompressor.java:43-63 | no two keys of the final trie share a code |
| LzwProofs.TrieContents | src/TextCompressor.java:43-63 | the final trie holds the 256 bytes under their own values and, from 257 on, only the phrases learned after the codewords, each under `257 + k` |
| LzwProofs.SmallInputs | src/TextCompressor.java:49-69 | "" compresses to [256], a one-byte text c to [c, 256], and neither learns anything |
| LzwProofs.DecodeFromStopsAtEof | src/TextCompressor.java:94-97 | the expansion loop reads nothing after the first Eof: cutting the stream just past it changes neither output nor outcome |
| LzwProofs.DecodeStopsAtEof | src/TextCompressor.java:87-97 | for every stream, expansion stops at the first Eof after the first codeword; what follows is ignored |
| LzwProofs.BeyondTable | src/TextCompressor.java:100-105 | for every stream and table, a codeword past `maxCode` (other than Eof) is not rejected: it expands exactly as the deferred-entry codeword `maxCode`, to `val + val[0]` |
| LzwProofs.DecodeScenarios | src/TextCompressor.java:94-112 | on the streams [65, 257, 256], [65, 300, 256], [65, 256, 66, 256] and [65, 257, 65, 256]: "AAA", "AAA", "A" and "AAAA", without failure |
| LzwProofs.DecodeFailures | src/TextCompressor.java:87-104 | the three early stops: an exhausted stream, a first codeword naming a null slot, and an empty previous phrase whose first character is needed |

## Left out

- The bit-level I/O of `BinaryStdIn`/`BinaryStdOut` is not modelled: 12-bit big-endian packing, buffering, padding of the last byte and `close()`. Streams are sequences of codewords, and I/O is plumbing outside the algorithm.
- The trie's internals (ternary node links) are not modelled. It is a map with the same observable insert, lookup and longest-prefix behaviour; the `TST` class is not part of this model.
- PrefixDictionary.Tst.GetLongestPrefix walks to the end of the text instead of stopping where the trie has no further branch. The result is the same; only the running time differs.
- PrefixDictionary.Tst.Lookup returns an `Option`, because what the trie returns for a missing key is not part of this model. `Compress` proves that the miss never happens.
- `main`'s argument dispatch and its `IllegalArgumentException` are command-line plumbing.
- The commented-out debug prints are not modelled.
- The Java exceptions are not modelled as exceptions. Each one becomes a `Failure` value together with what was written before it:
  - `NoSuchElementException` on reading past the end of the stream;
  - the null `write` for a first codeword naming an empty slot;
  - `charAt(0)` on an empty previous phrase.
- The `codes[nextCode] != null` test is always true below `maxCode`, so the model takes it as the `nextCode < maxCode` test alone. Codes above `maxCode` are not rejected; they take the `val + val[0]` branch, as in the code.
- `BinaryStdIn.readString` is taken to return "" for an empty input. `BinaryStdIn` is not part of this model; if it throws there instead, `compress` emits nothing for the empty text.
- TextCompressor.Compress requires every character of the text to be below 256, which is what `readString` delivers. A wider character could not be looked up among the seeded bytes.

## Findings

| source | as written | input that shows it | evidently intended | confidence | as-written member | corrected member |
|---|---|---|---|---|---|---|
| src/TextCompressor.java:87-94 | the first codeword is written without an Eof test, and the loop then reads another codeword | the stream [256], which `compress` emits for the empty text when `readString` returns ""; `expand` writes slot 256 (""), then reads past the end of the stream and fails | a stream that starts with Eof expands to "" without failure, so the round trip holds for the empty text too | not executed | LzwProofs.EmptyInputQuirk | LzwProofs.RoundTripChecked |

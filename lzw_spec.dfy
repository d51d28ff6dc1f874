/**
 * The reference definition of the compressor's LZW scheme with 12-bit
 * codewords: what `compress` emits for a text, and what `expand` writes
 * for a codeword stream.
 */
module LzwSpec {
  import opened Wrappers
  import opened PrefixDictionary

  /** The end-of-stream codeword. */
  const Eof := 256
  /** The first code given to a learned phrase. */
  const FirstCode := 257
  /** Number of distinct codewords: 2 to the power 12, the width of every codeword in bits. */
  const CodesLen := 4096

  /** A value that a 12-bit read can return. */
  type Code = c: int | 0 <= c < CodesLen

  function Min(a: int, b: int): (r: int) { if a < b then a else b }

  /** Every character is a byte, as the bit-stream reader delivers them. */
  predicate IsByteText(s: string)
  {
    forall k :: 0 <= k < |s| ==> s[k] < 256 as char
  }

  /** The one-character phrase of byte `b`. */
  function Byte(b: int): (r: string)
    requires 0 <= b < Eof
  {
    [b as char]
  }

  /** The trie after inserting the one-character keys 0, 1, ..., k - 1 under their own values. */
  function Seeds(k: nat): (d: Dict)
    requires k <= Eof
    ensures forall b :: 0 <= b < k ==> Byte(b) in d && d[Byte(b)] == b
    ensures forall p :: p in d ==> 0 <= d[p] < k && p == Byte(d[p])
  {
    map b | 0 <= b < k :: Byte(b) := b
  }

  /** Every one-byte phrase is a key. */
  ghost predicate HasSeeds(d: Dict)
  {
    forall b :: 0 <= b < Eof ==> Byte(b) in d
  }

  /** With every byte a key, the longest match at a cursor inside a byte text is never empty. */
  lemma MatchNonEmpty(d: Dict, text: string, i: nat)
    requires IsByteText(text) && HasSeeds(d) && i < |text|
    ensures 0 < LongestMatch(d, text, i)
  {
    assert Byte(text[i] as int) == [text[i]] <= text[i..];
    LongestMatchIsLongest(d, text, i, Byte(text[i] as int));
  }

  /** The compressor's state between steps: the trie and the next free code (`startCode`). */
  datatype Encoder = Encoder(dict: Dict, next: int)

  function InitialEncoder(): Encoder
  {
    Encoder(Seeds(Eof), FirstCode)
  }

  /**
   * After matching `n` characters at cursor `i`: when a next character
   * exists and codes remain, the match plus that character is learned
   * under the next free code.
   */
  function Learn(e: Encoder, text: string, i: nat, n: nat): (r: Encoder)
    requires i + n <= |text|
    ensures r.next == e.next + 1 <==> i + n < |text| && e.next < CodesLen
    ensures r.next != e.next + 1 ==> r == e
  {
    if i + n < |text| && e.next < CodesLen
    then Encoder(e.dict[text[i..i + n] + [text[i + n]] := e.next], e.next + 1)
    else e
  }

  /** Learning keeps every one-byte phrase a key. */
  lemma LearnHasSeeds(e: Encoder, text: string, i: nat, n: nat)
    requires i + n <= |text| && HasSeeds(e.dict)
    ensures HasSeeds(Learn(e, text, i, n).dict)
  {
    var d := Learn(e, text, i, n).dict;
    forall b | 0 <= b < Eof
      ensures Byte(b) in d
    {
      assert Byte(b) in e.dict;
    }
  }

  /**
   * The codewords emitted, the phrase each non-Eof codeword stands for,
   * and the state the compressor ends in.
   */
  datatype Encoding = Encoding(codes: seq<int>, phrases: seq<string>, final: Encoder)

  /** Compression from cursor `i` on, starting in state `e`. */
  ghost function EncodeFrom(text: string, i: nat, e: Encoder): (r: Encoding)
    requires i <= |text| && IsByteText(text) && HasSeeds(e.dict)
    decreases |text| - i
    ensures |r.codes| == |r.phrases| + 1 && r.codes[|r.phrases|] == Eof
    ensures r.phrases == [] <==> i == |text|
  {
    if i == |text| then Encoding([Eof], [], e)
    else
      MatchNonEmpty(e.dict, text, i);
      var n := LongestMatch(e.dict, text, i);
      LearnHasSeeds(e, text, i, n);
      var rest := EncodeFrom(text, i + n, Learn(e, text, i, n));
      Encoding([e.dict[text[i..i + n]]] + rest.codes, [text[i..i + n]] + rest.phrases, rest.final)
  }

  /** One unfolding of compression at a cursor inside the text, with the match and the next state named. */
  lemma EncodeFromUnfold(text: string, i: nat, e: Encoder, n: nat, e': Encoder)
    requires IsByteText(text) && i < |text| && HasSeeds(e.dict)
    requires n == LongestMatch(e.dict, text, i) && e' == Learn(e, text, i, n)
    ensures 0 < n && i + n <= |text| && HasSeeds(e'.dict) && text[i..i + n] in e.dict
    ensures var rest := EncodeFrom(text, i + n, e');
            EncodeFrom(text, i, e)
            == Encoding([e.dict[text[i..i + n]]] + rest.codes, [text[i..i + n]] + rest.phrases, rest.final)
  {
    MatchNonEmpty(e.dict, text, i);
    LearnHasSeeds(e, text, i, n);
    var rest := EncodeFrom(text, i + n, e');
    var code := e.dict[text[i..i + n]];
    assert EncodeFrom(text, i, e) == Encoding([code] + rest.codes, [text[i..i + n]] + rest.phrases, rest.final);
  }

  /**
   * One step of compression: after the codes `done`, the code of the
   * longest match `prefix` is emitted and the encoder learns; compression
   * then goes on from `i'` (just past the match) with encoder `e'`.
   */
  lemma {:induction false} EncodeFromStep(text: string, i: nat, e: Encoder, prefix: string, done: seq<int>,
                       i': nat, e': Encoder, done': seq<int>)
    requires i < |text| && IsByteText(text) && HasSeeds(e.dict)
    requires prefix == text[i..i + LongestMatch(e.dict, text, i)]
    requires i' == i + |prefix| && e' == Learn(e, text, i, |prefix|)
    requires prefix in e.dict ==> done' == done + [e.dict[prefix]]
    ensures 0 < |prefix| && prefix in e.dict && i' <= |text| && HasSeeds(e'.dict)
    ensures done + EncodeFrom(text, i, e).codes == done' + EncodeFrom(text, i', e').codes
  {
    EncodeFromUnfold(text, i, e, |prefix|, e');
    var rest := EncodeFrom(text, i', e').codes;
    assert EncodeFrom(text, i, e).codes == [e.dict[prefix]] + rest;
    assert done + ([e.dict[prefix]] + rest) == (done + [e.dict[prefix]]) + rest;
  }

  /** Compression of a whole text, from the 256 seeded one-character keys. */
  ghost function Encode(text: string): (r: Encoding)
    requires IsByteText(text)
    ensures |r.codes| == |r.phrases| + 1 && r.codes[|r.phrases|] == Eof
    ensures r.phrases == [] <==> text == []
  {
    EncodeFrom(text, 0, InitialEncoder())
  }

  /** Why the expander stops early. */
  datatype Failure =
    | StreamExhausted  // a 12-bit read finds the stream at its end
    | NullPhrase       // the first codeword names an empty (null) slot, which cannot be written
    | EmptyPrevious    // the first character of an empty previous phrase is asked for

  /** What the expander has written, and the failure that stopped it, if any. */
  datatype Expansion = Expansion(written: string, failure: Option<Failure>)

  /** The filled slots of the expander's initial table: the bytes, then "" for Eof. */
  function InitialTable(): (t: seq<string>)
    ensures |t| == FirstCode && t[Eof] == []
    ensures forall c :: 0 <= c < Eof ==> t[c] == [c as char]
  {
    seq(FirstCode, c requires 0 <= c < FirstCode => if c < Eof then [c as char] else [])
  }

  /** The filled slots `0 .. maxCode - 1` of an expander's table: only slot Eof holds "". */
  ghost predicate IsDecodeTable(tab: seq<string>)
  {
    && FirstCode <= |tab| <= CodesLen
    && forall c :: 0 <= c < |tab| && c != Eof ==> tab[c] != []
  }

  /**
   * Expansion of the codewords `rest`, with `tab` the filled slots
   * (`|tab|` is `maxCode`) and `val` the phrase written last.
   */
  function DecodeFrom(rest: seq<Code>, tab: seq<string>, val: string): (r: Expansion)
    requires IsDecodeTable(tab)
    decreases |rest|
    ensures r.failure == None ==> Eof in rest
    ensures r.failure != Some(NullPhrase)
  {
    if rest == [] then Expansion([], Some(StreamExhausted))
    else if rest[0] == Eof then Expansion([], None)
    else if rest[0] >= |tab| && val == [] then Expansion([], Some(EmptyPrevious))
    else
      var entry := if rest[0] < |tab| then tab[rest[0]] else val + [val[0]];
      var tab' := if |tab| < CodesLen then tab + [val + [entry[0]]] else tab;
      var more := DecodeFrom(rest[1..], tab', entry);
      assert rest == [rest[0]] + rest[1..];
      Expansion(entry + more.written, more.failure)
  }

  /**
   * One step of expansion at `pos`: a codeword other than Eof, and not
   * the failing case, writes `entry` and goes on with table `tab'`.
   */
  lemma DecodeFromNext(input: seq<Code>, pos: nat, tab: seq<string>, val: string, entry: string, tab': seq<string>,
                       written: string)
    requires IsDecodeTable(tab) && pos < |input| && input[pos] != Eof
    requires input[pos] < |tab| || val != []
    requires entry == if input[pos] < |tab| then tab[input[pos]] else val + [val[0]]
    requires tab' == if |tab| < CodesLen then tab + [val + [entry[0]]] else tab
    ensures entry != [] && IsDecodeTable(tab')
    ensures written + DecodeFrom(input[pos..], tab, val).written
            == (written + entry) + DecodeFrom(input[pos + 1..], tab', entry).written
    ensures DecodeFrom(input[pos..], tab, val).failure == DecodeFrom(input[pos + 1..], tab', entry).failure
  {
    assert input[pos..][1..] == input[pos + 1..];
    var more := DecodeFrom(input[pos + 1..], tab', entry);
    assert written + (entry + more.written) == (written + entry) + more.written;
  }

  /** Expansion of a whole codeword stream; the first codeword is written without an Eof test. */
  function Decode(codes: seq<Code>): (r: Expansion)
    ensures r.failure == None ==> codes != [] && Eof in codes[1..]
    ensures r.failure == Some(NullPhrase) <==> codes != [] && codes[0] >= FirstCode
  {
    if codes == [] then Expansion([], Some(StreamExhausted))
    else if codes[0] >= FirstCode then Expansion([], Some(NullPhrase))
    else
      var val := InitialTable()[codes[0]];
      var more := DecodeFrom(codes[1..], InitialTable(), val);
      Expansion(val + more.written, more.failure)
  }

  /**
   * Expansion with the Eof test that the loop makes applied to the first
   * codeword as well: a stream that starts with Eof expands to nothing.
   */
  function DecodeChecked(codes: seq<Code>): (r: Expansion)
    ensures codes != [] && codes[0] == Eof ==> r == Expansion([], None)
  {
    if codes != [] && codes[0] == Eof then Expansion([], None) else Decode(codes)
  }
}

/**
 * The compressor's two routines, step by step as they run: `Compress`
 * grows a trie while it emits codewords, `Expand` fills a 4096-slot
 * table while it writes phrases. Each is proved to compute its reference
 * definition in LzwSpec.
 */
module TextCompressor {
  import opened Wrappers
  import opened PrefixDictionary
  import opened LzwSpec

  /**
   * Emits, for each longest known phrase at the cursor, its code; learns
   * the phrase plus the next character while codes remain; ends with Eof.
   */
  method Compress(text: string) returns (out: seq<int>)
    requires IsByteText(text)
    ensures out == Encode(text).codes
  {
    var codes := new Tst();
    SeedTrie(codes);
    var startCode := FirstCode;
    out := [];
    var i := 0;
    ghost var enc := InitialEncoder();
    while i < |text|
      invariant i <= |text| && enc.dict == codes.entries && enc.next == startCode && HasSeeds(enc.dict)
      invariant out + EncodeFrom(text, i, enc).codes == Encode(text).codes
      decreases |text| - i
    {
      var prefix := codes.GetLongestPrefix(text, i);
      MatchNonEmpty(enc.dict, text, i);
      ghost var out0, i0, enc0 := out, i, enc;
      var found := codes.Lookup(prefix);
      if found.None? {
        assert false;
      }
      out := out + [found.value];
      startCode := LearnNext(codes, startCode, text, i, prefix);
      enc, i := Learn(enc, text, i, |prefix|), i + |prefix|;
      EncodeFromStep(text, i0, enc0, prefix, out0, i, enc, out);
    }
    out := out + [Eof];
  }

  /**
   * While the match is not at the end of the text and codes remain, stores
   * the match extended by the next character under `startCode` and takes
   * the next code; otherwise changes nothing.
   */
  method LearnNext(codes: Tst, startCode: int, text: string, i: nat, prefix: string) returns (nextFree: int)
    requires i + |prefix| <= |text| && prefix == text[i..i + |prefix|]
    modifies codes
    ensures Encoder(codes.entries, nextFree) == Learn(Encoder(old(codes.entries), startCode), text, i, |prefix|)
  {
    nextFree := startCode;
    if i + |prefix| < |text| && startCode < CodesLen {
      codes.Insert(prefix + [text[i + |prefix|]], startCode);
      nextFree := startCode + 1;
    }
  }

  /** Inserts each one-character phrase 0 .. 255 under its own value. */
  method SeedTrie(codes: Tst)
    requires codes.entries == map[]
    modifies codes
    ensures codes.entries == Seeds(Eof) && HasSeeds(codes.entries)
  {
    var b := 0;
    while b < Eof
      invariant 0 <= b <= Eof && codes.entries == Seeds(b)
    {
      SeedsGrow(b);
      codes.Insert(Byte(b), b);
      b := b + 1;
    }
  }

  /** Seeding byte `b` after the bytes below it gives the seeds up to `b`. */
  lemma SeedsGrow(b: nat)
    requires b < Eof
    ensures Seeds(b)[Byte(b) := b] == Seeds(b + 1)
  {
    var d, d' := Seeds(b)[Byte(b) := b], Seeds(b + 1);
    forall p | p in d'
      ensures p in d && d[p] == d'[p]
    {
      assert p == Byte(d'[p]);
    }
  }

  /** The 4096 slots `s` hold the phrases `tab` in the slots below `|tab|` and are null above. */
  ghost predicate TableIs(s: seq<Option<string>>, tab: seq<string>)
  {
    && |s| == CodesLen && |tab| <= CodesLen
    && (forall c :: 0 <= c < |tab| ==> s[c] == Some(tab[c]))
    && (forall c :: |tab| <= c < CodesLen ==> s[c] == None)
  }

  /** Filling the first null slot with `phrase` appends `phrase` to the phrases held. */
  lemma TableIsGrow(s: seq<Option<string>>, tab: seq<string>, phrase: string)
    requires TableIs(s, tab) && |tab| < CodesLen
    ensures TableIs(s[|tab| := Some(phrase)], tab + [phrase])
  {
  }

  /** A fresh 4096-slot table: the one-byte phrases, "" at Eof, and every other slot null. */
  method NewCodeTable() returns (codes: array<Option<string>>)
    ensures fresh(codes) && codes.Length == CodesLen
    ensures forall c :: 0 <= c < Eof ==> codes[c] == Some([c as char])
    ensures codes[Eof] == Some([])
    ensures forall c :: FirstCode <= c < CodesLen ==> codes[c] == None
    ensures TableIs(codes[..], InitialTable())
  {
    codes := new Option<string>[CodesLen](_ => None);
    var i := 0;
    while i <= Eof
      invariant 0 <= i <= FirstCode
      invariant forall c :: 0 <= c < i ==> codes[c] == Some(InitialTable()[c])
      invariant forall c :: i <= c < CodesLen ==> codes[c] == None
    {
      codes[i] := Some([i as char]);
      if i == Eof {
        codes[i] := Some([]);
      }
      i := i + 1;
    }
  }

  /**
   * Writes the phrase of each codeword up to Eof, rebuilding the
   * compressor's codes one step behind it; stops with a failure where the
   * Java code would throw.
   */
  method Expand(input: seq<Code>) returns (written: string, failure: Option<Failure>)
    ensures Expansion(written, failure) == Decode(input)
  {
    var codes := NewCodeTable();
    var maxCode := FirstCode;
    if |input| == 0 {
      return [], Some(StreamExhausted);
    }
    var valCode := input[0];
    var pos := 1;
    if codes[valCode].None? {
      return [], Some(NullPhrase);
    }
    var val := codes[valCode].value;
    written := val;
    ghost var tab := InitialTable();
    while true
      invariant 1 <= pos <= |input|
      invariant FirstCode <= maxCode <= CodesLen && |tab| == maxCode && IsDecodeTable(tab)
      invariant codes.Length == CodesLen && TableIs(codes[..], tab)
      invariant Decode(input) == Expansion(written + DecodeFrom(input[pos..], tab, val).written,
                                           DecodeFrom(input[pos..], tab, val).failure)
      decreases |input| - pos
    {
      if pos == |input| {
        failure := Some(StreamExhausted);
        return;
      }
      var nextCode := input[pos];
      pos := pos + 1;
      if nextCode == Eof {
        break;
      }
      var entry;
      if nextCode < maxCode && codes[nextCode].Some? {
        entry := codes[nextCode].value;
      } else {
        if val == [] {
          failure := Some(EmptyPrevious);
          return;
        }
        entry := val + [val[0]];
      }
      ghost var tab' := if |tab| < CodesLen then tab + [val + [entry[0]]] else tab;
      DecodeFromNext(input, pos - 1, tab, val, entry, tab', written);
      written := written + entry;
      if maxCode < CodesLen {
        TableIsGrow(codes[..], tab, val + [entry[0]]);
        codes[maxCode] := Some(val + [entry[0]]);
        maxCode := maxCode + 1;
        tab := tab + [val + [entry[0]]];
      }
      val := entry;
    }
    failure := None;
  }

  /** `Expand` with the first codeword checked against Eof before it is written. */
  method ExpandChecked(input: seq<Code>) returns (written: string, failure: Option<Failure>)
    ensures Expansion(written, failure) == DecodeChecked(input)
  {
    if |input| > 0 && input[0] == Eof {
      return [], None;
    }
    written, failure := Expand(input);
  }
}

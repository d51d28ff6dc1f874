/**
 * Properties of the LZW reference definition: the shape of the codeword
 * stream, how codes are assigned to learned phrases, that the phrases of
 * the codewords spell the text, and that expansion undoes compression.
 */
module LzwProofs {
  import opened Wrappers
  import opened PrefixDictionary
  import opened LzwSpec

  /** The phrases `ps`, one after another. */
  function Concat(ps: seq<string>): (r: string)
  {
    if ps == [] then [] else ps[0] + Concat(ps[1..])
  }

  /**
   * What holds of the compressor's state at every step: the counter stays
   * within 257 .. 4096, every byte is a key, and every key is a non-empty
   * phrase whose code is below the counter and is not Eof.
   */
  ghost predicate DictInv(e: Encoder)
  {
    && FirstCode <= e.next <= CodesLen
    && HasSeeds(e.dict)
    && forall p :: p in e.dict ==> p != [] && 0 <= e.dict[p] < e.next && e.dict[p] != Eof
  }

  /** `d` keeps every key of `d0` with its code. */
  ghost predicate Extends(d: Dict, d0: Dict)
  {
    forall p :: p in d0 ==> p in d && d[p] == d0[p]
  }

  lemma InitialDictInv()
    ensures DictInv(InitialEncoder())
  {
  }

  /**
   * The phrase learned after a longest match is never already a key: it
   * is a longer prefix of the text than the match.
   */
  lemma LearnedIsNew(e: Encoder, text: string, i: nat)
    requires i <= |text|
    requires i + LongestMatch(e.dict, text, i) < |text|
    ensures var n := LongestMatch(e.dict, text, i);
            text[i..i + n] + [text[i + n]] !in e.dict
  {
    var n := LongestMatch(e.dict, text, i);
    var key := text[i..i + n] + [text[i + n]];
    assert key == text[i..i + n + 1];
    if key in e.dict {
      LongestMatchIsLongest(e.dict, text, i, key);
    }
  }

  /**
   * One learning step after a longest match keeps the invariant, keeps
   * every old key with its code, and gives the new phrase (the match plus
   * the next character) the next free code.
   */
  lemma LearnKeepsDict(e: Encoder, text: string, i: nat)
    requires IsByteText(text) && i < |text| && DictInv(e)
    ensures var n := LongestMatch(e.dict, text, i);
            var e' := Learn(e, text, i, n);
            && DictInv(e')
            && Extends(e'.dict, e.dict)
            && (if i + n < |text| && e.next < CodesLen
                then e'.next == e.next + 1 && e'.dict[text[i..i + n] + [text[i + n]]] == e.next
                else e' == e)
  {
    var n := LongestMatch(e.dict, text, i);
    MatchNonEmpty(e.dict, text, i);
    if i + n < |text| && e.next < CodesLen {
      LearnedIsNew(e, text, i);
    }
  }

  /**
   * Compression from cursor `i` ends in a state that keeps the invariant
   * and every key of the start state.
   */
  lemma {:induction false} EncodeFromDict(text: string, i: nat, e: Encoder)
    requires IsByteText(text) && i <= |text| && DictInv(e)
    decreases |text| - i
    ensures DictInv(EncodeFrom(text, i, e).final)
    ensures Extends(EncodeFrom(text, i, e).final.dict, e.dict)
  {
    if i < |text| {
      var n := LongestMatch(e.dict, text, i);
      var e' := Learn(e, text, i, n);
      EncodeFromUnfold(text, i, e, n, e');
      LearnKeepsDict(e, text, i);
      EncodeFromDict(text, i + n, e');
      var final := EncodeFrom(text, i + n, e').final;
      assert EncodeFrom(text, i, e).final == final;
      forall p | p in e.dict
        ensures p in final.dict && final.dict[p] == e.dict[p]
      {
        assert p in e'.dict;
      }
    }
  }

  /**
   * Compression from cursor `i`: one phrase per codeword before the final
   * Eof, each phrase non-empty, and the phrases spelling the rest of the
   * text.
   */
  lemma {:induction false} EncodeFromShape(text: string, i: nat, e: Encoder)
    requires IsByteText(text) && i <= |text| && HasSeeds(e.dict)
    decreases |text| - i
    ensures var r := EncodeFrom(text, i, e);
            && (forall k :: 0 <= k < |r.phrases| ==> r.phrases[k] != [])
            && Concat(r.phrases) == text[i..]
  {
    EncodeFromNonEmpty(text, i, e);
    EncodeFromSpells(text, i, e);
  }

  /** Every phrase of a compression is non-empty. */
  lemma {:induction false} EncodeFromNonEmpty(text: string, i: nat, e: Encoder)
    requires IsByteText(text) && i <= |text| && HasSeeds(e.dict)
    decreases |text| - i
    ensures var ps := EncodeFrom(text, i, e).phrases;
            forall k :: 0 <= k < |ps| ==> ps[k] != []
  {
    if i < |text| {
      var n := LongestMatch(e.dict, text, i);
      var e' := Learn(e, text, i, n);
      EncodeFromUnfold(text, i, e, n, e');
      EncodeFromNonEmpty(text, i + n, e');
      var ps, rest := EncodeFrom(text, i, e).phrases, EncodeFrom(text, i + n, e').phrases;
      assert ps == [text[i..i + n]] + rest;
      forall k | 0 <= k < |ps|
        ensures ps[k] != []
      {
        if k > 0 {
          assert ps[k] == rest[k - 1];
        }
      }
    }
  }

  /** The phrases of a compression from cursor `i`, one after another, are the rest of the text. */
  lemma {:induction false} EncodeFromSpells(text: string, i: nat, e: Encoder)
    requires IsByteText(text) && i <= |text| && HasSeeds(e.dict)
    decreases |text| - i
    ensures Concat(EncodeFrom(text, i, e).phrases) == text[i..]
  {
    if i < |text| {
      var n := LongestMatch(e.dict, text, i);
      var e' := Learn(e, text, i, n);
      EncodeFromUnfold(text, i, e, n, e');
      EncodeFromSpells(text, i + n, e');
      var ps, rest := EncodeFrom(text, i, e).phrases, EncodeFrom(text, i + n, e').phrases;
      assert ps[0] == text[i..i + n] && ps[1..] == rest;
      assert Concat(ps) == text[i..i + n] + Concat(rest);
      SplitAt(text, i, i + n);
    }
  }

  /** Each codeword before Eof is the final dictionary's code for its phrase. */
  lemma {:induction false} EncodeFromCodes(text: string, i: nat, e: Encoder)
    requires IsByteText(text) && i <= |text| && DictInv(e)
    decreases |text| - i
    ensures var r := EncodeFrom(text, i, e);
            && |r.codes| == |r.phrases| + 1
            && forall k :: 0 <= k < |r.phrases| ==>
                 r.phrases[k] in r.final.dict && r.codes[k] == r.final.dict[r.phrases[k]]
  {
    if i < |text| {
      var n := LongestMatch(e.dict, text, i);
      MatchNonEmpty(e.dict, text, i);
      var e' := Learn(e, text, i, n);
      LearnKeepsDict(e, text, i);
      EncodeFromCodes(text, i + n, e');
      EncodeFromDict(text, i + n, e');
      var r, rest := EncodeFrom(text, i, e), EncodeFrom(text, i + n, e');
      assert r.codes == [e.dict[text[i..i + n]]] + rest.codes;
      assert r.phrases == [text[i..i + n]] + rest.phrases;
      assert r.final == rest.final;
      forall k | 0 <= k < |r.phrases|
        ensures r.phrases[k] in r.final.dict && r.codes[k] == r.final.dict[r.phrases[k]]
      {
        if k > 0 {
          assert r.phrases[k] == rest.phrases[k - 1] && r.codes[k] == rest.codes[k - 1];
        }
      }
    }
  }

  /** The first phrase of a compression that has text left is the longest match at the cursor. */
  lemma {:induction false} FirstPhrase(text: string, i: nat, e: Encoder)
    requires IsByteText(text) && i < |text| && HasSeeds(e.dict)
    ensures var r := EncodeFrom(text, i, e);
            && 0 < |r.phrases| && 0 < LongestMatch(e.dict, text, i)
            && r.phrases[0] == text[i..i + LongestMatch(e.dict, text, i)]
            && r.phrases[0][0] == text[i]
  {
    MatchNonEmpty(e.dict, text, i);
  }

  /**
   * The counter after compression from cursor `i`: one code learned per
   * codeword except the last, and none once 4096 is reached.
   */
  lemma {:induction false} EncodeFromCounter(text: string, i: nat, e: Encoder)
    requires IsByteText(text) && i <= |text| && HasSeeds(e.dict) && e.next <= CodesLen
    decreases |text| - i
    ensures var r := EncodeFrom(text, i, e);
            r.final.next == if i == |text| then e.next else Min(CodesLen, e.next + |r.phrases| - 1)
  {
    if i < |text| {
      var n := LongestMatch(e.dict, text, i);
      var e' := Learn(e, text, i, n);
      EncodeFromUnfold(text, i, e, n, e');
      EncodeFromCounter(text, i + n, e');
      var r, rest := EncodeFrom(text, i, e), EncodeFrom(text, i + n, e');
      assert |r.phrases| == |rest.phrases| + 1 && r.final == rest.final;
      if i + n < |text| {
        assert e'.next == Min(CodesLen, e.next + 1);
      } else {
        assert rest.phrases == [] && e' == e;
      }
    }
  }

  /** The phrase learned after codeword `k`: its phrase and the first character of the next one. */
  function LearnedPhrase(ps: seq<string>, k: nat): (r: string)
    requires k + 1 < |ps| && ps[k + 1] != []
  {
    ps[k] + [ps[k + 1][0]]
  }

  /** A learning step after a longest match keeps the key `p` with its code. */
  lemma LearnKeepsEntry(e: Encoder, text: string, i: nat, p: string)
    requires i <= |text| && p in e.dict
    ensures var e' := Learn(e, text, i, LongestMatch(e.dict, text, i));
            p in e'.dict && e'.dict[p] == e.dict[p]
  {
    var n := LongestMatch(e.dict, text, i);
    if i + n < |text| && e.next < CodesLen {
      LearnedIsNew(e, text, i);
    }
  }

  /** Compression never removes a key or changes its code: only new phrases are learned. */
  lemma {:induction false} EncodeFromKeeps(text: string, i: nat, e: Encoder, p: string)
    requires IsByteText(text) && i <= |text| && HasSeeds(e.dict) && p in e.dict
    decreases |text| - i
    ensures p in EncodeFrom(text, i, e).final.dict && EncodeFrom(text, i, e).final.dict[p] == e.dict[p]
  {
    if i < |text| {
      var n := LongestMatch(e.dict, text, i);
      var e' := Learn(e, text, i, n);
      EncodeFromUnfold(text, i, e, n, e');
      LearnKeepsEntry(e, text, i, p);
      EncodeFromKeeps(text, i + n, e', p);
    }
  }

  /**
   * The first learning step: the first phrase followed by the first
   * character of the second is learned under the first free code, and the
   * final dictionary keeps it.
   */
  lemma {:induction false} LearnedFirst(text: string, i: nat, e: Encoder)
    requires IsByteText(text) && i <= |text| && HasSeeds(e.dict) && e.next < CodesLen
    requires 1 < |EncodeFrom(text, i, e).phrases|
    ensures var r := EncodeFrom(text, i, e);
            && r.phrases[1] != []
            && LearnedPhrase(r.phrases, 0) in r.final.dict
            && r.final.dict[LearnedPhrase(r.phrases, 0)] == e.next
  {
    var n := LongestMatch(e.dict, text, i);
    var e' := Learn(e, text, i, n);
    EncodeFromUnfold(text, i, e, n, e');
    var ps, rest := EncodeFrom(text, i, e).phrases, EncodeFrom(text, i + n, e').phrases;
    assert ps == [text[i..i + n]] + rest;
    assert i + n < |text|;
    FirstPhrase(text, i + n, e');
    var key := text[i..i + n] + [text[i + n]];
    assert ps[0] == text[i..i + n] && ps[1][0] == rest[0][0] == text[i + n];
    assert LearnedPhrase(ps, 0) == key;
    assert e'.dict == e.dict[key := e.next];
    EncodeFromKeeps(text, i + n, e', key);
  }

  /**
   * Codes are learned in order: the phrase learned after codeword `k` gets
   * the `k`-th free code from the start, while codes remain.
   */
  lemma {:induction false} LearnedAt(text: string, i: nat, e: Encoder, k: nat)
    requires IsByteText(text) && i <= |text| && HasSeeds(e.dict)
    requires k + 1 < |EncodeFrom(text, i, e).phrases| && e.next + k < CodesLen
    decreases k
    ensures var r := EncodeFrom(text, i, e);
            && r.phrases[k + 1] != []
            && LearnedPhrase(r.phrases, k) in r.final.dict
            && r.final.dict[LearnedPhrase(r.phrases, k)] == e.next + k
  {
    if k == 0 {
      LearnedFirst(text, i, e);
    } else {
      var n := LongestMatch(e.dict, text, i);
      var e' := Learn(e, text, i, n);
      EncodeFromUnfold(text, i, e, n, e');
      var r, rest := EncodeFrom(text, i, e), EncodeFrom(text, i + n, e');
      assert r.phrases == [text[i..i + n]] + rest.phrases;
      assert i + n < |text| && e'.next == e.next + 1;
      LearnedAt(text, i + n, e', k - 1);
      assert r.phrases[k + 1] == rest.phrases[k] && r.phrases[k] == rest.phrases[k - 1];
      assert LearnedPhrase(r.phrases, k) == LearnedPhrase(rest.phrases, k - 1);
    }
  }

  /** Every codeword of a compression is a 12-bit value, and only the last is Eof. */
  lemma {:induction false} EncodeFromRange(text: string, i: nat, e: Encoder)
    requires IsByteText(text) && i <= |text| && DictInv(e)
    ensures var codes := EncodeFrom(text, i, e).codes;
            && 0 < |codes| && codes[|codes| - 1] == Eof
            && (forall k :: 0 <= k < |codes| ==> 0 <= codes[k] < CodesLen)
            && (forall k :: 0 <= k < |codes| - 1 ==> codes[k] != Eof)
  {
    EncodeFromShape(text, i, e);
    EncodeFromCodes(text, i, e);
    EncodeFromDict(text, i, e);
  }

  /**
   * The compressor's dictionary read backwards: `t[c]` is the phrase of
   * code `c`, for every code given out so far (slot Eof is unused).
   */
  ghost predicate Mirrors(e: Encoder, t: seq<string>)
  {
    && |t| == e.next
    && (forall p :: p in e.dict ==> 0 <= e.dict[p] < |t| && t[e.dict[p]] == p)
    && (forall c :: 0 <= c < |t| && c != Eof ==> t[c] in e.dict && e.dict[t[c]] == c)
  }

  lemma InitialMirrors()
    ensures Mirrors(InitialEncoder(), InitialTable())
  {
    var d, t := Seeds(Eof), InitialTable();
    forall c | 0 <= c < |t| && c != Eof
      ensures t[c] in d && d[t[c]] == c
    {
      assert t[c] == Byte(c);
    }
  }

  /** A mirrored table is a valid expander table. */
  lemma MirrorsIsDecodeTable(e: Encoder, t: seq<string>)
    requires DictInv(e) && Mirrors(e, t)
    ensures IsDecodeTable(t)
  {
  }

  /** The table after a learning step: one more slot, holding the learned phrase, when one is learned. */
  function LearnTable(e: Encoder, t: seq<string>, text: string, i: nat, n: nat): (r: seq<string>)
    requires i + n <= |text|
  {
    if i + n < |text| && e.next < CodesLen then t + [text[i..i + n] + [text[i + n]]] else t
  }

  /** A learning step after a longest match keeps the table in step with the dictionary. */
  lemma {:induction false} LearnMirrors(e: Encoder, t: seq<string>, text: string, i: nat)
    requires IsByteText(text) && i < |text| && DictInv(e) && Mirrors(e, t)
    ensures var n := LongestMatch(e.dict, text, i);
            Mirrors(Learn(e, text, i, n), LearnTable(e, t, text, i, n))
  {
    var n := LongestMatch(e.dict, text, i);
    if i + n < |text| && e.next < CodesLen {
      LearnedIsNew(e, text, i);
      var key := text[i..i + n] + [text[i + n]];
      var e', t' := Learn(e, text, i, n), t + [key];
      assert e'.dict == e.dict[key := e.next] && |t'| == e'.next;
      forall c | 0 <= c < |t'| && c != Eof
        ensures t'[c] in e'.dict && e'.dict[t'[c]] == c
      {
        if c < |t| {
          assert t'[c] == t[c] && t[c] != key;
        }
      }
    }
  }

  /**
   * Expander and compressor in step at cursor `i`, before the codeword
   * for the match there: the expander's table `tab` is the compressor's
   * table `t` less the phrase learned last, `val` (the phrase written
   * last) followed by the next character, while the expander has room
   * for it.
   */
  ghost predicate Sync(text: string, i: nat, t: seq<string>, tab: seq<string>, val: string)
  {
    && i < |text| && val != [] && IsDecodeTable(tab)
    && t == if |tab| < CodesLen then tab + [val + [text[i]]] else tab
  }

  /**
   * In step, the expander turns the compressor's codeword for the match
   * at `i` into that match, and its table then equals the compressor's.
   */
  lemma {:induction false} DecodeEntry(text: string, i: nat, e: Encoder, t: seq<string>, tab: seq<string>, val: string,
                                       prefix: string, codes: seq<Code>)
    requires IsByteText(text) && DictInv(e) && Mirrors(e, t) && Sync(text, i, t, tab, val)
    requires prefix == text[i..i + LongestMatch(e.dict, text, i)]
    requires 0 < |codes| && prefix in e.dict && codes[0] == e.dict[prefix]
    ensures IsDecodeTable(t)
    ensures DecodeFrom(codes, tab, val)
            == Expansion(prefix + DecodeFrom(codes[1..], t, prefix).written, DecodeFrom(codes[1..], t, prefix).failure)
  {
    var code := e.dict[prefix];
    MirrorsIsDecodeTable(e, t);
    assert prefix[0] == text[i];
    var entry := if code < |tab| then tab[code] else val + [val[0]];
    assert entry == prefix;
    assert (if |tab| < CodesLen then tab + [val + [entry[0]]] else tab) == t;
  }

  /** After the step at `i`, expander and compressor are in step again at the next cursor. */
  lemma {:induction false} SyncStep(text: string, i: nat, e: Encoder, t: seq<string>)
    requires IsByteText(text) && i < |text| && DictInv(e) && Mirrors(e, t)
    ensures var n := LongestMatch(e.dict, text, i);
            && IsDecodeTable(t)
            && (i + n < |text| ==> Sync(text, i + n, LearnTable(e, t, text, i, n), t, text[i..i + n]))
  {
    MatchNonEmpty(e.dict, text, i);
    MirrorsIsDecodeTable(e, t);
  }

  lemma SplitAt(s: string, i: nat, j: nat)
    requires i <= j <= |s|
    ensures s[i..] == s[i..j] + s[j..]
  {
  }

  /**
   * One codeword of the round trip: the compressor emits the code of the
   * match `text[i..i']` and moves to `e'`, `t'`; the expander writes that
   * match, and the two are in step again at `i'`.
   */
  lemma {:induction false} RoundTripStep(text: string, i: nat, e: Encoder, t: seq<string>, tab: seq<string>, val: string,
                                         codes: seq<Code>, i': nat, e': Encoder, t': seq<string>)
    requires IsByteText(text) && i < |text| && DictInv(e) && Mirrors(e, t) && Sync(text, i, t, tab, val)
    requires codes == EncodeFrom(text, i, e).codes
    requires i' == i + LongestMatch(e.dict, text, i)
    requires var n := LongestMatch(e.dict, text, i);
             e' == Learn(e, text, i, n) && t' == LearnTable(e, t, text, i, n)
    ensures i < i' <= |text| && DictInv(e') && Mirrors(e', t') && IsDecodeTable(t)
    ensures i' < |text| ==> Sync(text, i', t', t, text[i..i'])
    ensures 0 < |codes| && codes[1..] == EncodeFrom(text, i', e').codes
    ensures DecodeFrom(codes, tab, val)
            == Expansion(text[i..i'] + DecodeFrom(codes[1..], t, text[i..i']).written,
                         DecodeFrom(codes[1..], t, text[i..i']).failure)
  {
    MatchNonEmpty(e.dict, text, i);
    LearnKeepsDict(e, text, i);
    LearnMirrors(e, t, text, i);
    var prefix := text[i..i'];
    assert codes == [e.dict[prefix]] + EncodeFrom(text, i', e').codes;
    DecodeEntry(text, i, e, t, tab, val, prefix, codes);
    SyncStep(text, i, e, t);
  }

  /**
   * Expansion undoes compression from any cursor at which expander and
   * compressor are in step; at the end of the text the expander reads Eof.
   */
  lemma {:induction false} RoundTripFrom(text: string, i: nat, e: Encoder, t: seq<string>, tab: seq<string>, val: string,
                                         codes: seq<Code>)
    requires IsByteText(text) && i <= |text| && DictInv(e) && Mirrors(e, t) && IsDecodeTable(tab)
    requires i < |text| ==> Sync(text, i, t, tab, val)
    requires codes == EncodeFrom(text, i, e).codes
    decreases |text| - i
    ensures DecodeFrom(codes, tab, val) == Expansion(text[i..], None)
  {
    if i < |text| {
      var n := LongestMatch(e.dict, text, i);
      var i', e', t' := i + n, Learn(e, text, i, n), LearnTable(e, t, text, i, n);
      RoundTripStep(text, i, e, t, tab, val, codes, i', e', t');
      var rest := codes[1..];
      RoundTripFrom(text, i', e', t', t, text[i..i'], rest);
      SplitAt(text, i, i');
    }
  }

  /** Against the seeded dictionary alone, the longest match is the one byte at the cursor. */
  lemma SeedMatch(text: string, i: nat)
    requires IsByteText(text) && i < |text|
    ensures LongestMatch(Seeds(Eof), text, i) == 1
  {
    var d := Seeds(Eof);
    MatchNonEmpty(d, text, i);
    var n := LongestMatch(d, text, i);
    assert text[i..i + n] == Byte(d[text[i..i + n]]);
  }

  /** The compressor's output as the 12-bit values the expander reads. */
  ghost function Codewords(text: string): (r: seq<Code>)
    requires IsByteText(text)
    ensures r == Encode(text).codes
  {
    InitialDictInv();
    EncodeFromRange(text, 0, InitialEncoder());
    Encode(text).codes
  }

  /** Expansion undoes compression for every non-empty byte text. */
  lemma RoundTrip(text: string)
    requires IsByteText(text) && text != []
    ensures var codes := Codewords(text);
            && 1 < |codes| && codes[0] == text[0] as int
            && Decode(codes) == Expansion(text, None)
  {
    var e0, t0 := InitialEncoder(), InitialTable();
    InitialDictInv();
    InitialMirrors();
    MirrorsIsDecodeTable(e0, t0);
    SeedMatch(text, 0);
    var codes := Codewords(text);
    var e1, t1 := Learn(e0, text, 0, 1), LearnTable(e0, t0, text, 0, 1);
    LearnKeepsDict(e0, text, 0);
    LearnMirrors(e0, t0, text, 0);
    assert text[0..1] == Byte(text[0] as int);
    assert codes == [e0.dict[text[0..1]]] + EncodeFrom(text, 1, e1).codes;
    var val := t0[codes[0]];
    assert val == [text[0]];
    var rest := codes[1..];
    RoundTripFrom(text, 1, e1, t1, t0, val, rest);
    SplitAt(text, 0, 1);
    EncodeFromRange(text, 1, e1);
  }

  /**
   * A stream for the empty text is the lone Eof, and the expander writes
   * that first codeword's empty slot without testing it for Eof, then
   * reads past the end of the stream.
   */
  lemma EmptyInputQuirk()
    ensures Codewords([]) == [Eof]
    ensures Decode(Codewords([])) == Expansion([], Some(StreamExhausted))
  {
    assert Encode([]).codes == [Eof];
  }

  /** With the first codeword checked against Eof, expansion undoes compression for every byte text. */
  lemma RoundTripChecked(text: string)
    requires IsByteText(text)
    ensures DecodeChecked(Codewords(text)) == Expansion(text, None)
  {
    if text == [] {
      EmptyInputQuirk();
    } else {
      RoundTrip(text);
    }
  }

  /**
   * The codeword stream: 12-bit values ending in the one Eof, at least one
   * codeword before it for a non-empty text; every code in the trie is a
   * byte or a learned code in 257 .. 4095.
   */
  lemma CodewordBounds(text: string)
    requires IsByteText(text)
    ensures var r := Encode(text);
            && 0 < |r.codes| && r.codes[|r.codes| - 1] == Eof
            && (forall k :: 0 <= k < |r.codes| ==> 0 <= r.codes[k] < CodesLen)
            && (forall k :: 0 <= k < |r.codes| - 1 ==> r.codes[k] != Eof)
            && (text != [] ==> 2 <= |r.codes|)
            && FirstCode <= r.final.next <= CodesLen
            && forall p :: p in r.final.dict ==> 0 <= r.final.dict[p] < r.final.next && r.final.dict[p] != Eof
  {
    var e := InitialEncoder();
    InitialDictInv();
    EncodeFromRange(text, 0, e);
    EncodeFromDict(text, 0, e);
    if text != [] {
      FirstPhrase(text, 0, e);
      EncodeFromShape(text, 0, e);
    }
  }

  /**
   * The phrases of the codewords before Eof spell the text, and each
   * codeword is the final trie's code for its phrase.
   */
  lemma Coverage(text: string)
    requires IsByteText(text)
    ensures var r := Encode(text);
            && |r.codes| == |r.phrases| + 1
            && Concat(r.phrases) == text
            && forall k :: 0 <= k < |r.phrases| ==>
                 r.phrases[k] != [] && r.phrases[k] in r.final.dict && r.codes[k] == r.final.dict[r.phrases[k]]
  {
    var e := InitialEncoder();
    InitialDictInv();
    EncodeFromShape(text, 0, e);
    EncodeFromCodes(text, 0, e);
  }

  /**
   * Codes 257, 258, ... go in order to the phrases learned after the
   * codewords but the last (each learned phrase being a codeword's phrase
   * and the next character of the text), until 4096 is reached.
   */
  lemma CodeAssignment(text: string)
    requires IsByteText(text)
    ensures var r := Encode(text);
            && r.final.next == (if text == [] then FirstCode else Min(CodesLen, FirstCode + |r.phrases| - 1))
            && (forall k :: 0 <= k < |r.phrases| ==> r.phrases[k] != [])
            && forall k :: 0 <= k && k + 1 < |r.phrases| && FirstCode + k < CodesLen ==>
                 LearnedPhrase(r.phrases, k) in r.final.dict && r.final.dict[LearnedPhrase(r.phrases, k)] == FirstCode + k
  {
    var e := InitialEncoder();
    var r := Encode(text);
    InitialDictInv();
    EncodeFromCounter(text, 0, e);
    EncodeFromShape(text, 0, e);
    forall k | 0 <= k && k + 1 < |r.phrases| && FirstCode + k < CodesLen
      ensures LearnedPhrase(r.phrases, k) in r.final.dict && r.final.dict[LearnedPhrase(r.phrases, k)] == FirstCode + k
    {
      LearnedAt(text, 0, e, k);
    }
  }

  /** The empty text compresses to the lone Eof, a one-byte text to its byte and Eof; neither learns. */
  lemma SmallInputs(c: char)
    requires c < 256 as char
    ensures Encode([]).codes == [Eof] && Encode([]).final == InitialEncoder()
    ensures Encode([c]).codes == [c as int, Eof] && Encode([c]).final == InitialEncoder()
  {
    var e := InitialEncoder();
    SeedMatch([c], 0);
    assert [c][0..1] == Byte(c as int);
    assert Learn(e, [c], 0, 1) == e;
    assert EncodeFrom([c], 1, e) == Encoding([Eof], [], e);
  }

  /**
   * Expansion reads nothing after the first Eof: cutting the stream just
   * past it changes neither what is written nor how expansion ends.
   */
  lemma {:induction false} DecodeFromStopsAtEof(rest: seq<Code>, tab: seq<string>, val: string, j: nat)
    requires IsDecodeTable(tab) && j < |rest| && rest[j] == Eof
    requires forall k :: 0 <= k < j ==> rest[k] != Eof
    decreases j
    ensures DecodeFrom(rest, tab, val) == DecodeFrom(rest[..j + 1], tab, val)
  {
    var cut := rest[..j + 1];
    assert cut[0] == rest[0];
    if j > 0 && !(rest[0] >= |tab| && val == []) {
      var entry := if rest[0] < |tab| then tab[rest[0]] else val + [val[0]];
      var tab' := if |tab| < CodesLen then tab + [val + [entry[0]]] else tab;
      assert entry != [];
      assert cut[1..] == rest[1..][..j];
      DecodeFromStopsAtEof(rest[1..], tab', entry, j - 1);
    }
  }

  /**
   * The expander stops at the first Eof after the first codeword: a stream
   * with anything after that Eof expands as the stream cut just past it.
   */
  lemma DecodeStopsAtEof(codes: seq<Code>, j: nat)
    requires 0 < j < |codes| && codes[j] == Eof
    requires forall k :: 0 < k < j ==> codes[k] != Eof
    ensures Decode(codes) == Decode(codes[..j + 1])
  {
    var cut := codes[..j + 1];
    assert cut[0] == codes[0];
    if codes[0] < FirstCode {
      assert cut[1..] == codes[1..][..j];
      DecodeFromStopsAtEof(codes[1..], InitialTable(), InitialTable()[codes[0]], j - 1);
    }
  }

  /**
   * The expander does not reject a codeword past its table: any such
   * codeword other than Eof expands exactly as the deferred-entry
   * codeword `maxCode` (`|tab|`) would, to the previous phrase plus its
   * first character.
   */
  lemma BeyondTable(c: Code, more: seq<Code>, tab: seq<string>, val: string)
    requires IsDecodeTable(tab) && |tab| < CodesLen && |tab| <= c && c != Eof && val != []
    ensures var r := DecodeFrom([c] + more, tab, val);
            && r == DecodeFrom([|tab|] + more, tab, val)
            && r.written == val + [val[0]] + DecodeFrom(more, tab + [val + [val[0]]], val + [val[0]]).written
  {
    assert ([c] + more)[1..] == more && ([|tab|] + more)[1..] == more;
  }

  /**
   * Concrete streams: the deferred entry one past the table, a codeword
   * further past it, a stop at the first Eof, and the stream of "AAAA".
   */
  lemma DecodeScenarios()
    ensures Decode([65, 257, 256]) == Expansion("AAA", None)
    ensures Decode([65, 300, 256]) == Expansion("AAA", None)
    ensures Decode([65, 256, 66, 256]) == Expansion("A", None)
    ensures Decode([65, 257, 65, 256]) == Expansion("AAAA", None)
  {
  }

  /** Where the expander stops early. */
  lemma DecodeFailures()
    ensures Decode([]) == Expansion([], Some(StreamExhausted))
    ensures Decode([65, 66]) == Expansion("AB", Some(StreamExhausted))
    ensures Decode([300]) == Expansion([], Some(NullPhrase))
    ensures Decode([256, 300]) == Expansion([], Some(EmptyPrevious))
  {
  }

  /** Compression from a state with an inverse table ends in a state that has one too. */
  lemma {:induction false} EncodeFromMirrors(text: string, i: nat, e: Encoder, t: seq<string>)
    requires IsByteText(text) && i <= |text| && DictInv(e) && Mirrors(e, t)
    decreases |text| - i
    ensures exists t' :: Mirrors(EncodeFrom(text, i, e).final, t')
  {
    if i < |text| {
      var n := LongestMatch(e.dict, text, i);
      var e' := Learn(e, text, i, n);
      EncodeFromUnfold(text, i, e, n, e');
      LearnKeepsDict(e, text, i);
      LearnMirrors(e, t, text, i);
      EncodeFromMirrors(text, i + n, e', LearnTable(e, t, text, i, n));
      assert EncodeFrom(text, i, e).final == EncodeFrom(text, i + n, e').final;
    } else {
      assert Mirrors(EncodeFrom(text, i, e).final, t);
    }
  }

  /** No two keys of the final trie share a code. */
  lemma CodesUnique(text: string)
    requires IsByteText(text)
    ensures var d := Encode(text).final.dict;
            forall p, q :: p in d && q in d && d[p] == d[q] ==> p == q
  {
    InitialDictInv();
    InitialMirrors();
    EncodeFromMirrors(text, 0, InitialEncoder(), InitialTable());
    var t :| Mirrors(Encode(text).final, t);
  }

  /**
   * The final trie holds the 256 seeded bytes under their own values and,
   * above Eof, only the phrases learned after the codewords, each under
   * its code 257 + k.
   */
  lemma TrieContents(text: string)
    requires IsByteText(text)
    ensures var r := Encode(text);
            && (forall k :: 0 <= k < |r.phrases| ==> r.phrases[k] != [])
            && forall p :: p in r.final.dict ==>
                 && 0 <= r.final.dict[p]
                 && if r.final.dict[p] < Eof then p == Byte(r.final.dict[p])
                    else && FirstCode <= r.final.dict[p]
                         && r.final.dict[p] - FirstCode + 1 < |r.phrases|
                         && p == LearnedPhrase(r.phrases, r.final.dict[p] - FirstCode)
  {
    var r := Encode(text);
    var d := r.final.dict;
    InitialDictInv();
    EncodeFromDict(text, 0, InitialEncoder());
    CodewordBounds(text);
    CodeAssignment(text);
    CodesUnique(text);
    forall p | p in d
      ensures 0 <= d[p]
      ensures if d[p] < Eof then p == Byte(d[p])
              else && FirstCode <= d[p] && d[p] - FirstCode + 1 < |r.phrases|
                   && p == LearnedPhrase(r.phrases, d[p] - FirstCode)
    {
      var c := d[p];
      if c < Eof {
        assert Byte(c) in Seeds(Eof);
      } else {
        assert text != [];
        var k := c - FirstCode;
        assert LearnedPhrase(r.phrases, k) in d && d[LearnedPhrase(r.phrases, k)] == c;
      }
    }
  }
}

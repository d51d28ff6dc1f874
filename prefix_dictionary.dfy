/**
 * The phrase dictionary of the compressor: a ternary search trie mapping
 * phrases to codes. Only the trie's observable behaviour is modelled: its
 * contents, as a map, and the longest-prefix query over them.
 */
module PrefixDictionary {
  import opened Wrappers

  /** What the trie stores: each key phrase and its code. */
  type Dict = map<string, int>

  /**
   * The length of the longest key of `d` that is a prefix of `text[i..]`
   * and at most `m` characters long, or 0 when there is none.
   */
  function LongestUpTo(d: Dict, text: string, i: nat, m: nat): (r: nat)
    requires i + m <= |text|
    ensures r <= m
    ensures 0 < r ==> text[i..i + r] in d
    decreases m
  {
    if m == 0 then 0
    else if text[i..i + m] in d then m
    else LongestUpTo(d, text, i, m - 1)
  }

  /** No key longer than `LongestUpTo` and within the bound is a prefix of the text. */
  lemma {:induction false} LongestUpToIsLongest(d: Dict, text: string, i: nat, m: nat, p: string)
    requires i + m <= |text|
    requires p in d && p <= text[i..] && |p| <= m
    ensures |p| <= LongestUpTo(d, text, i, m)
    decreases m
  {
    if m > 0 && text[i..i + m] !in d {
      assert p == text[i..i + |p|];
      LongestUpToIsLongest(d, text, i, m - 1, p);
    }
  }

  /** The `m` characters of `text` from `i` on are a key of `d`. */
  ghost predicate KeyPrefixAt(d: Dict, text: string, i: nat, m: nat)
  {
    i + m <= |text| && text[i..i + m] in d
  }

  /**
   * `r` is the length of the longest key of `d` that is a prefix of
   * `text[i..]`, or 0 when no key is.
   */
  ghost predicate IsLongestMatch(d: Dict, text: string, i: nat, r: nat)
  {
    && i + r <= |text|
    && (0 < r ==> text[i..i + r] in d)
    && forall m: nat :: r < m ==> !KeyPrefixAt(d, text, i, m)
  }

  /** At most one length is the longest match. */
  lemma LongestMatchUnique(d: Dict, text: string, i: nat, r: nat, r': nat)
    requires IsLongestMatch(d, text, i, r) && IsLongestMatch(d, text, i, r')
    ensures r == r'
  {
    if r < r' {
      assert KeyPrefixAt(d, text, i, r');
    } else if r' < r {
      assert KeyPrefixAt(d, text, i, r);
    }
  }

  /** The backward scan from the end of the text finds the longest match. */
  lemma LongestUpToIsMatch(d: Dict, text: string, i: nat)
    requires i <= |text|
    ensures IsLongestMatch(d, text, i, LongestUpTo(d, text, i, |text| - i))
  {
    var r := LongestUpTo(d, text, i, |text| - i);
    forall m: nat | r < m
      ensures !KeyPrefixAt(d, text, i, m)
    {
      if KeyPrefixAt(d, text, i, m) {
        LongestUpToIsLongest(d, text, i, |text| - i, text[i..i + m]);
      }
    }
  }

  /**
   * The answer of the trie's longest-prefix query: the length of the
   * longest key of `d` that is a prefix of `text[i..]`, 0 when no key
   * matches.
   */
  ghost function LongestMatch(d: Dict, text: string, i: nat): (r: nat)
    requires i <= |text|
    ensures i + r <= |text|
    ensures 0 < r ==> text[i..i + r] in d
  {
    LongestUpToIsMatch(d, text, i);
    var r :| IsLongestMatch(d, text, i, r); r
  }

  /** Every key that is a prefix of `text[i..]` is at most as long as `LongestMatch`. */
  lemma LongestMatchIsLongest(d: Dict, text: string, i: nat, p: string)
    requires i <= |text|
    requires p in d && p <= text[i..]
    ensures |p| <= LongestMatch(d, text, i)
  {
    assert p == text[i..i + |p|];
    assert !(LongestMatch(d, text, i) < |p|) by {
      if LongestMatch(d, text, i) < |p| {
        assert KeyPrefixAt(d, text, i, |p|);
      }
    }
  }

  /** The ternary search trie, as the compressor sees it. */
  class Tst {
    var entries: Dict

    constructor ()
      ensures entries == map[]
    {
      entries := map[];
    }

    /** Stores `key` under `code`. */
    method Insert(key: string, code: int)
      modifies this
      ensures entries == old(entries)[key := code]
    {
      entries := entries[key := code];
    }

    /** The code stored under `key`, or None when `key` was never inserted. */
    function Lookup(key: string): (r: Option<int>)
      reads this
      ensures r.Some? <==> key in entries
      ensures r.Some? ==> r.value == entries[key]
    {
      if key in entries then Some(entries[key]) else None
    }

    /**
     * The longest key that is a prefix of `text[i..]`: walks forward one
     * character at a time and remembers the last length that is a key.
     */
    method GetLongestPrefix(text: string, i: nat) returns (prefix: string)
      requires i <= |text|
      ensures prefix == text[i..i + LongestMatch(entries, text, i)]
    {
      var best, m := 0, 0;
      while i + m < |text|
        invariant i + m <= |text|
        invariant best == LongestUpTo(entries, text, i, m)
      {
        m := m + 1;
        if text[i..i + m] in entries {
          best := m;
        }
        assert best == LongestUpTo(entries, text, i, m);
      }
      assert m == |text| - i;
      LongestUpToIsMatch(entries, text, i);
      LongestMatchUnique(entries, text, i, best, LongestMatch(entries, text, i));
      prefix := text[i..i + best];
    }
  }
}

/**
 * Replacing several substrings of a string, one (key, value) pair at a time.
 *
 * The replacement of one key follows Kotlin's `String.replace(oldValue,
 * newValue)`: occurrences are found from left to right and do not overlap, and
 * the empty key matches before every character and at the end.  Strings here
 * are sequences of Unicode scalar values, not of UTF-16 code units.  The pairs
 * of the map are given as a sequence, in the order in which the map iterates
 * over them.
 */
module StringExt {

  /** `key` occurs in `s` at position i. */
  predicate OccursAt(key: string, s: string, i: nat)
    requires i <= |s|
  {
    key <= s[i..]
  }

  /** `key` occurs somewhere in `s` (the empty key occurs in every string). */
  predicate Occurs(key: string, s: string)
  {
    exists i: nat | i <= |s| :: OccursAt(key, s, i)
  }

  /**
   * Replaces every occurrence of `key` in `s` by `replacement`, leftmost first
   * and without overlaps.  For the empty key, `replacement` is put before every
   * character and after the last one ("abc" with "" and "x" gives "xaxbxcx").
   * A key that does not occur, or a key replaced by itself, leaves `s` as it is.
   */
  function ReplaceAll(s: string, key: string, replacement: string): (r: string)
    ensures !Occurs(key, s) ==> r == s
    ensures key == replacement ==> r == s
    decreases |s|
  {
    assert s[0..] == s && (key <= s ==> OccursAt(key, s, 0));
    if key == [] then
      (if s == [] then replacement else replacement + [s[0]] + ReplaceAll(s[1..], key, replacement))
    else if s == [] then []
    else if key <= s then
      assert s == s[..|key|] + s[|key|..];
      replacement + ReplaceAll(s[|key|..], key, replacement)
    else
      OccursInSuffix(key, s, 1);
      [s[0]] + ReplaceAll(s[1..], key, replacement)
  }

  /** Kotlin's multi-pair replace: a left fold of ReplaceAll over the pairs. */
  function ReplacePairs(s: string, pairs: seq<(string, string)>): string
    decreases |pairs|
  {
    if pairs == [] then s
    else ReplacePairs(ReplaceAll(s, pairs[0].0, pairs[0].1), pairs[1..])
  }

  /**
   * The multi-pair replace as the source writes it: a variable that each pair
   * in turn rewrites.
   */
  method Replace(s: string, pairs: seq<(string, string)>) returns (result: string)
    ensures result == ReplacePairs(s, pairs)
  {
    result := s;
    for i := 0 to |pairs|
      invariant result == ReplacePairs(s, pairs[..i])
    {
      var (l, r) := pairs[i];
      ReplacePairsSnoc(s, pairs[..i], l, r);
      assert pairs[..i] + [(l, r)] == pairs[..i + 1];
      result := ReplaceAll(result, l, r);
    }
    assert pairs[..|pairs|] == pairs;
  }

  // ---------------------------------------------------------------------------
  // Occurrences
  // ---------------------------------------------------------------------------

  /** An occurrence in a suffix is an occurrence in the whole string. */
  lemma OccursInSuffix(key: string, s: string, n: nat)
    requires n <= |s|
    ensures Occurs(key, s[n..]) ==> Occurs(key, s)
  {
    if Occurs(key, s[n..]) {
      var i: nat :| i <= |s[n..]| && OccursAt(key, s[n..], i);
      assert s[n..][i..] == s[n + i..];
      assert OccursAt(key, s, n + i);
    }
  }

  // ---------------------------------------------------------------------------
  // One pair
  // ---------------------------------------------------------------------------

  /** The empty key is inserted around every character. */
  lemma ReplaceAllEmptyKeyExample()
    ensures ReplaceAll("abc", "", "x") == "xaxbxcx"
  {
  }

  // The single replacement as two steps: split at the occurrences, then
  // join the pieces with the replacement.

  /** The pieces of `s` between the leftmost non-overlapping occurrences of `key`. */
  function Split(s: string, key: string): (pieces: seq<string>)
    requires key != []
    ensures |pieces| >= 1
    decreases |s|
  {
    if s == [] then [[]]
    else if key <= s then [[]] + Split(s[|key|..], key)
    else
      var rest := Split(s[1..], key);
      [[s[0]] + rest[0]] + rest[1..]
  }

  /** The pieces concatenated, with `separator` between each two of them. */
  function Join(pieces: seq<string>, separator: string): string
    requires |pieces| >= 1
    decreases |pieces|
  {
    if |pieces| == 1 then pieces[0]
    else pieces[0] + separator + Join(pieces[1..], separator)
  }

  /** Prefixing the first piece prefixes the joined string. */
  lemma JoinPrefixFirst(c: string, pieces: seq<string>, separator: string)
    requires |pieces| >= 1
    ensures Join([c + pieces[0]] + pieces[1..], separator) == c + Join(pieces, separator)
  {
    var ps := [c + pieces[0]] + pieces[1..];
    if |pieces| > 1 {
      assert ps[1..] == pieces[1..];
      assert (c + pieces[0]) + separator + Join(pieces[1..], separator)
          == c + (pieces[0] + separator + Join(pieces[1..], separator));
    }
  }

  /** Splitting at an occurrence at the front starts an empty piece. */
  lemma JoinSplitAtKey(s: string, key: string, replacement: string)
    requires key != [] && key <= s
    ensures Join(Split(s, key), replacement) == replacement + Join(Split(s[|key|..], key), replacement)
  {
    var ps := [[]] + Split(s[|key|..], key);
    assert Split(s, key) == ps;
    assert ps[1..] == Split(s[|key|..], key);
    assert Join(ps, replacement) == [] + replacement + Join(ps[1..], replacement);
  }

  /** A character that does not start an occurrence joins the first piece. */
  lemma JoinSplitPastChar(s: string, key: string, replacement: string)
    requires key != [] && s != [] && !(key <= s)
    ensures Join(Split(s, key), replacement) == [s[0]] + Join(Split(s[1..], key), replacement)
  {
    var rest := Split(s[1..], key);
    assert Split(s, key) == [[s[0]] + rest[0]] + rest[1..];
    JoinPrefixFirst([s[0]], rest, replacement);
  }

  /** Replacing a non-empty key is splitting at it and joining with the replacement. */
  lemma {:induction false} ReplaceAllIsSplitJoin(s: string, key: string, replacement: string)
    requires key != []
    ensures ReplaceAll(s, key, replacement) == Join(Split(s, key), replacement)
    decreases |s|
  {
    if s == [] {
    } else if key <= s {
      ReplaceAllIsSplitJoin(s[|key|..], key, replacement);
      JoinSplitAtKey(s, key, replacement);
    } else {
      ReplaceAllIsSplitJoin(s[1..], key, replacement);
      JoinSplitPastChar(s, key, replacement);
    }
  }

  /** The first piece of a split is a prefix of the string. */
  lemma {:induction false} SplitFirstPrefix(s: string, key: string)
    requires key != []
    ensures Split(s, key)[0] <= s
    decreases |s|
  {
    if s != [] && !(key <= s) {
      SplitFirstPrefix(s[1..], key);
    }
  }

  /**
   * Putting a character that does not start an occurrence in front of a
   * piece without occurrences, the piece being a prefix of the rest of the
   * string, creates no occurrence.
   */
  lemma ConsCharNoOccurrence(s: string, p: string, key: string)
    requires key != [] && s != [] && !(key <= s)
    requires p <= s[1..] && !Occurs(key, p)
    ensures !Occurs(key, [s[0]] + p)
  {
    var q := [s[0]] + p;
    forall i: nat | i <= |q|
      ensures !OccursAt(key, q, i)
    {
      if i == 0 {
        assert q <= s;
      } else {
        assert q[i..] == p[i - 1..];
        assert !OccursAt(key, p, i - 1);
      }
    }
  }

  /** No piece of a split contains the key: every occurrence was cut out. */
  lemma {:induction false} SplitPiecesHoldNoKey(s: string, key: string)
    requires key != []
    ensures forall j | 0 <= j < |Split(s, key)| :: !Occurs(key, Split(s, key)[j])
    decreases |s|
  {
    var ps := Split(s, key);
    assert !OccursAt(key, [], 0);
    if s == [] {
    } else if key <= s {
      SplitPiecesHoldNoKey(s[|key|..], key);
      assert ps == [[]] + Split(s[|key|..], key);
    } else {
      var rest := Split(s[1..], key);
      SplitPiecesHoldNoKey(s[1..], key);
      SplitFirstPrefix(s[1..], key);
      assert ps == [[s[0]] + rest[0]] + rest[1..];
      ConsCharNoOccurrence(s, rest[0], key);
    }
  }

  /** The one-character pieces of `s`, followed by an empty piece. */
  function CharPieces(s: string): (pieces: seq<string>)
    ensures |pieces| == |s| + 1
    decreases |s|
  {
    if s == [] then [[]] else [[s[0]]] + CharPieces(s[1..])
  }

  /**
   * With the empty key, the replace is the join of an empty piece, each
   * character on its own and a final empty piece: the replacement goes before
   * every character and after the last one.
   */
  lemma {:induction false} ReplaceAllEmptyKey(s: string, replacement: string)
    ensures ReplaceAll(s, [], replacement) == Join([[]] + CharPieces(s), replacement)
    decreases |s|
  {
    var ps := [[]] + CharPieces(s);
    assert ps[1..] == CharPieces(s);
    if s != [] {
      ReplaceAllEmptyKey(s[1..], replacement);
      var tail := CharPieces(s[1..]);
      assert ([[]] + tail)[1..] == tail;
      assert CharPieces(s)[1..] == tail;
      assert Join(CharPieces(s), replacement) == [s[0]] + replacement + Join(tail, replacement);
    }
  }

  /** Joining the pieces with the key itself gives back the string. */
  lemma SplitJoinRoundTrip(s: string, key: string)
    requires key != []
    ensures Join(Split(s, key), key) == s
  {
    ReplaceAllIsSplitJoin(s, key, key);
  }

  // ---------------------------------------------------------------------------
  // Several pairs
  // ---------------------------------------------------------------------------

  /** No pairs: the string is returned unchanged. */
  lemma ReplacePairsEmpty(s: string)
    ensures ReplacePairs(s, []) == s
  {
  }

  /** One pair: the string replace of that pair. */
  lemma ReplacePairsSingle(s: string, l: string, r: string)
    ensures ReplacePairs(s, [(l, r)]) == ReplaceAll(s, l, r)
  {
  }

  /** The pairs of `p + q` act as those of `p` followed by those of `q`. */
  lemma {:induction false} ReplacePairsAppend(s: string, p: seq<(string, string)>, q: seq<(string, string)>)
    ensures ReplacePairs(s, p + q) == ReplacePairs(ReplacePairs(s, p), q)
    decreases |p|
  {
    if p != [] {
      assert (p + q)[0] == p[0];
      assert (p + q)[1..] == p[1..] + q;
      ReplacePairsAppend(ReplaceAll(s, p[0].0, p[0].1), p[1..], q);
    } else {
      assert p + q == q;
    }
  }

  /** Each pair is applied to the output of the pairs before it. */
  lemma ReplacePairsSnoc(s: string, p: seq<(string, string)>, l: string, r: string)
    ensures ReplacePairs(s, p + [(l, r)]) == ReplaceAll(ReplacePairs(s, p), l, r)
  {
    ReplacePairsAppend(s, p, [(l, r)]);
  }

  /** If no key occurs in the input, the input is returned unchanged. */
  lemma {:induction false} ReplacePairsNoKeyOccurs(s: string, pairs: seq<(string, string)>)
    requires forall k | 0 <= k < |pairs| :: !Occurs(pairs[k].0, s)
    ensures ReplacePairs(s, pairs) == s
    decreases |pairs|
  {
    if pairs != [] {
      assert forall k | 0 <= k < |pairs[1..]| :: pairs[1..][k] == pairs[k + 1];
      ReplacePairsNoKeyOccurs(s, pairs[1..]);
    }
  }

  /** A pair whose key equals its value can be dropped from the pairs. */
  lemma ReplacePairsDropsIdentityPair(s: string, p: seq<(string, string)>, key: string, q: seq<(string, string)>)
    ensures ReplacePairs(s, p + [(key, key)] + q) == ReplacePairs(s, p + q)
  {
    ReplacePairsAppend(s, p + [(key, key)], q);
    ReplacePairsSnoc(s, p, key, key);
    ReplacePairsAppend(s, p, q);
  }
}

/** The dictionary seen as a set of words: trie paths, occurrences, coverage and
    the two "longest match" notions (per end position and per start position). */
module Words {

  /** A trie node exists for `p` exactly when `p` is the root path or a prefix of a word. */
  ghost predicate IsPath(words: set<string>, p: string) {
    p == [] || exists w :: w in words && p <= w
  }

  /** A dictionary word sits at text[i..j]. */
  ghost predicate Occurs(words: set<string>, text: string, i: int, j: int) {
    0 <= i < j <= |text| && text[i..j] in words
  }

  ghost predicate Hit(words: set<string>, text: string) {
    exists i, j :: Occurs(words, text, i, j)
  }

  ghost predicate CoveredAt(words: set<string>, text: string, k: int) {
    exists i, j :: Occurs(words, text, i, j) && i <= k < j
  }

  /** All positions that belong to some occurrence. */
  ghost function Covered(words: set<string>, text: string): set<int> {
    set k | 0 <= k < |text| && CoveredAt(words, text, k)
  }

  /** The longest suffix of `s` that is a trie path. */
  ghost function Longest(words: set<string>, s: string): (r: string)
    ensures |r| <= |s|
  {
    if IsPath(words, s) then s else Longest(words, s[1..])
  }

  lemma {:induction false} LongestIsPath(words: set<string>, s: string)
    ensures var r := Longest(words, s);
            IsPath(words, r) && r == s[|s| - |r|..]
  {
    if !IsPath(words, s) {
      var t := s[1..];
      LongestIsPath(words, t);
      var k := |t| - |Longest(words, t)|;
      assert t[k..] == s[k + 1..];
    } else {
      assert s[0..] == s;
    }
  }

  /** Length of the longest word that is a suffix of `s`, 0 if there is none. */
  ghost function LongestSuffix(words: set<string>, s: string): (n: nat)
    ensures n <= |s|
  {
    if s == [] then 0
    else if s in words then |s|
    else LongestSuffix(words, s[1..])
  }

  /** Length of the longest word that is a prefix of `s`, 0 if there is none. */
  ghost function LongestPrefix(words: set<string>, s: string): (n: nat)
    ensures n <= |s|
  {
    if s == [] then 0
    else if s in words then |s|
    else LongestPrefix(words, s[..|s| - 1])
  }

  lemma PathPrefix(words: set<string>, p: string, q: string)
    requires IsPath(words, p) && q <= p
    ensures IsPath(words, q)
  {
  }

  /** `Longest` really is maximal: every trie path that is a suffix of `s` is at most as long. */
  lemma {:induction false} LongestIsMaximal(words: set<string>, s: string, k: nat)
    requires k <= |s| && IsPath(words, s[k..])
    ensures |s| - k <= |Longest(words, s)|
  {
    assert s[0..] == s;
    if !IsPath(words, s) {
      assert s[1..][k - 1..] == s[k..];
      LongestIsMaximal(words, s[1..], k - 1);
    }
  }

  /** The scanning invariant of the automaton: only the current node's path matters,
      not the whole text read so far. */
  lemma {:induction false} LongestStep(words: set<string>, s: string, c: char)
    ensures Longest(words, s + [c]) == Longest(words, Longest(words, s) + [c])
  {
    if !IsPath(words, s) {
      if IsPath(words, s + [c]) { PathPrefix(words, s + [c], s); }
      assert (s + [c])[1..] == s[1..] + [c];
      LongestStep(words, s[1..], c);
    }
  }

  /** One fail link: if `u + [c]` is no path, continue from the longest proper suffix of `u`. */
  lemma LongestFail(words: set<string>, u: string, c: char)
    requires u != [] && !IsPath(words, u + [c])
    ensures Longest(words, u + [c]) == Longest(words, Longest(words, u[1..]) + [c])
  {
    assert (u + [c])[1..] == u[1..] + [c];
    LongestStep(words, u[1..], c);
  }

  /** No word is lost by forgetting everything but the longest path suffix. */
  lemma {:induction false} SuffixSeenAtNode(words: set<string>, s: string)
    ensures LongestSuffix(words, s) == LongestSuffix(words, Longest(words, s))
  {
    if !IsPath(words, s) {
      SuffixSeenAtNode(words, s[1..]);
    }
  }

  lemma {:induction false} LongestSuffixWord(words: set<string>, s: string)
    requires LongestSuffix(words, s) > 0
    ensures s[|s| - LongestSuffix(words, s)..] in words
  {
    if s in words {
      assert s[0..] == s;
    } else {
      LongestSuffixWord(words, s[1..]);
      var n := LongestSuffix(words, s);
      assert s[1..][|s| - 1 - n..] == s[|s| - n..];
    }
  }

  lemma {:induction false} LongestSuffixMaximal(words: set<string>, s: string, k: nat)
    requires k < |s| && s[k..] in words
    ensures |s| - k <= LongestSuffix(words, s)
  {
    assert s[0..] == s;
    if s !in words {
      assert s[1..][k - 1..] == s[k..];
      LongestSuffixMaximal(words, s[1..], k - 1);
    }
  }

  lemma {:induction false} LongestPrefixWord(words: set<string>, s: string)
    requires LongestPrefix(words, s) > 0
    ensures s[..LongestPrefix(words, s)] in words
  {
    if s in words {
      assert s[..|s|] == s;
    } else {
      LongestPrefixWord(words, s[..|s| - 1]);
      var n := LongestPrefix(words, s);
      assert s[..|s| - 1][..n] == s[..n];
    }
  }

  lemma {:induction false} LongestPrefixMaximal(words: set<string>, s: string, k: nat)
    requires 0 < k <= |s| && s[..k] in words
    ensures k <= LongestPrefix(words, s)
  {
    assert s[..|s|] == s;
    if s !in words {
      assert s[..|s| - 1][..k] == s[..k];
      LongestPrefixMaximal(words, s[..|s| - 1], k);
    }
  }

  /** Once the trie walk falls off, no longer prefix can be a word. */
  lemma {:induction false} LongestPrefixStops(words: set<string>, s: string, k: nat)
    requires k < |s| && !IsPath(words, s[..k + 1])
    ensures LongestPrefix(words, s) == LongestPrefix(words, s[..k])
  {
    assert s[..k + 1] <= s;
    if k + 1 == |s| {
    } else {
      var t := s[..|s| - 1];
      assert t[..k + 1] == s[..k + 1] && t[..k] == s[..k];
      LongestPrefixStops(words, t, k);
    }
  }

  /** More words can only lengthen the longest match. */
  lemma {:induction false} LongestSuffixMonotone(words: set<string>, more: set<string>, s: string)
    requires words <= more
    ensures LongestSuffix(words, s) <= LongestSuffix(more, s)
  {
    if s != [] && s !in more {
      LongestSuffixMonotone(words, more, s[1..]);
    }
  }

  /** The longest match found in a long text is found in any window that contains it. */
  lemma {:induction false} LongestSuffixWindow(words: set<string>, s: string, k: nat)
    requires k <= |s| && LongestSuffix(words, s) <= |s| - k
    ensures LongestSuffix(words, s[k..]) == LongestSuffix(words, s)
  {
    if k > 0 {
      assert s !in words;
      assert s[1..][k - 1..] == s[k..];
      LongestSuffixWindow(words, s[1..], k - 1);
    } else {
      assert s[k..] == s;
    }
  }

  /** The paths created by walking the first `n` characters of a word. */
  ghost function Prefixes(word: string, n: nat): (r: set<string>)
    requires n <= |word|
  {
    set i | 0 <= i <= n :: word[..i]
  }

  lemma PrefixesSnoc(word: string, n: nat)
    requires n < |word|
    ensures word[..n + 1] == word[..n] + [word[n]]
    ensures Prefixes(word, n + 1) == Prefixes(word, n) + {word[..n + 1]}
  {
  }

  /** The trie of one more word. */
  lemma PathsOfMore(words: set<string>, word: string, p: string)
    ensures IsPath(words + {word}, p) <==> IsPath(words, p) || p in Prefixes(word, |word|)
  {
    if p <= word {
      assert p == word[..|p|];
    } else if p in Prefixes(word, |word|) {
      assert false;
    }
    assert [] in Prefixes(word, |word|) by { assert word[..0] == []; }
  }

  /** Every occurrence begins with a path of length one. */
  lemma HitNeedsPath(words: set<string>, text: string, k: int) returns (c: char)
    requires CoveredAt(words, text, k)
    ensures text != "" && IsPath(words, [c])
  {
    var i, j :| Occurs(words, text, i, j) && i <= k < j;
    c := text[i];
    assert [c] <= text[i..j];
  }

  lemma LongestPrefixSnoc(words: set<string>, p: string, c: char)
    ensures LongestPrefix(words, p + [c]) ==
              if p + [c] in words then |p| + 1 else LongestPrefix(words, p)
  {
  }

  /** One more character of a walk that began at `i`. */
  lemma LongestPrefixFrom(words: set<string>, text: string, i: nat, j: nat)
    requires i <= j < |text|
    ensures var p, q := text[i..j], text[i..j + 1];
            q == p + [text[j]] &&
            LongestPrefix(words, q) == (if q in words then j + 1 - i else LongestPrefix(words, p)) &&
            (!IsPath(words, q) ==> LongestPrefix(words, text[i..]) == LongestPrefix(words, p))
  {
    var p, q := text[i..j], text[i..j + 1];
    assert q == p + [text[j]];
    LongestPrefixSnoc(words, p, text[j]);
    if !IsPath(words, q) {
      assert text[i..][..j + 1 - i] == q && text[i..][..j - i] == p;
      LongestPrefixStops(words, text[i..], j - i);
    }
  }

  /** The fail target and the longest match of a child, from the fail target of its parent. */
  lemma ChildValues(words: set<string>, p: string, c: char)
    requires p != []
    ensures var target := Longest(words, Longest(words, p[1..]) + [c]);
            target == Longest(words, (p + [c])[1..]) && |target| <= |p| &&
            LongestSuffix(words, p + [c]) ==
              if p + [c] in words then |p| + 1 else LongestSuffix(words, target)
  {
    var s := p + [c];
    assert s[1..] == p[1..] + [c];
    LongestStep(words, p[1..], c);
    SuffixSeenAtNode(words, s[1..]);
  }

  /** The longest proper suffix of `p` that is a path. */
  lemma LongestProper(words: set<string>, p: string, k: nat)
    requires p != [] && k <= |p|
    ensures var f := Longest(words, p[1..]);
            |f| < |p| && f == p[|p| - |f|..] && IsPath(words, f) &&
            (0 < k && IsPath(words, p[k..]) ==> |p| - k <= |f|)
  {
    var t := p[1..];
    LongestIsPath(words, t);
    var f := Longest(words, t);
    assert t[|t| - |f|..] == p[|p| - |f|..];
    if 0 < k && IsPath(words, p[k..]) {
      assert t[k - 1..] == p[k..];
      LongestIsMaximal(words, t, k - 1);
    }
  }
}

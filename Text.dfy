/**
 * Python string operations that the account, login and navigation rules rely on,
 * stated over `seq<char>`: whitespace as `unicode.isspace` answers it, `strip`,
 * whitespace `split`, single-character `replace`, `partition` and `startswith`,
 * slices that clamp at the end of the string, and `join`.
 */
module Text {

  datatype Option<+T> = None | Some(value: T)

  /** The characters for which Python 2's `unicode.isspace()` is true. */
  predicate IsSpace(c: char) {
    || ('\t' <= c <= '\r')
    || ('\U{1C}' <= c <= ' ')
    || c == '\U{85}' || c == '\U{A0}' || c == '\U{1680}' || c == '\U{180E}'
    || ('\U{2000}' <= c <= '\U{200A}')
    || c == '\U{2028}' || c == '\U{2029}' || c == '\U{202F}' || c == '\U{205F}'
    || c == '\U{3000}'
  }

  predicate NoSpace(s: string) {
    forall i :: 0 <= i < |s| ==> !IsSpace(s[i])
  }

  predicate AllSpace(s: string) {
    forall i :: 0 <= i < |s| ==> IsSpace(s[i])
  }

  /** `s.lstrip()`: the suffix of `s` left after dropping its leading whitespace. */
  function LStrip(s: string): (r: string)
    ensures |r| <= |s| && r == s[|s| - |r|..]
    ensures forall i :: 0 <= i < |s| - |r| ==> IsSpace(s[i])
    ensures r == [] || !IsSpace(r[0])
    decreases |s|
  {
    if s != [] && IsSpace(s[0]) then LStrip(s[1..]) else s
  }

  /** `s.rstrip()`: the prefix of `s` left after dropping its trailing whitespace. */
  function RStrip(s: string): (r: string)
    ensures |r| <= |s| && r == s[..|r|]
    ensures forall i :: |r| <= i < |s| ==> IsSpace(s[i])
    ensures r == [] || !IsSpace(r[|r| - 1])
    decreases |s|
  {
    if s != [] && IsSpace(s[|s| - 1]) then RStrip(s[..|s| - 1]) else s
  }

  /** `s.strip()` */
  function Strip(s: string): string {
    RStrip(LStrip(s))
  }

  /** A string strips to nothing exactly when it is all whitespace; otherwise
      the stripped string has no whitespace at either end. */
  lemma StripEmptyIff(s: string)
    ensures Strip(s) == [] <==> AllSpace(s)
    ensures Strip(s) != [] ==> !IsSpace(Strip(s)[0]) && !IsSpace(Strip(s)[|Strip(s)| - 1])
  {
    var l := LStrip(s);
    var r := RStrip(l);
    if r == [] {
      assert l == [];
    } else {
      assert !IsSpace(l[0]) by { assert l[0] == r[0]; }
      assert !IsSpace(s[|s| - |l|]);
    }
  }

  /** The characters for which Python 2's `str.isspace()` is true on a byte string. */
  predicate IsAsciiSpace(c: char) {
    c == ' ' || ('\t' <= c <= '\r')
  }

  /** `s` holds no separator. */
  predicate Avoids(s: string, sep: char -> bool) {
    forall i :: 0 <= i < |s| ==> !sep(s[i])
  }

  /** `[word]` if the word collected so far is non-empty. */
  function Flush(word: string): (r: seq<string>)
    ensures forall w :: w in r ==> w == word && w != []
  {
    if word == [] then [] else [word]
  }

  /** Splitting at runs of separators, continued from a partially collected
      word: the maximal runs of non-separator characters, in order. */
  function SplitFrom(s: string, word: string, sep: char -> bool): (r: seq<string>)
    requires Avoids(word, sep)
    ensures forall w :: w in r ==> w != [] && Avoids(w, sep)
    ensures forall w :: w in r ==> forall i :: 0 <= i < |w| ==> w[i] in word || w[i] in s
    decreases |s|
  {
    if s == [] then Flush(word)
    else if sep(s[0]) then Flush(word) + SplitFrom(s[1..], [], sep)
    else SplitFrom(s[1..], word + [s[0]], sep)
  }

  /** `s.split()` with no separator argument, for the separator class `sep`. */
  function Split(s: string, sep: char -> bool): (r: seq<string>)
    ensures forall w :: w in r ==> w != [] && Avoids(w, sep)
    ensures forall w :: w in r ==> forall i :: 0 <= i < |w| ==> w[i] in s
  {
    SplitFrom(s, [], sep)
  }

  /** `w` occurs in `s` as a run bounded by separators or by the ends of `s`. */
  predicate Delimited(s: string, before: string, w: string, after: string, sep: char -> bool) {
    s == before + w + after &&
    (before == [] || sep(before[|before| - 1])) &&
    (after == [] || sep(after[0]))
  }

  lemma AvoidsAppend(word: string, c: char, sep: char -> bool)
    requires Avoids(word, sep) && !sep(c)
    ensures Avoids(word + [c], sep)
  {
    var longer := word + [c];
    forall i | 0 <= i < |longer| ensures !sep(longer[i]) {
      if i < |word| { assert longer[i] == word[i]; }
    }
  }

  /** A separator splits the words on its left from those on its right. */
  lemma {:induction false} SplitAtSeparator(a: string, c: char, b: string, word: string, sep: char -> bool)
    requires Avoids(word, sep) && sep(c)
    ensures SplitFrom(a + [c] + b, word, sep) == SplitFrom(a, word, sep) + SplitFrom(b, [], sep)
    decreases |a|
  {
    var s := a + [c] + b;
    if a == [] {
      assert s[0] == c && s[1..] == b;
    } else {
      assert s[0] == a[0] && s[1..] == a[1..] + [c] + b;
      if sep(a[0]) {
        SplitAtSeparator(a[1..], c, b, [], sep);
        calc {
          SplitFrom(s, word, sep);
          Flush(word) + SplitFrom(a[1..] + [c] + b, [], sep);
          Flush(word) + (SplitFrom(a[1..], [], sep) + SplitFrom(b, [], sep));
          (Flush(word) + SplitFrom(a[1..], [], sep)) + SplitFrom(b, [], sep);
        }
      } else {
        AvoidsAppend(word, a[0], sep);
        SplitAtSeparator(a[1..], c, b, word + [a[0]], sep);
      }
    }
  }

  /** A run without separators continues the word being collected. */
  lemma {:induction false} SplitOfWord(w: string, word: string, sep: char -> bool)
    requires Avoids(w, sep) && Avoids(word, sep) && word + w != []
    ensures SplitFrom(w, word, sep) == [word + w]
    decreases |w|
  {
    if w == [] {
      assert word + w == word;
    } else {
      assert word + [w[0]] + w[1..] == word + w;
      AvoidsAppend(word, w[0], sep);
      SplitOfWord(w[1..], word + [w[0]], sep);
    }
  }

  /** A non-empty run without separators is the only word of itself. */
  lemma RunIsWord(w: string, sep: char -> bool)
    requires w != [] && Avoids(w, sep)
    ensures Split(w, sep) == [w]
  {
    SplitOfWord(w, [], sep);
    assert [] + w == w;
  }

  /** A run followed by a separator is a word of the text it starts. */
  lemma RunBeforeSeparator(w: string, c: char, y: string, sep: char -> bool)
    requires w != [] && Avoids(w, sep) && sep(c)
    ensures w in Split(w + [c] + y, sep)
  {
    SplitAtSeparator(w, c, y, [], sep);
    RunIsWord(w, sep);
  }

  /** Words after a separator are words of the whole text. */
  lemma WordAfterSeparator(x: string, c: char, t: string, w: string, sep: char -> bool)
    requires sep(c) && w in Split(t, sep)
    ensures w in Split(x + [c] + t, sep)
  {
    SplitAtSeparator(x, c, t, [], sep);
  }

  /** A non-empty run without separators, bounded by separators or the ends of
      the text, is one of its words. */
  lemma DelimitedRunIsWord(s: string, before: string, w: string, after: string, sep: char -> bool)
    requires Delimited(s, before, w, after, sep) && w != [] && Avoids(w, sep)
    ensures w in Split(s, sep)
  {
    var t := w + after;
    if after == [] {
      assert t == w;
      RunIsWord(w, sep);
    } else {
      assert t == w + [after[0]] + after[1..];
      RunBeforeSeparator(w, after[0], after[1..], sep);
    }
    if before != [] {
      var x, c := before[..|before| - 1], before[|before| - 1];
      assert s == x + [c] + t;
      WordAfterSeparator(x, c, t, w, sep);
    } else {
      assert s == t;
    }
  }

  /** A delimited run stays delimited when text ending in a separator is put in front. */
  lemma DelimitedAfterSeparator(t: string, x: string, w: string, y: string, prefix: string, c: char, sep: char -> bool)
    requires Delimited(t, x, w, y, sep) && sep(c)
    ensures Delimited(prefix + [c] + t, prefix + [c] + x, w, y, sep)
  {
    var before := prefix + [c] + x;
    assert before[|before| - 1] == if x == [] then c else x[|x| - 1];
  }

  /** Every word of a split is a run bounded by separators or the ends of the
      text (the text including the word collected so far). */
  lemma {:induction false} WordIsDelimitedRun(s: string, word: string, w: string, sep: char -> bool)
    requires Avoids(word, sep) && w in SplitFrom(s, word, sep)
    ensures exists before, after :: Delimited(word + s, before, w, after, sep)
    decreases |s|
  {
    if s == [] {
      assert Delimited(word + s, [], w, [], sep);
    } else if sep(s[0]) {
      if w in Flush(word) {
        assert Delimited(word + s, [], w, s, sep);
      } else {
        var rest := s[1..];
        assert s == [s[0]] + rest;
        assert w in SplitFrom(rest, [], sep);
        WordIsDelimitedRun(rest, [], w, sep);
        WordAfterSeparatorIsDelimited(word, s[0], rest, w, sep);
      }
    } else {
      AvoidsAppend(word, s[0], sep);
      WordIsDelimitedRun(s[1..], word + [s[0]], w, sep);
      assert word + [s[0]] + s[1..] == word + s;
    }
  }

  lemma WordAfterSeparatorIsDelimited(word: string, c: char, rest: string, w: string, sep: char -> bool)
    requires sep(c)
    requires exists before, after :: Delimited([] + rest, before, w, after, sep)
    ensures exists before, after :: Delimited(word + ([c] + rest), before, w, after, sep)
  {
    assert [] + rest == rest;
    var x, y :| Delimited(rest, x, w, y, sep);
    DelimitedAfterSeparator(rest, x, w, y, word, c, sep);
    assert word + ([c] + rest) == word + [c] + rest;
  }

  /** `s.replace(a, b)` for single characters. */
  function ReplaceChar(s: string, a: char, b: char): (r: string)
    ensures |r| == |s|
    ensures forall i :: 0 <= i < |s| ==> r[i] == if s[i] == a then b else s[i]
  {
    if s == [] then [] else [if s[0] == a then b else s[0]] + ReplaceChar(s[1..], a, b)
  }

  lemma ReplaceCharConcat(s: string, t: string, a: char, b: char)
    ensures ReplaceChar(s + t, a, b) == ReplaceChar(s, a, b) + ReplaceChar(t, a, b)
  {
    var l, r := ReplaceChar(s + t, a, b), ReplaceChar(s, a, b) + ReplaceChar(t, a, b);
    assert |l| == |r|;
    forall i | 0 <= i < |l| ensures l[i] == r[i] {
      if i >= |s| { assert (s + t)[i] == t[i - |s|]; }
    }
  }

  /** `s.replace(c, '')` for a single character. */
  function RemoveChar(s: string, c: char): (r: string)
    ensures |r| <= |s|
    ensures forall i :: 0 <= i < |r| ==> r[i] != c && r[i] in s
    ensures forall i :: 0 <= i < |s| && s[i] != c ==> s[i] in r
  {
    if s == [] then []
    else if s[0] == c then RemoveChar(s[1..], c)
    else [s[0]] + RemoveChar(s[1..], c)
  }

  lemma {:induction false} RemoveCharConcat(s: string, t: string, c: char)
    ensures RemoveChar(s + t, c) == RemoveChar(s, c) + RemoveChar(t, c)
  {
    if s == [] {
      assert s + t == t;
    } else {
      assert (s + t)[0] == s[0];
      assert (s + t)[1..] == s[1..] + t;
      RemoveCharConcat(s[1..], t, c);
    }
  }

  /** Removing a character that does not occur changes nothing. */
  lemma {:induction false} RemoveAbsentChar(s: string, c: char)
    requires c !in s
    ensures RemoveChar(s, c) == s
  {
    if s != [] {
      assert c !in s[1..] by { assert forall x :: x in s[1..] ==> x in s; }
      RemoveAbsentChar(s[1..], c);
    }
  }

  /** `s.partition(c)[0]`: the text before the first `c`, or all of `s`. */
  function Before(s: string, c: char): (r: string)
    ensures c !in r
    ensures |r| <= |s| && r == s[..|r|]
    ensures |r| < |s| <==> c in s
    ensures |r| < |s| ==> s[|r|] == c
  {
    if s == [] then [] else if s[0] == c then [] else [s[0]] + Before(s[1..], c)
  }

  /** The text before the first `c` of `a + [c] + b`, when `a` has no `c`, is `a`. */
  lemma {:induction false} BeforeFirst(a: string, c: char, b: string)
    requires c !in a
    ensures Before(a + [c] + b, c) == a
  {
    if a != [] {
      assert (a + [c] + b)[0] == a[0];
      assert (a + [c] + b)[1..] == a[1..] + [c] + b;
      assert c !in a[1..] by { assert forall x :: x in a[1..] ==> x in a; }
      BeforeFirst(a[1..], c, b);
    } else {
      assert a + [c] + b == [c] + b;
    }
  }

  /** `s.startswith(p)` */
  predicate StartsWith(s: string, p: string) {
    |p| <= |s| && s[..|p|] == p
  }

  /** `s[:n]`, clamped at the end of the string. */
  function Take(s: string, n: nat): (r: string)
    ensures |r| == if |s| <= n then |s| else n
    ensures StartsWith(s, r)
  {
    if |s| <= n then s else s[..n]
  }

  /** `s[n:]`, empty when `s` is shorter than `n`. */
  function Drop(s: string, n: nat): (r: string)
    ensures Take(s, n) + r == s
  {
    if |s| <= n then [] else s[n..]
  }

  /** `sep.join(items)` */
  function Join(sep: string, items: seq<string>): string {
    if items == [] then []
    else if |items| == 1 then items[0]
    else items[0] + sep + Join(sep, items[1..])
  }

  /** A joined list starts with its first item. */
  lemma JoinStartsWithFirst(sep: string, items: seq<string>)
    requires items != []
    ensures StartsWith(Join(sep, items), items[0])
  {
    if |items| > 1 {
      var rest := sep + Join(sep, items[1..]);
      assert Join(sep, items) == items[0] + rest;
      assert (items[0] + rest)[..|items[0]|] == items[0];
    }
  }
}

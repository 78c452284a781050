/**
 * Word splitting and space joining as Python's `str.split()` (no argument)
 * and `' '.join(...)` perform them on text.
 */
module Words {

  /** The characters for which Python's `str.isspace()` holds; `str.split()` breaks on runs of them. */
  const Whitespace: set<char> := {
    ' ', '\t', '\n', '\r', '\U{0B}', '\U{0C}', '\U{1C}', '\U{1D}', '\U{1E}', '\U{1F}',
    '\U{85}', '\U{A0}', '\U{1680}', '\U{2000}', '\U{2001}', '\U{2002}', '\U{2003}', '\U{2004}',
    '\U{2005}', '\U{2006}', '\U{2007}', '\U{2008}', '\U{2009}', '\U{200A}', '\U{2028}',
    '\U{2029}', '\U{202F}', '\U{205F}', '\U{3000}'
  }

  predicate IsSpace(c: char)
  {
    c in Whitespace
  }

  /** A word: a non-empty run of characters none of which is whitespace. */
  predicate IsWord(w: string)
  {
    |w| > 0 && forall k :: 0 <= k < |w| ==> !IsSpace(w[k])
  }

  /** The characters of `s` that are not whitespace, in order. */
  function NonSpace(s: string): (r: string)
  {
    if s == [] then []
    else (if IsSpace(s[0]) then [] else [s[0]]) + NonSpace(s[1..])
  }

  /** Concatenation of a sequence of strings with no separator. */
  function Concat(ws: seq<string>): string
  {
    if ws == [] then [] else ws[0] + Concat(ws[1..])
  }

  /** The word being read so far, as a list of at most one token. */
  function Pending(word: string): seq<string>
  {
    if word == [] then [] else [word]
  }

  /**
   * Reads `s` one character at a time with `word` the part of a word read
   * so far: whitespace ends the pending word, any other character extends it.
   */
  function SplitFrom(s: string, word: string): seq<string>
  {
    if s == [] then Pending(word)
    else if IsSpace(s[0]) then Pending(word) + SplitFrom(s[1..], [])
    else SplitFrom(s[1..], word + [s[0]])
  }

  /** `s.split()`: the maximal whitespace-free runs of `s`, in order. */
  function Split(s: string): seq<string>
  {
    SplitFrom(s, [])
  }

  lemma ConcatAppend(ws: seq<string>, vs: seq<string>)
    ensures Concat(ws + vs) == Concat(ws) + Concat(vs)
  {
    if ws == [] {
      assert ws + vs == vs;
    } else {
      assert (ws + vs)[1..] == ws[1..] + vs;
      ConcatAppend(ws[1..], vs);
    }
  }

  /** Every token read from `s` after the pending whitespace-free `word` is a word. */
  lemma {:induction false} SplitFromWords(s: string, word: string)
    requires forall k :: 0 <= k < |word| ==> !IsSpace(word[k])
    ensures forall i :: 0 <= i < |SplitFrom(s, word)| ==> IsWord(SplitFrom(s, word)[i])
  {
    if s != [] {
      if IsSpace(s[0]) {
        var rest := SplitFrom(s[1..], []);
        SplitFromWords(s[1..], []);
        forall i | 0 <= i < |Pending(word) + rest| ensures IsWord((Pending(word) + rest)[i]) {
          if i >= |Pending(word)| {
            assert (Pending(word) + rest)[i] == rest[i - |Pending(word)|];
          }
        }
      } else {
        var w := word + [s[0]];
        assert forall k :: 0 <= k < |w| ==> !IsSpace(w[k]);
        SplitFromWords(s[1..], w);
      }
    }
  }

  /** The tokens read from `s` after the pending `word` hold `word` followed by the non-whitespace characters of `s`. */
  lemma {:induction false} SplitFromChars(s: string, word: string)
    ensures Concat(SplitFrom(s, word)) == word + NonSpace(s)
  {
    if s == [] {
      ConcatPending(word);
    } else if IsSpace(s[0]) {
      SplitFromChars(s[1..], []);
      ConcatAppend(Pending(word), SplitFrom(s[1..], []));
      ConcatPending(word);
      assert NonSpace(s) == NonSpace(s[1..]);
    } else {
      var w := word + [s[0]];
      SplitFromChars(s[1..], w);
      assert NonSpace(s) == [s[0]] + NonSpace(s[1..]);
      assert word + NonSpace(s) == w + NonSpace(s[1..]);
    }
  }

  lemma ConcatPending(word: string)
    ensures Concat(Pending(word)) == word
  {
    if word != [] {
      assert [word][1..] == [];
    }
  }

  /** Every token of `s.split()` is a word, and the tokens hold exactly the non-whitespace characters of `s`, in order. */
  lemma SplitTokens(s: string)
    ensures forall i :: 0 <= i < |Split(s)| ==> IsWord(Split(s)[i])
    ensures Concat(Split(s)) == NonSpace(s)
  {
    SplitFromWords(s, []);
    SplitFromChars(s, []);
  }

  /** `len(s.split())`: the number of whitespace-separated words of `s`. */
  function WordCount(s: string): nat
  {
    |Split(s)|
  }

  /** `' '.join(xs)`: the strings of `xs` separated by single spaces. */
  function JoinSpace(xs: seq<string>): string
  {
    if xs == [] then []
    else if |xs| == 1 then xs[0]
    else xs[0] + " " + JoinSpace(xs[1..])
  }

  /** A whitespace character `c` after `a` ends whatever word is pending at the end of `a`; the words of `b` follow. */
  lemma {:induction false} SplitFromBreak(a: string, c: char, b: string, word: string)
    requires IsSpace(c)
    ensures SplitFrom(a + [c] + b, word) == SplitFrom(a, word) + Split(b)
  {
    var s := a + [c] + b;
    if a == [] {
      assert s[0] == c && s[1..] == b;
    } else {
      assert s[0] == a[0] && s[1..] == a[1..] + [c] + b;
      if IsSpace(a[0]) {
        SplitFromBreak(a[1..], c, b, []);
      } else {
        SplitFromBreak(a[1..], c, b, word + [a[0]]);
      }
    }
  }

  /** Splitting at any whitespace character gives the words before it, then the words after it. */
  lemma SplitBreak(a: string, c: char, b: string)
    requires IsSpace(c)
    ensures Split(a + [c] + b) == Split(a) + Split(b)
  {
    SplitFromBreak(a, c, b, []);
  }

  /** Splitting two texts joined by a space gives the words of the first, then those of the second. */
  lemma SplitSpaced(a: string, b: string)
    ensures Split(a + " " + b) == Split(a) + Split(b)
  {
    assert IsSpace(' ');
    SplitBreak(a, ' ', b);
  }

  /** Text without whitespace only extends the pending word. */
  lemma {:induction false} SplitFromUnbroken(s: string, word: string)
    requires forall k :: 0 <= k < |s| ==> !IsSpace(s[k])
    ensures SplitFrom(s, word) == Pending(word + s)
  {
    if s == [] {
      assert word + s == word;
    } else {
      SplitFromUnbroken(s[1..], word + [s[0]]);
      assert word + [s[0]] + s[1..] == word + s;
    }
  }

  /** A single word splits to itself: `split()` never breaks inside a word. */
  lemma SplitWord(w: string)
    requires IsWord(w)
    ensures Split(w) == [w]
  {
    SplitFromUnbroken(w, []);
    assert [] + w == w;
  }

  /** Text made only of whitespace has no words. */
  lemma {:induction false} SplitBlank(s: string)
    requires forall k :: 0 <= k < |s| ==> IsSpace(s[k])
    ensures Split(s) == []
  {
    if s != [] {
      SplitBlank(s[1..]);
    }
  }

  /** The words of every field of `xs`, field after field. */
  function ConcatWords(xs: seq<string>): seq<string>
  {
    if xs == [] then [] else Split(xs[0]) + ConcatWords(xs[1..])
  }

  lemma {:induction false} ConcatWordsAppend(xs: seq<string>, ys: seq<string>)
    ensures ConcatWords(xs + ys) == ConcatWords(xs) + ConcatWords(ys)
  {
    if xs == [] {
      assert xs + ys == ys;
    } else {
      assert (xs + ys)[1..] == xs[1..] + ys;
      ConcatWordsAppend(xs[1..], ys);
    }
  }

  /** The words of a space-joined row are the words of its fields, field after field. */
  lemma {:induction false} SplitJoinSpace(xs: seq<string>)
    ensures Split(JoinSpace(xs)) == ConcatWords(xs)
  {
    if |xs| == 1 {
      assert xs[1..] == [];
    } else if |xs| > 1 {
      SplitSpaced(xs[0], JoinSpace(xs[1..]));
      SplitJoinSpace(xs[1..]);
    }
  }

  /** Words joined by spaces split back into exactly those words. */
  lemma {:induction false} SplitJoinWords(ws: seq<string>)
    requires forall i :: 0 <= i < |ws| ==> IsWord(ws[i])
    ensures Split(JoinSpace(ws)) == ws
  {
    SplitJoinSpace(ws);
    WordsConcat(ws);
  }

  lemma {:induction false} WordsConcat(ws: seq<string>)
    requires forall i :: 0 <= i < |ws| ==> IsWord(ws[i])
    ensures ConcatWords(ws) == ws
  {
    if ws != [] {
      SplitWord(ws[0]);
      WordsConcat(ws[1..]);
    }
  }
}

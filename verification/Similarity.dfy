/**
  How alike two FAQ items are (web/lib/faq-diff.ts): the words of a text, the share of
  words two items have in common, and when that is enough.
*/
module Similarity {
  import opened Wrappers
  import opened DiffRefine
  import FaqWidget

  /** What separates words, one by one. */
  lemma SpacesListed(c: char)
    ensures IsSpace(c) <==>
              c in {'\t', '\n', '\U{B}', '\U{C}', '\r', ' ', '\U{A0}', '\U{1680}', '\U{2000}', '\U{2001}', '\U{2002}',
                    '\U{2003}', '\U{2004}', '\U{2005}', '\U{2006}', '\U{2007}', '\U{2008}', '\U{2009}', '\U{200A}',
                    '\U{2028}', '\U{2029}', '\U{202F}', '\U{205F}', '\U{3000}', '\U{FEFF}'}
  {
    assert c as int as char == c;
  }

  predicate NoSpace(w: string) {
    forall i :: 0 <= i < |w| ==> !IsSpace(w[i])
  }

  /** `w` stands in `t` from `i` on, with white space or nothing on either side. */
  predicate WordAt(t: string, w: string, i: nat) {
    && w != "" && NoSpace(w)
    && i + |w| <= |t| && t[i..i + |w|] == w
    && (i == 0 || IsSpace(t[i - 1]))
    && (i + |w| == |t| || IsSpace(t[i + |w|]))
  }

  ghost predicate HasWord(t: string, w: string) {
    exists i: nat :: WordAt(t, w, i)
  }

  /** A word reaches over no space. */
  lemma InsideIsNoSpace(t: string, w: string, i: nat, k: nat)
    requires WordAt(t, w, i) && i <= k < i + |w|
    ensures !IsSpace(t[k])
  {
    assert t[i..i + |w|][k - i] == t[k];
  }

  /** A word that begins in a text without spaces, with an end or a space behind it, is that text. */
  lemma OneWord(word: string, t: string, w: string, i: nat)
    requires NoSpace(word) && word <= t && (|t| > |word| ==> IsSpace(t[|word|]))
    requires WordAt(t, w, i) && i <= |word|
    ensures word != "" && w == word
  {
    if i <= |word| < i + |w| {
      InsideIsNoSpace(t, w, i, |word|);
    }
    assert forall k :: 0 <= k < |word| ==> t[k] == word[k];
  }

  lemma OnlyItself(word: string, w: string)
    requires NoSpace(word)
    ensures HasWord(word, w) <==> word != "" && w == word
  {
    if i: nat :| WordAt(word, w, i) {
      OneWord(word, word, w, i);
    }
    if word != "" && w == word {
      assert WordAt(word, w, 0);
    }
  }

  /** What stands behind a space stands there in the whole. */
  lemma BehindTheSpace(front: string, s: string, w: string, i: nat)
    requires front != "" && IsSpace(front[|front| - 1])
    ensures WordAt(front + s, w, |front| + i) <==> WordAt(s, w, i)
  {
    var t, n := front + s, |front|;
    if i + |w| <= |s| {
      assert t[n + i..n + i + |w|] == s[i..i + |w|];
      assert i > 0 ==> t[n + i - 1] == s[i - 1];
      assert i + |w| < |s| ==> t[n + i + |w|] == s[i + |w|];
    }
  }

  /** A space ends the word before it. */
  lemma UpToTheSpace(word: string, s: string, w: string)
    requires NoSpace(word) && s != "" && IsSpace(s[0])
    ensures HasWord(word + s, w) <==> (word != "" && w == word) || HasWord(s[1..], w)
  {
    hide IsSpace;
    var front := word + [s[0]];
    var t, n := word + s, |front|;
    assert t == front + s[1..] && t[|word|] == s[0] && t[..|word|] == word;
    if i: nat :| WordAt(t, w, i) {
      if i < n {
        OneWord(word, t, w, i);
      } else {
        BehindTheSpace(front, s[1..], w, i - n);
      }
    }
    if word != "" && w == word {
      assert WordAt(t, w, 0);
    }
    if i: nat :| WordAt(s[1..], w, i) {
      BehindTheSpace(front, s[1..], w, i);
    }
  }

  lemma {:induction false} WordsFrom(word: string, s: string, w: string)
    requires NoSpace(word)
    ensures w in Words(word, s) <==> HasWord(word + s, w)
    decreases |s|
  {
    hide HasWord;
    if s == "" {
      assert word + s == word;
      OnlyItself(word, w);
    } else if IsSpace(s[0]) {
      UpToTheSpace(word, s, w);
      WordsFrom("", s[1..], w);
      assert "" + s[1..] == s[1..];
    } else {
      WordsFrom(word + [s[0]], s[1..], w);
      assert word + [s[0]] + s[1..] == word + s;
    }
  }

  /** A text's words are what stands in it between white space. */
  lemma WordsExactly(s: string, w: string)
    ensures w in Words("", s) <==> HasWord(s, w)
  {
    WordsFrom("", s, w);
    assert "" + s == s;
  }

  /** An item's words are those of its question and its answer. */
  lemma ItemWordsExactly(item: string, w: string)
    ensures w in ItemWords(item) <==>
              HasWord(FaqWidget.ParseFaqItemHtml(item).q, w) || HasWord(FaqWidget.ParseFaqItemHtml(item).a, w)
  {
    var f := FaqWidget.ParseFaqItemHtml(item);
    WordsExactly(f.q + " " + f.a, w);
    BothHaveWords(f.q, f.a, w);
  }

  lemma BothHaveWords(q: string, a: string, w: string)
    ensures HasWord(q + " " + a, w) <==> HasWord(q, w) || HasWord(a, w)
  {
    var t, n := q + " " + a, |q| + 1;
    assert t[|q|] == ' ';
    if i: nat :| WordAt(t, w, i) {
      if i < n {
        if i <= |q| < i + |w| {
          InsideIsNoSpace(t, w, i, |q|);
        }
        BeforeTheSpace(q, " " + a, w, i);
        assert q + (" " + a) == t;
      } else {
        BehindTheSpace(q + " ", a, w, i - n);
      }
    }
    if i: nat :| WordAt(q, w, i) {
      BeforeTheSpace(q, " " + a, w, i);
      assert q + (" " + a) == t;
    }
    if i: nat :| WordAt(a, w, i) {
      BehindTheSpace(q + " ", a, w, i);
    }
  }

  lemma BeforeTheSpace(q: string, s: string, w: string, i: nat)
    requires s != "" && IsSpace(s[0]) && i + |w| <= |q|
    ensures WordAt(q + s, w, i) <==> WordAt(q, w, i)
  {
    var t := q + s;
    assert t[i..i + |w|] == q[i..i + |w|];
    assert i > 0 ==> t[i - 1] == q[i - 1];
    assert i + |w| < |q| ==> t[i + |w|] == q[i + |w|];
  }

  /** Two items are as alike as the share of common words among all their words, and not
      at all when neither has a word. */
  lemma SimilarityExactly(c: string, w: string, shared: set<string>, all: set<string>)
    requires forall x :: x in shared <==> x in ItemWords(c) && x in ItemWords(w)
    requires forall x :: x in all <==> x in ItemWords(c) || x in ItemWords(w)
    ensures all != {} ==> FaqItemSimilarity(c, w) == |shared| as real / |all| as real
    ensures all == {} ==> FaqItemSimilarity(c, w) == 0.0
  {
    assert shared == ItemWords(c) * ItemWords(w);
    assert all == ItemWords(c) + ItemWords(w);
  }

  /** A removed item is matched exactly when an unused added one is alike to two fifths. */
  lemma MatchedExactly(item: string, added: seq<string>, used: set<nat>)
    ensures Best(item, added, used, FaqItemSimilarity) >= 0 <==>
              exists j :: 0 <= j < |added| && j !in used && FaqItemSimilarity(item, added[j]) >= 0.4
  {
    BestIsBest(item, added, used, FaqItemSimilarity);
  }
}

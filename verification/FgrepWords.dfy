/** fgrep on a list of words: which lines it reports. */
module FgrepWords {
  import opened Common
  import opened Keywords
  import opened Automaton
  import opened Fgrep
  import opened FgrepLaws

  /** The first n words, each on a line of its own. */
  function WordList(words: seq<Text>, n: nat): (t: Text)
    requires n <= |words|
  {
    if n == 0 then [] else WordList(words, n - 1) + words[n - 1] + ['\n' as byte]
  }

  predicate Words(words: seq<Text>) {
    forall k :: 0 <= k < |words| ==> words[k] != [] && '\n' as byte !in words[k]
  }

  predicate LineOf(text: Text, a: nat, e: nat) {
    && a <= e <= |text| && (a == 0 || text[a - 1] == '\n' as byte) && (e == |text| || text[e] == '\n' as byte)
    && forall i :: a <= i < e ==> text[i] != '\n' as byte
  }

  predicate HoldsWord(words: seq<Text>, line: seq<byte>) {
    exists k :: 0 <= k < |words| && Within(words[k], line)
  }

  predicate Within(word: Text, line: seq<byte>) {
    exists i: nat, j: nat :: i <= j <= |line| && line[i..j] == word
  }

  /** No word begins with a character that is further on in a word. */
  predicate FirstsApart(words: seq<Text>)
    requires Words(words)
  {
    forall j, k, i :: 0 <= j < |words| && 0 <= k < |words| && 0 < i < |words[j]| ==> words[j][i] != words[k][0]
  }

  // ---- The words are the keywords ----

  lemma {:induction false} SplitWord(t: Text, i: nat, lines: seq<Text>, word: Text, m: nat)
    requires NEWLINE !in word && i + |word| < |t| && t[i..i + |word|] == word && t[i + |word|] == NEWLINE && m <= |word|
    ensures Split(t, i + m, lines, Part(word, m)) == Split(t, i + |word| + 1, lines + [word], [])
    decreases |word| - m
  {
    SplitNext(t, i + m, lines, Part(word, m));
    if m < |word| {
      assert t[i + m] == t[i..i + |word|][m] && word[m] in word;
      assert Part(word, m) + [t[i + m]] == Part(word, m + 1);
      SplitWord(t, i, lines, word, m + 1);
    } else {
      assert Part(word, m) == word;
    }
  }

  /** The first n words of the list have been read. */
  lemma {:induction false} SplitWords(words: seq<Text>, t: Text, n: nat)
    requires Words(words) && n <= |words| && WordList(words, n) <= t
    ensures ReadAll(t) == Split(t, |WordList(words, n)|, words[..n], [])
  {
    if n > 0 {
      var before, word := WordList(words, n - 1), words[n - 1];
      var i := |before|;
      assert WordList(words, n) == before + (word + [NEWLINE]);
      assert before <= t;
      SplitWords(words, t, n - 1);
      assert t[i..i + |word|] == WordList(words, n)[i..i + |word|] == word;
      assert t[i + |word|] == WordList(words, n)[i + |word|];
      SplitWord(t, i, words[..n - 1], word, 0);
      assert Part(word, 0) == [] && words[..n - 1] + [word] == words[..n];
    }
  }

  lemma WordsAreKeywords(words: seq<Text>, t: Text)
    requires Words(words) && t == WordList(words, |words|)
    ensures forall w: Text :: Keyword(t, w) <==> w in words
  {
    SplitWords(words, t, |words|);
    assert words[..|words|] == words;
  }

  // ---- The guard ----

  /** A state is part of a word. */
  lemma StateInWord(words: seq<Text>, t: Text, u: Text) returns (j: nat)
    requires (forall w: Text :: Keyword(t, w) <==> w in words) && State(t, u) && u != []
    ensures j < |words| && u <= words[j]
  {
    var key: Text :| Keyword(t, key) && u <= key;
    j :| 0 <= j < |words| && words[j] == key;
  }

  /** No state begins within another. */
  lemma NotAState(words: seq<Text>, t: Text, u: Text, x: Text)
    requires Words(words) && FirstsApart(words) && (forall w: Text :: Keyword(t, w) <==> w in words)
    requires State(t, u) && SuffixOf(x, u) && 0 < |x| < |u|
    ensures !State(t, x)
  {
    var i := |u| - |x|;
    var j := StateInWord(words, t, u);
    assert words[j][i] == u[i] && u[i] == x[0];
    forall key: Text | Keyword(t, key)
      ensures !(x <= key)
    {
      var k :| 0 <= k < |words| && words[k] == key;
      assert words[j][i] != words[k][0];
    }
  }

  /** Then no link leads anywhere but to the root. */
  lemma NoLinks(words: seq<Text>, t: Text, u: Text)
    requires Words(words) && FirstsApart(words) && (forall w: Text :: Keyword(t, w) <==> w in words) && State(t, u) && u != []
    ensures Fall(t, u) == []
  {
    FallIsSuffix(t, u);
    forall x: Text | SuffixOf(x, u) && 0 < |x| < |u|
      ensures !State(t, x)
    {
      NotAState(words, t, u, x);
    }
  }

  lemma ApartIsGuarded(words: seq<Text>, t: Text)
    requires Words(words) && FirstsApart(words) && (forall w: Text :: Keyword(t, w) <==> w in words)
    ensures Guarded(t)
  {
    forall w: Text
      ensures GuardedAt(t, w)
    {
      if |w| >= 2 && State(t, w) {
        StateBefore(t, w);
        NoLinks(words, t, Front(w));
      }
    }
  }

  // ---- Which lines are reported ----

  lemma HeldIs(words: seq<Text>, t: Text, line: seq<byte>)
    requires forall w: Text :: Keyword(t, w) <==> w in words
    ensures HoldsKey(t, line) <==> HoldsWord(words, line)
  {
    if HoldsKey(t, line) {
      var key: Text :| Keyword(t, key) && Occurs(key, line);
      var a: nat, b: nat :| a <= b <= |line| && line[a..b] == key;
      assert Within(key, line);
    }
    if HoldsWord(words, line) {
      var k :| 0 <= k < |words| && Within(words[k], line);
      var i: nat, j: nat :| i <= j <= |line| && line[i..j] == words[k];
      assert Occurs(words[k], line);
    }
  }

  lemma LineIs(text: Text, a: nat, e: nat)
    ensures LineAt(text, a, e) <==> LineOf(text, a, e)
  {
    if a <= e <= |text| {
      assert forall i :: a <= i < e ==> text[a..e][i - a] == text[i];
      assert forall i :: 0 <= i < e - a ==> text[a..e][i] == text[i + a];
    }
  }

  /** Whatever the words, only lines that hold one are reported; if no word begins with a character that
      is further on in a word, and together they are not too long, all lines that do. */
  method FindWords(words: seq<Text>, text: Text) returns (ok: bool, hits: seq<(nat, nat)>)
    requires Words(words)
    ensures forall h :: h in hits ==> LineOf(text, h.0, h.1) && HoldsWord(words, text[h.0..h.1])
    ensures FirstsApart(words) && |WordList(words, |words|)| < 199 ==> ok
    ensures FirstsApart(words) && |WordList(words, |words|)| < 199 ==>
              forall a: nat, e: nat :: LineOf(text, a, e) && HoldsWord(words, text[a..e]) ==> (a, e) in hits
  {
    var t := WordList(words, |words|);
    WordsAreKeywords(words, t);
    ghost var course;
    ok, hits, course := Search(t, text);
    if !ok { hits := []; }
    forall a: nat, e: nat
      ensures LineAt(text, a, e) <==> LineOf(text, a, e)
      ensures a <= e <= |text| ==> (HoldsKey(t, text[a..e]) <==> HoldsWord(words, text[a..e]))
    {
      LineIs(text, a, e);
      if a <= e <= |text| {
        HeldIs(words, t, text[a..e]);
      }
    }
    if FirstsApart(words) && |t| < 199 {
      ApartIsGuarded(words, t);
    }
  }
}

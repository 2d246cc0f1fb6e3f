/** What a user of fgrep can rely on, and where it fails. */
module FgrepLaws {
  import opened Common
  import opened Keywords
  import opened KeywordTree
  import opened Automaton
  import opened Breadth
  import opened Ring
  import opened FailLinks
  import opened FailSearch
  import opened Fgrep

  /** Builds the automaton for the keywords in t and runs it over a text; not ok if there is no room.
      Whatever the keywords, each line reported holds one.  As long as rear does not leave the ring,
      the lines reported are those on which the automaton with the links of Fall comes to a marked
      state; and under the guard they are the lines that hold a keyword. */
  method Search(t: Text, text: Text) returns (ok: bool, hits: seq<(nat, nat)>, ghost course: Course)
    ensures ok ==> forall h :: h in hits ==> LineAt(text, h.0, h.1) && HoldsKey(t, text[h.0..h.1])
    ensures ok && course.Orderly? && !Keyword(t, []) ==>
      forall a: nat, e: nat :: LineAt(text, a, e) ==> ((a, e) in hits <==> Reported(t, text[a..e]))
    ensures ok && course.Orderly? && !Keyword(t, []) && Guarded(t) ==>
      forall a: nat, e: nat :: LineAt(text, a, e) ==> ((a, e) in hits <==> HoldsKey(t, text[a..e]))
    ensures 2 * |t| < 398 ==> ok && course.Orderly?
  {
    var m := new Machine();
    hits, course := [], Orderly;
    ok := m.CGotoFn(t);
    if ok {
      var r;
      ghost var ws;
      r, course, ws := m.CFail(m.smax + QSIZE + 1, t);
      ok := r == Complete;
      if ok {
        hits := m.Scan(text, t);
        if Guarded(t) && !Keyword(t, []) {
          ExactlyHeld(t, text);
        }
      }
    }
  }

  lemma ExactlyHeld(t: Text, text: Text)
    requires Guarded(t) && !Keyword(t, [])
    ensures forall a: nat, e: nat :: LineAt(text, a, e) ==> (Reported(t, text[a..e]) <==> HoldsKey(t, text[a..e]))
  {
    forall a: nat, e: nat | LineAt(text, a, e)
      ensures Reported(t, text[a..e]) <==> HoldsKey(t, text[a..e])
    {
      ReportedExactly(t, text[a..e]);
    }
  }

  /** With the keyword aabaaac nothing is reported of the text aabaaabaaac, which holds it. */
  method SearchMisses() returns (hits: seq<(nat, nat)>)
    ensures hits == [] && HoldsKey(Missed() + [NEWLINE], MissedLine()) && LineAt(MissedLine(), 0, |MissedLine()|)
  {
    var t: Text, text := Missed() + [NEWLINE], MissedLine();
    var ok;
    ghost var course;
    ok, hits, course := Search(t, text);
    HeldButMissed(t);
    OnlyKeyword(Missed(), t);
    assert text[0..|text|] == text;
    OneHit(text, hits);
  }

  /** A text of one line has only one line to report. */
  lemma OneHit(text: Text, hits: seq<(nat, nat)>)
    requires NEWLINE !in text && forall h :: h in hits ==> LineAt(text, h.0, h.1)
    ensures hits != [] ==> (0, |text|) in hits
  {
    if hits != [] {
      assert hits[0] in hits;
      OnlyLine(text, hits[0].0, hits[0].1);
    }
  }

  lemma OnlyLine(text: Text, a: nat, e: nat)
    requires NEWLINE !in text
    ensures LineAt(text, a, e) ==> a == 0 && e == |text|
  {
    assert 0 < a <= |text| ==> text[a - 1] in text;
    assert e < |text| ==> text[e] in text;
  }

  // ---- One keyword ----

  /** The states listed are beginnings of the keyword. */
  ghost predicate Beginnings(key: Text, ws: seq<Text>) {
    && (forall k :: 0 <= k < |ws| ==> ws[k] != [] && ws[k] <= key)
    && (forall i, j :: 0 <= i < j < |ws| ==> ws[i] != ws[j] && |ws[i]| <= |ws[j]|)
  }

  lemma {:induction false} LongerAndLonger(key: Text, ws: seq<Text>, i: nat, j: nat)
    requires Beginnings(key, ws) && i <= j < |ws|
    ensures |ws[j]| >= |ws[i]| + (j - i) && |ws[j]| >= j + 1
    decreases j
  {
    if j > 0 {
      assert |ws[j - 1]| < |ws[j]| by {
        assert ws[j - 1] == key[..|ws[j - 1]|] && ws[j] == key[..|ws[j]|];
      }
      LongerAndLonger(key, ws, if i < j then i else j - 1, j - 1);
    }
  }

  lemma NotCrowded(key: Text, ws: seq<Text>)
    requires Beginnings(key, ws)
    ensures !Crowded(ws) && |ws| <= |key|
  {
    forall k: nat | k + QSIZE - 1 <= |ws|
      ensures !CrowdedAt(ws, k)
    {
      LongerAndLonger(key, ws, k, k + QSIZE - 2);
    }
    if ws != [] {
      LongerAndLonger(key, ws, 0, |ws| - 1);
    }
  }

  /** If all beginnings are listed, they are listed in order. */
  lemma {:induction false} AllInOrder(key: Text, ws: seq<Text>, k: nat)
    requires Beginnings(key, ws) && k < |key| && forall n: nat :: 0 < n <= |key| ==> Part(key, n) in ws
    ensures k < |ws| && ws[k] == Part(key, k + 1)
  {
    var n := k + 1;
    assert Part(key, n) in ws;
    var j :| 0 <= j < |ws| && ws[j] == Part(key, n);
    LongerAndLonger(key, ws, j, j);
    if k > 0 {
      AllInOrder(key, ws, k - 1);
    }
    assert j >= k;
    LongerAndLonger(key, ws, k, j);
  }

  lemma LongStrays(key: Text, ws: seq<Text>)
    requires Beginnings(key, ws) && |key| >= QSIZE && forall n: nat :: 0 < n <= |key| ==> Part(key, n) in ws
    ensures Strays(ws)
  {
    AllInOrder(key, ws, QSIZE - 2);
    AllInOrder(key, ws, QSIZE - 1);
    PartNext(key, QSIZE - 1);
    assert Alone(ws, QSIZE - 1);
  }

  lemma ListsBeginnings(t: Text, key: Text, tree: Tree, ws: seq<Text>)
    requires Single(t, key) && Listing(tree, ws) && AllStates(t, tree)
    ensures Beginnings(key, ws)
  {
    forall k | 0 <= k < |ws|
      ensures ws[k] != [] && ws[k] <= key
    {
      assert Listed(tree, ws, k);
      SingleStates(t, key, ws[k]);
    }
  }

  lemma AllBeginnings(t: Text, key: Text, tree: Tree, ws: seq<Text>)
    requires Single(t, key) && Ok(tree) && HasNode(tree.word, key) && ListsAll(tree, ws)
    ensures forall n: nat :: 0 < n <= |key| ==> Part(key, n) in ws
  {
    var m :| 0 <= m < |tree.word| && tree.word[m] == key;
    forall n: nat | 0 < n <= |key|
      ensures Part(key, n) in ws
    {
      PrefixHasNode(tree, m, Part(key, n));
    }
  }

  /** With one keyword rear leaves the ring, and a state is stored past its end, exactly if the keyword
      has as many characters as the ring has slots, or more. */
  method OneKeyword(key: Text) returns (ok: bool, r: Outcome, ghost course: Course)
    requires key != [] && NEWLINE !in key
    ensures 2 * |key| + 2 < 6000 ==> ok
    ensures ok ==> (course.Over? <==> |key| >= 400) && (|key| < 400 ==> r == Complete && course.Orderly?)
  {
    var t: Text := key + [NEWLINE];
    var m := new Machine();
    r, course := Complete, Orderly;
    ok := m.CGotoFn(t);
    if ok {
      ghost var ws;
      OnlyKeyword(key, t);
      r, course, ws := m.CFail(m.smax + QSIZE + 1, t);
      ListsBeginnings(t, key, m.Nodes(), ws);
      NotCrowded(key, ws);
      if |key| >= QSIZE && course.Orderly? {
        AllBeginnings(t, key, m.Nodes(), ws);
        LongStrays(key, ws);
      }
      if course != Orderly {
        StraysLate(ws);
      }
    }
  }
}

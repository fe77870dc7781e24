/** The three analyses pwordcount runs on one slice of tokens: the total
    (word_counter: len(words)), the distinct count (unique_word_counter:
    len(set(words))) and the occurrence histogram (occurence_counter: a
    dictionary filled by a counting loop). */
module Analysis {

  /** set(words). */
  function Distinct(words: seq<string>): (r: set<string>)
    ensures forall i :: 0 <= i < |words| ==> words[i] in r
    ensures forall w :: w in r ==> w in multiset(words)
  {
    set w | w in words
  }

  /** The distinct words of a slice never outnumber its words. */
  lemma {:induction false} DistinctAtMostTotal(words: seq<string>)
    ensures |Distinct(words)| <= |words|
    decreases |words|
  {
    if words != [] {
      var init := words[..|words| - 1];
      var w := words[|words| - 1];
      assert words == init + [w];
      assert Distinct(words) == Distinct(init) + {w};
      DistinctAtMostTotal(init);
    }
  }

  /** The dictionary the counting loop holds after reading `words`, one word
      at a time: a word already present has its count raised by one, a new
      word enters with count 1. */
  function Histogram(words: seq<string>): (r: map<string, nat>)
    ensures forall w :: w in r ==> r[w] >= 1
    decreases |words|
  {
    if words == [] then map[]
    else
      var init := words[..|words| - 1];
      var h := Histogram(init);
      var w := words[|words| - 1];
      if w in h then h[w := h[w] + 1] else h[w := 1]
  }

  /** The histogram's keys are exactly the distinct words, and each word is
      mapped to the number of times it occurs, which is at least 1. */
  lemma {:induction false} HistogramCounts(words: seq<string>)
    ensures Histogram(words).Keys == Distinct(words)
    ensures forall w :: w in Histogram(words) ==> Histogram(words)[w] == multiset(words)[w] >= 1
    decreases |words|
  {
    if words != [] {
      var init := words[..|words| - 1];
      var w := words[|words| - 1];
      assert words == init + [w];
      assert Distinct(words) == Distinct(init) + {w};
      HistogramCounts(init);
    }
  }

  // ---------------------------------------------------------------------
  // Sum of a histogram's counts
  // ---------------------------------------------------------------------

  ghost function AnyKey(m: map<string, nat>): string
    requires m != map[]
  {
    var k :| k in m; k
  }

  /** The sum of all counts of a histogram. */
  ghost function SumCounts(m: map<string, nat>): nat
    decreases |m|
  {
    if m == map[] then 0
    else
      var k := AnyKey(m);
      assert m.Keys == (m - {k}).Keys + {k};
      m[k] + SumCounts(m - {k})
  }

  /** The sum does not depend on which key is taken out first. */
  lemma {:induction false} SumCountsTake(m: map<string, nat>, k: string)
    requires k in m
    ensures SumCounts(m) == m[k] + SumCounts(m - {k})
    decreases |m|
  {
    var j := AnyKey(m);
    if j != k {
      assert m.Keys == (m - {j}).Keys + {j};
      assert m.Keys == (m - {k}).Keys + {k};
      SumCountsTake(m - {j}, k);
      SumCountsTake(m - {k}, j);
      assert m - {j} - {k} == m - {k} - {j};
    }
  }

  lemma SumCountsUpdate(m: map<string, nat>, k: string, v: nat)
    ensures SumCounts(m[k := v]) == v + SumCounts(m - {k})
    ensures k in m ==> SumCounts(m) == m[k] + SumCounts(m - {k})
    ensures k !in m ==> SumCounts(m) == SumCounts(m - {k})
  {
    SumCountsTake(m[k := v], k);
    assert m[k := v] - {k} == m - {k};
    if k in m {
      SumCountsTake(m, k);
    } else {
      assert m - {k} == m;
    }
  }

  /** Counting one more occurrence of w raises the sum by one. */
  lemma SumCountsBump(h: map<string, nat>, w: string)
    ensures SumCounts(if w in h then h[w := h[w] + 1] else h[w := 1]) == SumCounts(h) + 1
  {
    if w in h {
      SumCountsUpdate(h, w, h[w] + 1);
    } else {
      SumCountsUpdate(h, w, 1);
    }
  }

  /** The counts of the histogram add up to the number of words. */
  lemma {:induction false} HistogramTotal(words: seq<string>)
    ensures SumCounts(Histogram(words)) == |words|
    decreases |words|
  {
    if words != [] {
      var init := words[..|words| - 1];
      var w := words[|words| - 1];
      var h := Histogram(init);
      HistogramTotal(init);
      SumCountsBump(h, w);
      assert Histogram(words) == if w in h then h[w := h[w] + 1] else h[w := 1];
    }
  }

  /** The distinct count of a slice is the number of keys of its histogram. */
  lemma DistinctIsHistogramSize(words: seq<string>)
    ensures |Distinct(words)| == |Histogram(words).Keys| <= |words|
  {
    HistogramCounts(words);
    DistinctAtMostTotal(words);
  }

  /** occurence_counter's counting loop over one slice. */
  method CountOccurrences(words: seq<string>) returns (wordCount: map<string, nat>)
    ensures wordCount == Histogram(words)
    ensures wordCount.Keys == Distinct(words)
    ensures forall w :: w in wordCount ==> wordCount[w] == multiset(words)[w] >= 1
    ensures SumCounts(wordCount) == |words|
  {
    wordCount := map[];
    var i := 0;
    while i < |words|
      invariant i <= |words|
      invariant wordCount == Histogram(words[..i])
    {
      var word := words[i];
      assert words[..i + 1][..i] == words[..i];
      if word in wordCount {
        wordCount := wordCount[word := wordCount[word] + 1];
      } else {
        wordCount := wordCount[word := 1];
      }
      i := i + 1;
    }
    assert words[..i] == words;
    HistogramCounts(words);
    HistogramTotal(words);
  }
}

/**
 * The query engine of queryengine/queryfuncs.c over an index read by
 * `readIndex`: `pullQueries` reads a line into groups of keywords,
 * `buildResults` ranks documents into `results[]` indexed by document id,
 * with `temp_counts[]` as scratch, and `sortResults` collects the ranked
 * documents into `sorted_results[]` and bubble-sorts them by rank.
 */
module QueryEngine {
  import opened Text
  import opened DictionarySpec
  import opened IndexSpec
  import opened QuerySpec
  import opened Dictionaries

  /**
   * `pullQueries` over the words of the line: 1 for the quit command, -1
   * for an empty line or one whose last group is empty, otherwise 0 and
   * the groups of lower-cased keywords. A line is read only up to the
   * "q" that quits it, so the buffer limits bind the words read so far.
   */
  method PullQueries(words: seq<string>) returns (code: int, queries: seq<seq<string>>)
    requires WithinLimits(words[..WordsRead(words, 0)])
    ensures code == Code(ParseQuery(words))
    ensures code == 1 <==> WordsRead(words, 0) < |words|
    ensures queries == if code == 0 then ParseQuery(words).groups else []
  {
    queries := [];
    var current: seq<string> := [];
    var pos := 0;
    ReadStart(words);
    while pos < |words|
      invariant 0 <= pos <= |words|
      invariant ReadSoFar(words, pos, queries, current)
      invariant WordsRead(words, 0) == WordsRead(words, pos)
      invariant pos < |words| ==> (current == [] <==> OpensGroup(words, pos))
      decreases |words| - pos
    {
      var word := words[pos];
      if |current| == 0 && word == "q" {
        ReadQuit(words, pos, queries, current);
        code, queries := 1, [];
        return;
      }
      ReadWord(words, pos, queries, current);
      if word == "OR" {
        queries := queries + [current];
        current := [];
      } else {
        current := current + [Lower(word)];
      }
      pos := pos + 1;
    }
    ReadEnd(words, queries, current);
    if |current| == 0 {
      code, queries := -1, [];
    } else {
      code, queries := 0, queries + [current];
    }
  }

  /**
   * `buildResults`: for each group in turn, each keyword's postings are
   * added up per document in `temp_counts`, then every document met has
   * its rank in `results` raised to that sum and is marked -1. At the end
   * each document the line ranks above zero holds its best group's rank
   * and -1; every other document is left as it was, with 0.
   */
  method BuildResults(index: Dictionary<seq<Posting>>, results: array<Posting>, temp: array<int>,
                      queries: seq<seq<string>>)
    requires index.Valid() && DocsInRange(index.Contents) && PositiveFreqs(index.Contents)
    requires results.Length == MAX_NUM_FILES && temp.Length == MAX_NUM_FILES
    requires forall d | 0 <= d < MAX_NUM_FILES :: temp[d] == 0
    requires forall i, k | 0 <= i < |queries| && 0 <= k < |queries[i]| :: '\0' !in queries[i][k]
    modifies results, temp
    ensures forall d | 0 <= d < MAX_NUM_FILES :: temp[d] == if Best(index.Contents, queries, d) > 0 then -1 else 0
    ensures forall d | 0 <= d < MAX_NUM_FILES ::
      results[d] == if Best(index.Contents, queries, d) > 0 then Posting(d, Best(index.Contents, queries, d)) else old(results[d])
  {
    ghost var es := index.Contents;
    ghost var o := results[..];
    MidStart(temp[..], results[..], es, queries);
    var i := 0;
    while i < |queries|
      invariant 0 <= i <= |queries|
      invariant Mid(temp[..], results[..], o, Ranks(es, queries[..i]), Zeros())
    {
      EvalGroup(index, results, temp, queries[i], o, Ranks(es, queries[..i]));
      RanksNext(es, queries, i);
      i := i + 1;
    }
    assert queries[..i] == queries;
    MidEnd(temp[..], results[..], o, es, queries);
  }

  /** One group of `buildResults`: its keywords' postings summed, then settled into the ranks. */
  method EvalGroup(index: Dictionary<seq<Posting>>, results: array<Posting>, temp: array<int>,
                   g: seq<string>, ghost o: seq<Posting>, ghost prev: seq<int>)
    requires index.Valid() && DocsInRange(index.Contents) && PositiveFreqs(index.Contents)
    requires results.Length == MAX_NUM_FILES && temp.Length == MAX_NUM_FILES
    requires forall k | 0 <= k < |g| :: '\0' !in g[k]
    requires Mid(temp[..], results[..], o, prev, Zeros())
    modifies results, temp
    ensures Mid(temp[..], results[..], o, Merged(prev, Sums(index.Contents, g), MAX_NUM_FILES),
                Pending(Sums(index.Contents, g), MAX_NUM_FILES))
  {
    ghost var es := index.Contents;
    assert Sums(es, g[..0]) == Zeros();
    var k := 0;
    while k < |g|
      invariant 0 <= k <= |g|
      invariant Mid(temp[..], results[..], o, prev, Sums(es, g[..k]))
    {
      var node := index.GetData(g[k]);
      PostingsOfIndexInRange(es, g[k]);
      if node != -1 {
        var ps := index.data[node];
        AddPostings(results, temp, ps, o, prev, Sums(es, g[..k]));
      } else {
        PlusNothing(Sums(es, g[..k]));
      }
      SumsNext(es, g, k);
      k := k + 1;
    }
    assert g[..k] == g;
    Finalize(results, temp, o, prev, Sums(es, g));
  }

  /** The walk over one keyword's posting list. */
  method AddPostings(results: array<Posting>, temp: array<int>, ps: seq<Posting>,
                     ghost o: seq<Posting>, ghost prev: seq<int>, ghost acc: seq<int>)
    requires results.Length == MAX_NUM_FILES && temp.Length == MAX_NUM_FILES
    requires PostingsInRange(ps)
    requires Mid(temp[..], results[..], o, prev, acc)
    modifies results, temp
    ensures Mid(temp[..], results[..], o, prev, Plus(acc, ps))
  {
    PlusNothing(acc);
    assert ps[..0] == [];
    var j := 0;
    while j < |ps|
      invariant 0 <= j <= |ps|
      invariant Mid(temp[..], results[..], o, prev, Plus(acc, ps[..j]))
    {
      CountPosting(results, temp, ps[j], o, prev, Plus(acc, ps[..j]));
      PlusSnoc(acc, ps[..j], ps[j]);
      TakeOneMore(ps, j);
      j := j + 1;
    }
    assert ps[..j] == ps;
  }

  /**
   * One posting (page_id, rank): a document not met yet gets the result
   * (page_id, rank) and count rank; one marked -1 by an earlier group
   * restarts at rank; otherwise rank is added to its count.
   */
  method CountPosting(results: array<Posting>, temp: array<int>, p: Posting,
                      ghost o: seq<Posting>, ghost prev: seq<int>, ghost acc: seq<int>)
    requires results.Length == MAX_NUM_FILES && temp.Length == MAX_NUM_FILES
    requires 0 <= p.doc < MAX_NUM_FILES && p.freq > 0
    requires Mid(temp[..], results[..], o, prev, acc)
    modifies results, temp
    ensures Mid(temp[..], results[..], o, prev, acc[p.doc := acc[p.doc] + p.freq])
  {
    var page_id, rank := p.doc, p.freq;
    ghost var t0, r0 := temp[..], results[..];
    assert MidAt(t0[page_id], r0[page_id], o[page_id], prev[page_id], acc[page_id], page_id);
    if temp[page_id] == 0 {
      results[page_id] := Posting(page_id, rank);
      temp[page_id] := rank;
    } else if temp[page_id] == -1 {
      temp[page_id] := temp[page_id] + (rank + 1);
    } else {
      temp[page_id] := temp[page_id] + rank;
    }
    assert temp[..] == t0[page_id := temp[page_id]];
    assert results[..] == r0[page_id := results[page_id]];
    assert prev[page_id := prev[page_id]] == prev;
    MidUpdate(t0, r0, o, prev, acc, page_id, temp[page_id], results[page_id], prev[page_id], acc[page_id] + rank);
  }

  /** The loop over all page indices closing a group. */
  method Finalize(results: array<Posting>, temp: array<int>,
                  ghost o: seq<Posting>, ghost prev: seq<int>, ghost acc: seq<int>)
    requires results.Length == MAX_NUM_FILES && temp.Length == MAX_NUM_FILES
    requires Mid(temp[..], results[..], o, prev, acc)
    modifies results, temp
    ensures Mid(temp[..], results[..], o, Merged(prev, acc, MAX_NUM_FILES), Pending(acc, MAX_NUM_FILES))
  {
    MergedStart(prev, acc);
    var page := 0;
    while page < MAX_NUM_FILES
      invariant 0 <= page <= MAX_NUM_FILES
      invariant Mid(temp[..], results[..], o, Merged(prev, acc, page), Pending(acc, page))
    {
      SettlePage(results, temp, page, o, prev, acc);
      page := page + 1;
    }
  }

  /** One page of that loop: a met page takes the larger rank and is marked -1. */
  method SettlePage(results: array<Posting>, temp: array<int>, page: int,
                    ghost o: seq<Posting>, ghost prev: seq<int>, ghost acc: seq<int>)
    requires results.Length == MAX_NUM_FILES && temp.Length == MAX_NUM_FILES
    requires |prev| == |acc| == MAX_NUM_FILES && 0 <= page < MAX_NUM_FILES
    requires Mid(temp[..], results[..], o, Merged(prev, acc, page), Pending(acc, page))
    modifies results, temp
    ensures Mid(temp[..], results[..], o, Merged(prev, acc, page + 1), Pending(acc, page + 1))
  {
    ghost var t0, r0 := temp[..], results[..];
    MergedNext(prev, acc, page);
    assert MidAt(t0[page], r0[page], o[page], prev[page], acc[page], page);
    if temp[page] != 0 {
      if temp[page] > results[page].freq {
        results[page] := results[page].(freq := temp[page]);
      }
      temp[page] := -1;
    }
    FinalizeAt(t0[page], r0[page], o[page], prev[page], acc[page], page);
    assert temp[..] == t0[page := temp[page]];
    assert results[..] == r0[page := results[page]];
    MidUpdate(t0, r0, o, Merged(prev, acc, page), Pending(acc, page), page,
              temp[page], results[page], Max(prev[page], acc[page]), 0);
  }

  /**
   * One round of the query loop of queryengine/query.c without the
   * printing: the line is read into groups and, when it is valid, the
   * documents are ranked and sorted into `sorted_results`. The answer is
   * `sorted_results[..n]`, and `temp_counts` is all 0 again afterwards.
   */
  method AnswerLine(index: Dictionary<seq<Posting>>, words: seq<string>,
                    results: array<Posting>, temp: array<int>, sorted: array<Posting>) returns (code: int, n: int)
    requires index.Valid() && DocsInRange(index.Contents) && PositiveFreqs(index.Contents)
    requires WithinLimits(words[..WordsRead(words, 0)])
    requires forall k | 0 <= k < |words| :: '\0' !in words[k]
    requires results.Length == MAX_NUM_FILES && temp.Length == MAX_NUM_FILES && sorted.Length == MAX_NUM_FILES
    requires results != sorted
    requires forall d | 0 <= d < MAX_NUM_FILES :: temp[d] == 0
    modifies results, temp, sorted
    ensures code == Code(ParseQuery(words))
    ensures forall d | 0 <= d < MAX_NUM_FILES :: temp[d] == 0
    ensures 0 <= n <= MAX_NUM_FILES
    ensures code != 0 ==> n == 0
    ensures code == 0 ==> IsAnswer(index.Contents, ParseQuery(words).groups, sorted[..n])
  {
    var queries;
    code, queries := PullQueries(words);
    n := 0;
    if code != 0 {
      return;
    }
    ParseKeywords(words);
    BuildResults(index, results, temp, queries);
    ghost var t := temp[..];
    n := SortResults(results, temp, sorted);
    Answer(index.Contents, queries, t, results[..], sorted[..n]);
  }

  /**
   * `sortResults`: every document met is collected, in id order, into
   * `sorted_results` and its count reset to 0; the collected results are
   * then bubble-sorted by decreasing rank. Returns their number.
   */
  method SortResults(results: array<Posting>, temp: array<int>, sorted: array<Posting>) returns (n: int)
    requires results.Length == MAX_NUM_FILES && temp.Length == MAX_NUM_FILES && sorted.Length == MAX_NUM_FILES
    requires results != sorted
    modifies temp, sorted
    ensures 0 <= n <= MAX_NUM_FILES
    ensures forall d | 0 <= d < MAX_NUM_FILES :: temp[d] == 0
    ensures StableSortOf(sorted[..n], Touched(old(temp[..]), results[..]))
    ensures forall k | n <= k < MAX_NUM_FILES :: sorted[k] == old(sorted[k])
  {
    n := Collect(results, temp, sorted);
    BubbleSort(sorted, n);
  }

  /** The first loop of `sortResults`. */
  method Collect(results: array<Posting>, temp: array<int>, sorted: array<Posting>) returns (n: int)
    requires results.Length == MAX_NUM_FILES && temp.Length == MAX_NUM_FILES && sorted.Length == MAX_NUM_FILES
    requires results != sorted
    modifies temp, sorted
    ensures 0 <= n <= MAX_NUM_FILES
    ensures forall d | 0 <= d < MAX_NUM_FILES :: temp[d] == 0
    ensures sorted[..n] == Touched(old(temp[..]), results[..])
    ensures forall k | n <= k < MAX_NUM_FILES :: sorted[k] == old(sorted[k])
  {
    ghost var t := temp[..];
    n := 0;
    var page := 0;
    assert t[..0] == [] && results[..0] == [];
    while page < MAX_NUM_FILES
      invariant 0 <= n <= page <= MAX_NUM_FILES
      invariant sorted[..n] == Touched(t[..page], results[..page])
      invariant forall d | 0 <= d < page :: temp[d] == 0
      invariant forall d | page <= d < MAX_NUM_FILES :: temp[d] == t[d]
      invariant forall k | n <= k < MAX_NUM_FILES :: sorted[k] == old(sorted[k])
    {
      n := CollectPage(results, temp, sorted, page, n, t);
      page := page + 1;
    }
    assert t[..page] == t && results[..page] == results[..];
  }

  /** One page of that loop: a met page is appended to `sorted_results` and its count reset. */
  method CollectPage(results: array<Posting>, temp: array<int>, sorted: array<Posting>, page: int, n: int,
                     ghost t: seq<int>) returns (n': int)
    requires results.Length == MAX_NUM_FILES && temp.Length == MAX_NUM_FILES && sorted.Length == MAX_NUM_FILES
    requires results != sorted && |t| == MAX_NUM_FILES
    requires 0 <= n <= page < MAX_NUM_FILES
    requires sorted[..n] == Touched(t[..page], results[..page])
    requires forall d | 0 <= d < page :: temp[d] == 0
    requires forall d | page <= d < MAX_NUM_FILES :: temp[d] == t[d]
    modifies temp, sorted
    ensures n <= n' <= page + 1
    ensures sorted[..n'] == Touched(t[..page + 1], results[..page + 1])
    ensures forall d | 0 <= d < page + 1 :: temp[d] == 0
    ensures forall d | page + 1 <= d < MAX_NUM_FILES :: temp[d] == t[d]
    ensures forall k | n' <= k < MAX_NUM_FILES :: sorted[k] == old(sorted[k])
  {
    TouchedNext(t, results[..], page);
    assert results[..][..page + 1] == results[..page + 1] && results[..][..page] == results[..page];
    n' := n;
    if temp[page] != 0 {
      temp[page] := 0;
      sorted[n] := results[page];
      assert sorted[..n + 1] == sorted[..n] + [results[page]];
      n' := n + 1;
    }
  }

  /**
   * The bubble sort of `sortResults`: passes over the first n entries,
   * swapping neighbours whose left rank is strictly lower, until a pass
   * swaps nothing or n passes are done.
   */
  method BubbleSort(a: array<Posting>, n: int)
    requires 0 <= n <= a.Length
    modifies a
    ensures StableSortOf(a[..n], old(a[..n]))
    ensures forall k | n <= k < a.Length :: a[k] == old(a[k])
  {
    ghost var src := a[..n];
    ghost var perm := seq(n, k => k);
    Identity(src);
    var s := 1;
    var i := 0;
    while i < n && s != 0
      invariant 0 <= i <= n
      invariant SuffixSorted(a[..n], n - i)
      invariant s == 0 ==> Descending(a[..n])
      invariant Arranged(perm, src, a[..n])
      invariant forall k | n <= k < a.Length :: a[k] == old(a[k])
    {
      s, perm := BubblePass(a, n, i, src, perm);
      i := i + 1;
    }
    ArrangedSorted(perm, src, a[..n]);
  }

  /** One pass of the bubble sort; s counts its swaps. */
  method BubblePass(a: array<Posting>, n: int, i: int, ghost src: seq<Posting>, ghost perm: seq<int>)
    returns (s: int, ghost perm': seq<int>)
    requires 0 <= i < n <= a.Length && SuffixSorted(a[..n], n - i)
    requires Arranged(perm, src, a[..n])
    modifies a
    ensures SuffixSorted(a[..n], n - i - 1)
    ensures s == 0 ==> Descending(a[..n])
    ensures Arranged(perm', src, a[..n])
    ensures forall k | n <= k < a.Length :: a[k] == old(a[k])
  {
    s, perm' := 0, perm;
    PassStart(a[..n], i);
    var j := 0;
    while j < n - 1
      invariant 0 <= j <= n - 1 && s >= 0
      invariant PassInv(a[..n], i, j, s == 0)
      invariant Arranged(perm', src, a[..n])
      invariant forall k | n <= k < a.Length :: a[k] == old(a[k])
    {
      s, perm' := Compare(a, n, i, j, s, src, perm');
      j := j + 1;
    }
    PassEnd(a[..n], i, s == 0);
  }

  /** One comparison of the inner loop: neighbours j and j + 1 swapped when the left ranks lower. */
  method Compare(a: array<Posting>, n: int, i: int, j: int, s: int, ghost src: seq<Posting>, ghost perm: seq<int>)
    returns (s': int, ghost perm': seq<int>)
    requires 0 <= i < n <= a.Length && 0 <= j < n - 1 && s >= 0
    requires PassInv(a[..n], i, j, s == 0) && Arranged(perm, src, a[..n])
    modifies a
    ensures s' >= 0 && PassInv(a[..n], i, j + 1, s' == 0) && Arranged(perm', src, a[..n])
    ensures forall k | n <= k < a.Length :: a[k] == old(a[k])
  {
    PassStep(a[..n], i, j, s == 0);
    s', perm' := s, perm;
    if a[j].freq < a[j + 1].freq {
      perm' := Exchange(a, n, j, src, perm);
      s' := s + 1;
    }
  }

  /** The swap of neighbours j and j + 1. */
  method Exchange(a: array<Posting>, n: int, j: int, ghost src: seq<Posting>, ghost perm: seq<int>)
    returns (ghost perm': seq<int>)
    requires 0 <= j < n - 1 && n <= a.Length
    requires Arranged(perm, src, a[..n]) && a[j].freq < a[j + 1].freq
    modifies a
    ensures a[..n] == Swap(old(a[..n]), j) && Arranged(perm', src, a[..n])
    ensures forall k | n <= k < a.Length :: a[k] == old(a[k])
  {
    ghost var before := a[..n];
    SwapArranged(perm, src, before, j);
    a[j], a[j + 1] := a[j + 1], a[j];
    assert a[..n] == Swap(before, j);
    perm' := Swap(perm, j);
  }
}

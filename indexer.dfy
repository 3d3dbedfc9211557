/**
 * The inverted index as index/indexer.c and util/dictionary.c keep it: a
 * `Dictionary` whose data are posting lists. `updateIndex` records one
 * occurrence of a word, `saveFile` writes the index as text and `readIndex`
 * builds an index from such a text, given as the sequence of its
 * whitespace-separated tokens.
 */
module Indexer {
  import opened Wrappers
  import opened Text
  import opened DictionarySpec
  import opened IndexSpec
  import opened Dictionaries

  /**
   * `updateIndex`: the word is lower-cased and `addData` offers it a
   * posting list [(d, 1)]; when the word was already there, its existing
   * list gets the occurrence instead. Always returns 0.
   */
  method UpdateIndex(word: string, d: int, index: Dictionary<seq<Posting>>) returns (r: int)
    requires index.Valid() && IsKey(word) && NonEmptyPostings(index.Contents)
    modifies index, index.buckets
    ensures index.Valid() && NonEmptyPostings(index.Contents)
    ensures index.Contents == IndexAdd(old(index.Contents), Lower(word), d)
    ensures r == 0
  {
    var w := Lower(word);
    LowerKey(word);
    IndexAddNonEmpty(index.Contents, w, d);
    var present := index.AddData(w, [Posting(d, 1)]);
    if present == 1 {
      CountOccurrence(index, w, d);
    }
    r := 0;
  }

  /**
   * The branch of `updateIndex` for a word already indexed: `getData`
   * finds its node and the node's posting list records one more
   * occurrence in document d.
   */
  method CountOccurrence(index: Dictionary<seq<Posting>>, w: string, d: int)
    requires index.Valid() && IsKey(w) && HasKey(index.Contents, w) && NonEmptyPostings(index.Contents)
    modifies index
    ensures index.Valid()
    ensures index.Contents == SetValue(old(index.Contents), w, AddPosting(Postings(old(index.Contents), w), d))
  {
    var node := index.GetData(w);
    if node != -1 {
      var ps := index.data[node];
      LookupNonEmpty(index.Contents, w);
      var ps' := AddToPostings(ps, d);
      index.SetData(node, ps');
    }
  }

  /**
   * The walk of `updateIndex` over a non-empty posting list: it stops at
   * the first posting for d, which counts one more, or at the last
   * posting, after which (d, 1) is linked.
   */
  method AddToPostings(ps: seq<Posting>, d: int) returns (r: seq<Posting>)
    requires |ps| > 0
    ensures r == AddPosting(ps, d)
  {
    var j := 0;
    var found := false;
    while true
      invariant 0 <= j < |ps|
      invariant forall k | 0 <= k < j :: ps[k].doc != d
      invariant !found
      decreases |ps| - j
    {
      if ps[j].doc == d {
        found := true;
        break;
      } else if j + 1 == |ps| {
        break;
      } else {
        j := j + 1;
      }
    }
    if found {
      AddPostingHit(ps, d, j);
      r := ps[j := Posting(d, ps[j].freq + 1)];
    } else {
      AddPostingMiss(ps, d);
      r := ps + [Posting(d, 1)];
    }
  }

  /**
   * `saveFile`: for each word node in list order, one line of text. The
   * text written is `IndexText` of the contents.
   */
  method SaveFile(index: Dictionary<seq<Posting>>) returns (out: string)
    requires index.Valid()
    ensures out == IndexText(index.Contents)
  {
    out := "";
    var cur := index.start;
    ghost var p := 0;
    while cur != -1
      invariant 0 <= p <= |index.order|
      invariant cur == if p < |index.order| then index.order[p] else -1
      invariant out == IndexText(index.Contents[..p])
      decreases |index.order| - p
    {
      var e := Entry(index.keys[cur], index.data[cur]);
      assert e == index.Contents[p];
      var line := WriteLine(e.key, e.value);
      IndexTextSnoc(index.Contents[..p], e);
      TakeOneMore(index.Contents, p);
      out := out + line;
      cur, p := index.next[cur], p + 1;
    }
    assert index.Contents[..p] == index.Contents;
  }

  /**
   * One line of `saveFile`: the word, the number of postings (counted by a
   * walk over the list) and then each posting as "id freq".
   */
  method WriteLine(key: string, ps: seq<Posting>) returns (line: string)
    ensures line == Line(Entry(key, ps))
  {
    var count := 0;
    var rest := ps;
    while rest != []
      invariant count + |rest| == |ps|
    {
      count := count + 1;
      rest := rest[1..];
    }
    var pairs := "";
    var j := 0;
    while j < |ps|
      invariant 0 <= j <= |ps|
      invariant pairs == PairsText(ps[..j])
    {
      PairsTextSnoc(ps[..j], ps[j]);
      assert ps[..j + 1] == ps[..j] + [ps[j]];
      pairs := pairs + (IntToDec(ps[j].doc) + " " + IntToDec(ps[j].freq) + " ");
      j := j + 1;
    }
    assert ps[..j] == ps;
    line := key + " " + (IntToDec(count) + " " + (pairs + "\n"));
  }

  /**
   * `readIndex`: a fresh dictionary, then each record of the file in turn,
   * as long as a word and a count can be read.
   */
  method ReadIndex(ts: seq<string>) returns (index: Dictionary<seq<Posting>>)
    requires ParseRecords(ts).Some?
    ensures fresh(index) && fresh(index.buckets) && index.Valid()
    ensures index.Contents == Load([], ParseRecords(ts).value)
    ensures NonEmptyPostings(index.Contents)
  {
    index := new Dictionary();
    var pos := 0;
    ghost var done: seq<Record> := [];
    ghost var rest := ParseRecords(ts).value;
    assert ts[0..] == ts;
    while pos < |ts|
      invariant 0 <= pos <= |ts| && ParseRecords(ts[pos..]) == Some(rest)
      invariant done + rest == ParseRecords(ts).value
      invariant fresh(index) && fresh(index.buckets) && index.Valid()
      invariant index.Contents == Load([], done)
      decreases |ts| - pos
    {
      ghost var n', ps, next := RecordStep(ts, pos);
      var word := ts[pos];
      var n := ParseInt(ts[pos + 1]).value;
      ReadPairs(index, word, n, ts, pos + 2, ps);
      LoadSnoc([], done, Record(word, ps));
      ghost var rest' := ParseRecords(ts[next..]).value;
      Associate(done, [Record(word, ps)], rest');
      done, rest := done + [Record(word, ps)], rest';
      var k := if n > 0 then n else 0;
      pos := pos + 2 + 2 * k;
      assert pos == next;
    }
    assert ts[pos..] == [];
    assert rest == [];
    AppendNothing(done);
    LoadNonEmpty([], done);
  }

  /**
   * The inner loop of `readIndex`: n times a pair of integers read with
   * `%d %d`, each added to the postings of `word`.
   */
  method ReadPairs(index: Dictionary<seq<Posting>>, word: string, n: int, ts: seq<string>, at: int,
                   ghost ps: seq<Posting>)
    requires index.Valid() && IsKey(word)
    requires |ps| == (if n > 0 then n else 0) && PairsAt(ts, at, ps)
    modifies index, index.buckets
    ensures index.Valid()
    ensures index.Contents == AddPairs(old(index.Contents), word, ps)
  {
    var i := 0;
    while i < n
      invariant 0 <= i <= |ps|
      invariant index.Valid()
      invariant index.Contents == AddPairs(old(index.Contents), word, ps[..i])
    {
      PairAt(ts, at, ps, i);
      var page := ParseInt(ts[at + 2 * i]).value;
      var count := ParseInt(ts[at + 2 * i + 1]).value;
      ReadPair(index, word, Posting(page, count));
      AddPairsNext(old(index.Contents), word, ps, i);
      i := i + 1;
    }
    assert ps[..i] == ps;
  }

  /**
   * One pair of `readIndex`: when `getData` finds the word, the posting is
   * linked after the last posting of its list; otherwise `addData` makes a
   * node for the word with the posting as its list.
   */
  method ReadPair(index: Dictionary<seq<Posting>>, word: string, p: Posting)
    requires index.Valid() && IsKey(word)
    modifies index, index.buckets
    ensures index.Valid()
    ensures index.Contents == AppendPosting(old(index.Contents), word, p)
  {
    var node := index.GetData(word);
    if node != -1 {
      var ps := index.data[node];
      index.SetData(node, ps + [p]);
    } else {
      var _ := index.AddData(word, [p]);
    }
  }
}

/**
 * The crawler of crawler/crawler.c: the global `dict` of URL nodes and the
 * global `url_list` of URLs extracted from the last page, with the
 * functions that read and update them and the crawl loop of `main`.
 *
 * Fetching a page and pulling its links out of the HTML are not modelled:
 * the web is a parameter `fetch` that gives, for a URL, the links of its
 * page in page order, or None when the page cannot be fetched.
 */
module Crawlers {
  import opened Wrappers
  import opened Text
  import opened DictionarySpec
  import opened Dictionaries
  import opened CrawlerSpec

  /** `allDigits`: 1 when every character of the string is a decimal digit, else 0. */
  method AllDigitsFlag(s: string) returns (r: int)
    requires '\0' !in s
    ensures r == 1 <==> AllDigits(s)
    ensures r == 0 || r == 1
  {
    var i := 0;
    while i < |s|
      invariant 0 <= i <= |s|
      invariant forall k | 0 <= k < i :: IsDigit(s[k])
    {
      if !IsDigit(s[i]) {
        return 0;
      }
      i := i + 1;
    }
    return 1;
  }

  /** The depth check of `main`: the depth, or None when the argument is refused. */
  method CheckDepth(arg: string) returns (depth: Option<nat>)
    requires '\0' !in arg
    ensures depth == DepthCheck(arg)
  {
    var digits := AllDigitsFlag(arg);
    if digits == 0 {
      return None;
    }
    var n := DecToNat(arg);
    if n > MAX_DEPTH {
      return None;
    }
    return Some(n);
  }

  class Crawler {
    /** `dict`: one URL node per URL ever found, keyed by the URL. */
    var dict: Dictionary<UrlNode>
    /** `url_list[0..url_index)`: the prefixed URLs of the last page parsed. */
    var urlList: seq<string>

    ghost predicate Valid()
      reads this, dict, dict.buckets
    {
      && dict.Valid()
      && UrlsMatch(dict.Contents)
      && |urlList| <= MAX_URL_PER_PAGE
      && (forall u | u in urlList :: IsKey(u))
    }

    /** The program's globals before `main`: no URLs, an empty dictionary. */
    constructor ()
      ensures Valid() && dict.Contents == [] && urlList == []
      ensures fresh(dict) && fresh(dict.buckets)
    {
      dict := new Dictionary();
      urlList := [];
    }

    /**
     * `getAddressFromTheLinksToBeVisited`: walks the list from its start
     * and gives the URL of the first node waiting at depth d, or None.
     */
    method GetAddress(d: int) returns (url: Option<string>)
      requires Valid()
      ensures url == FirstWaiting(dict.Contents, d)
    {
      var cur := dict.start;
      ghost var p := 0;
      ghost var es := dict.Contents;
      while cur != -1
        invariant 0 <= p <= |dict.order|
        invariant cur == if p < |dict.order| then dict.order[p] else -1
        invariant FirstWaiting(es, d) == FirstWaiting(es[p..], d)
        decreases |dict.order| - p
      {
        var n := dict.data[cur];
        assert es[p..][0] == es[p] && es[p..][1..] == es[p + 1..];
        if !n.visited && n.depth == d {
          return Some(n.url);
        }
        cur := dict.next[cur];
        p := p + 1;
      }
      return None;
    }

    /**
     * `setURLasVisited`: the node of `url` is marked visited, nothing else
     * changes. The URL must be in the dictionary: the node `getData`
     * returns is dereferenced without a check.
     */
    method SetURLasVisited(url: string)
      requires Valid() && HasKey(dict.Contents, url)
      modifies dict
      ensures Valid()
      ensures dict.Contents == SetValue(old(dict.Contents), url, Lookup(old(dict.Contents), url).value.(visited := true))
    {
      assert '\0' !in url by {
        var i :| 0 <= i < |dict.Contents| && dict.Contents[i].key == url;
        assert IsKey(dict.Contents[i].key);
      }
      SetVisitedMatch(dict.Contents, url);
      var node := dict.GetData(url);
      var unode := dict.data[node];
      dict.SetData(node, unode.(visited := true));
    }

    /**
     * `updateListLinkToBeVisited`: each URL of `url_list`, in order, is
     * offered to the dictionary as an unvisited node at `depth`; a URL
     * already there keeps its node.
     */
    method UpdateList(depth: int)
      requires Valid()
      modifies dict, dict.buckets
      ensures Valid()
      ensures dict.Contents == AddUrls(old(dict.Contents), urlList, depth)
    {
      var i := 0;
      while i < |urlList|
        invariant 0 <= i <= |urlList|
        invariant Valid()
        invariant dict.Contents == AddUrls(old(dict.Contents), urlList[..i], depth)
      {
        assert urlList[..i + 1][..i] == urlList[..i];
        Offer(urlList[i], depth);
        i := i + 1;
      }
      assert urlList[..i] == urlList;
    }

    /** One trip round the loop of `updateListLinkToBeVisited`: `addData` of a new node for `url`. */
    method Offer(url: string, depth: int)
      requires Valid() && IsKey(url)
      modifies dict, dict.buckets
      ensures Valid()
      ensures dict.Contents == Insert(old(dict.Contents), url, UrlNode(url, depth, false))
    {
      InsertEntries(dict.Contents, url, UrlNode(url, depth, false));
      var r := dict.AddData(url, UrlNode(url, depth, false));
    }

    /**
     * `extractURLs`: `url_list` is emptied and refilled with the URLs of
     * the page that start with `URL_PREFIX`, in page order.
     */
    method ExtractURLs(cands: seq<string>)
      requires Valid() && PageOk(cands)
      modifies this
      ensures Valid() && dict == old(dict)
      ensures urlList == KeepPrefixed(cands)
    {
      urlList := [];
      var i := 0;
      while i < |cands|
        invariant 0 <= i <= |cands|
        invariant urlList == KeepPrefixed(cands[..i]) && dict == old(dict)
      {
        var u := cands[i];
        assert cands[..i + 1][..i] == cands[..i];
        if HasPrefix(u) {
          urlList := urlList + [u];
        }
        i := i + 1;
      }
      assert cands[..i] == cands;
      KeepPrefixedMembers(cands);
    }

    /**
     * One round of the inner loop of `main` on the URL handed out at depth
     * d: mark it visited, fetch its page and, when that works, extract its
     * links and offer them at depth d + 1. The URL had not been crawled
     * before and is logged now; one node fewer waits at d, and no count
     * grows except the one at d + 1.
     */
    method Visit(url: string, d: int, fetch: string -> Option<seq<string>>, ghost visits: seq<string>)
      requires Valid() && HasKey(dict.Contents, url) && Waiting(Lookup(dict.Contents, url).value, d)
      requires Logged(dict.Contents, visits)
      requires fetch(url).Some? ==> PageOk(fetch(url).value)
      modifies this, dict, dict.buckets
      ensures Valid() && dict == old(dict)
      ensures dict.Contents == CrawlerSpec.Visit(old(dict.Contents), url, fetch(url), d)
      ensures url !in visits && Logged(dict.Contents, visits + [url])
      ensures forall k | k != d + 1 :: CountWaiting(dict.Contents, k) == CountWaiting(old(dict.Contents), k) - if k == d then 1 else 0
    {
      ghost var es := dict.Contents;
      forall k | k != d + 1
        ensures CountWaiting(CrawlerSpec.Visit(es, url, fetch(url), d), k) == CountWaiting(es, k) - if k == d then 1 else 0
      {
        VisitProgress(es, visits, url, fetch(url), d, k);
      }
      VisitProgress(es, visits, url, fetch(url), d, d);
      SetURLasVisited(url);
      var page := fetch(url);
      if page.Some? {
        ExtractURLs(page.value);
        UpdateList(d + 1);
      }
    }

    /**
     * The seed node linked in as the only node of the empty dictionary,
     * at depth 0 and unvisited: what `addData` does on an empty dictionary.
     */
    method LinkSeed(seed: string)
      requires Valid() && dict.Contents == [] && IsKey(seed)
      modifies dict, dict.buckets
      ensures Valid()
      ensures dict.Contents == [Entry(seed, UrlNode(seed, 0, false))]
    {
      var r := dict.AddData(seed, UrlNode(seed, 0, false));
      assert UrlsMatch(dict.Contents);
    }

    /**
     * The start of `main` after the depth check: the seed's page is parsed,
     * the seed goes into the empty dictionary at depth 0, its links at
     * depth 1, and the seed is marked visited.
     */
    method Bootstrap(seed: string, cands: seq<string>)
      requires Valid() && dict.Contents == [] && IsKey(seed) && PageOk(cands)
      modifies this, dict, dict.buckets
      ensures Valid() && dict == old(dict)
      ensures dict.Contents == Seeded(seed, cands)
    {
      ExtractURLs(cands);
      LinkSeed(seed);
      ghost var e0 := dict.Contents;
      assert HasKey(e0, seed) && Lookup(e0, seed) == Some(UrlNode(seed, 0, false)) by {
        assert e0[0].key == seed;
      }
      UpdateList(1);
      AddUrlsLookup(e0, urlList, 1, seed);
      assert Lookup(dict.Contents, seed) == Some(UrlNode(seed, 0, false));
      SetURLasVisited(seed);
    }

    /**
     * `main` after its argument checks: the depth argument is checked,
     * the seed is crawled, and then for each depth from 1 to the maximum
     * every URL waiting at that depth is handed out and crawled.
     * `visits` lists the URLs marked visited, in the order they were
     * handed out, the seed first, whether or not their fetch succeeded.
     * No URL found deeper than the maximum is marked visited, so none is
     * fetched: every logged URL's node has depth at most the maximum.
     */
    method Crawl(seed: string, arg: string, fetch: string -> Option<seq<string>>)
      returns (status: int, visits: seq<string>)
      requires Valid() && dict.Contents == []
      requires IsKey(seed) && '\0' !in arg
      requires fetch(seed).Some?
      requires forall u :: fetch(u).Some? ==> PageOk(fetch(u).value)
      modifies this, dict, dict.buckets
      ensures status == 0 || status == 1
      ensures status == 1 <==> DepthCheck(arg).None?
      ensures status == 1 ==> visits == []
      ensures status == 0 ==> |visits| > 0 && visits[0] == seed && Distinct(visits)
      ensures status == 0 ==> Logged(dict.Contents, visits)
      ensures status == 0 ==> forall k | 0 <= k <= DepthCheck(arg).value :: CountWaiting(dict.Contents, k) == 0
      ensures status == 0 ==> VisitedWithin(dict.Contents, DepthCheck(arg).value)
      ensures status == 0 ==> forall k | 0 <= k < |visits| ::
        HasKey(dict.Contents, visits[k]) && Lookup(dict.Contents, visits[k]).value.depth <= DepthCheck(arg).value
    {
      var maxDepth := CheckDepth(arg);
      if maxDepth.None? {
        return 1, [];
      }
      Bootstrap(seed, fetch(seed).value);
      SeededState(seed, fetch(seed).value);
      SeededWithin(seed, fetch(seed).value);
      visits := CrawlLevels(maxDepth.value, fetch, [seed]);
      forall k | 0 <= k < |visits|
        ensures HasKey(dict.Contents, visits[k]) && Lookup(dict.Contents, visits[k]).value.depth <= maxDepth.value
      {
        VisitedMeans(dict.Contents, visits[k]);
        LookupSomeAt(dict.Contents, visits[k]);
      }
      return 0, visits;
    }

    /**
     * The outer loop of `main`: depth by depth from 1 up to `maxDepth`,
     * crawl everything waiting at that depth.
     */
    method CrawlLevels(maxDepth: nat, fetch: string -> Option<seq<string>>, visits0: seq<string>)
      returns (visits: seq<string>)
      requires Valid() && Logged(dict.Contents, visits0)
      requires |visits0| > 0 && Distinct(visits0)
      requires CountWaiting(dict.Contents, 0) == 0 && VisitedWithin(dict.Contents, 0)
      requires forall u :: fetch(u).Some? ==> PageOk(fetch(u).value)
      modifies this, dict, dict.buckets
      ensures Valid() && dict == old(dict)
      ensures |visits| >= |visits0| && visits[..|visits0|] == visits0 && Distinct(visits)
      ensures Logged(dict.Contents, visits)
      ensures forall k | 0 <= k <= maxDepth :: CountWaiting(dict.Contents, k) == 0
      ensures VisitedWithin(dict.Contents, maxDepth)
    {
      visits := visits0;
      var d := 1;
      while d <= maxDepth
        invariant 1 <= d <= maxDepth + 1
        invariant Valid() && dict == old(dict)
        invariant |visits| >= |visits0| && visits[..|visits0|] == visits0 && Distinct(visits)
        invariant Logged(dict.Contents, visits)
        invariant forall k | 0 <= k < d :: CountWaiting(dict.Contents, k) == 0
        invariant VisitedWithin(dict.Contents, d - 1)
        decreases maxDepth + 1 - d
      {
        ghost var before := visits;
        visits := CrawlDepth(d, fetch, visits);
        assert visits[..|visits0|] == visits0 by {
          assert visits[..|before|][..|visits0|] == visits[..|visits0|];
        }
        d := d + 1;
      }
    }

    /**
     * The inner loop of `main` at depth d: hand out and crawl URLs until
     * none waits at d. Each is marked visited before its page is fetched.
     */
    method CrawlDepth(d: int, fetch: string -> Option<seq<string>>, visits0: seq<string>)
      returns (visits: seq<string>)
      requires Valid() && Logged(dict.Contents, visits0)
      requires |visits0| > 0 && Distinct(visits0)
      requires forall k | 0 <= k < d :: CountWaiting(dict.Contents, k) == 0
      requires VisitedWithin(dict.Contents, d)
      requires forall u :: fetch(u).Some? ==> PageOk(fetch(u).value)
      modifies this, dict, dict.buckets
      ensures Valid() && dict == old(dict)
      ensures |visits| >= |visits0| && visits[..|visits0|] == visits0 && Distinct(visits)
      ensures Logged(dict.Contents, visits)
      ensures forall k | 0 <= k <= d :: CountWaiting(dict.Contents, k) == 0
      ensures VisitedWithin(dict.Contents, d)
      ensures FoundAt(dict.Contents, visits[|visits0|..], d)
    {
      visits := visits0;
      var url := GetAddress(d);
      while url.Some?
        invariant Valid() && dict == old(dict)
        invariant |visits| >= |visits0| && visits[..|visits0|] == visits0 && Distinct(visits)
        invariant Logged(dict.Contents, visits)
        invariant forall k | 0 <= k < d :: CountWaiting(dict.Contents, k) == 0
        invariant url == FirstWaiting(dict.Contents, d)
        invariant VisitedWithin(dict.Contents, d)
        invariant FoundAt(dict.Contents, visits[|visits0|..], d)
        decreases CountWaiting(dict.Contents, d)
      {
        visits, url := Round(url.value, d, fetch, visits0, visits);
      }
      NoneWaiting(dict.Contents, d);
    }

    /**
     * One trip round the inner loop: crawl the URL handed out, log it, and
     * ask for the next one. The log only grows and never repeats a URL.
     */
    method Round(url: string, d: int, fetch: string -> Option<seq<string>>, ghost visits0: seq<string>, visits: seq<string>)
      returns (visits': seq<string>, next: Option<string>)
      requires Valid() && Logged(dict.Contents, visits)
      requires |visits| >= |visits0| && visits[..|visits0|] == visits0 && Distinct(visits)
      requires forall k | 0 <= k < d :: CountWaiting(dict.Contents, k) == 0
      requires FirstWaiting(dict.Contents, d) == Some(url)
      requires VisitedWithin(dict.Contents, d) && FoundAt(dict.Contents, visits[|visits0|..], d)
      requires forall u :: fetch(u).Some? ==> PageOk(fetch(u).value)
      modifies this, dict, dict.buckets
      ensures Valid() && dict == old(dict)
      ensures HasKey(old(dict.Contents), url) && dict.Contents == CrawlerSpec.Visit(old(dict.Contents), url, fetch(url), d)
      ensures visits' == visits + [url]
      ensures VisitedWithin(dict.Contents, d) && FoundAt(dict.Contents, visits'[|visits0|..], d)
      ensures |visits'| >= |visits0| && visits'[..|visits0|] == visits0 && Distinct(visits')
      ensures Logged(dict.Contents, visits')
      ensures forall k | 0 <= k < d :: CountWaiting(dict.Contents, k) == 0
      ensures next == FirstWaiting(dict.Contents, d)
      ensures CountWaiting(dict.Contents, d) < CountWaiting(old(dict.Contents), d)
    {
      FirstWaitingFound(dict.Contents, d);
      ghost var es := dict.Contents;
      VisitWithin(es, url, fetch(url), d);
      Visit(url, d, fetch, visits);
      visits' := visits + [url];
      VisitFoundAt(es, url, fetch(url), d, visits[|visits0|..]);
      assert visits'[|visits0|..] == visits[|visits0|..] + [url];
      DistinctSnoc(visits, url);
      assert visits'[..|visits0|] == visits0 by {
        assert visits'[..|visits|] == visits;
      }
      next := GetAddress(d);
    }
  }
}

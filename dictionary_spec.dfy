/**
 * The value-level view of util/dictionary.c: the dictionary seen as the
 * sequence of its entries in list order (start -> next -> ... -> NULL),
 * the bucket discipline that `addData` keeps (all keys that hash to the
 * same slot form one contiguous run, headed by `hash[slot]`), and the
 * effect of insertion and lookup on that sequence.
 */
module DictionarySpec {
  import opened Wrappers
  import opened Hash

  /** `KEY_LENGTH` of util/dictionary.h: size of a node's key buffer. */
  const KEY_LENGTH: nat := 2049
  /** `MAX_HASH_SLOT` of util/dictionary.h: number of buckets. */
  const MAX_HASH_SLOT: nat := 10000

  /** One dictionary node as seen from outside: its key and its data. */
  datatype Entry<T> = Entry(key: string, value: T)

  /**
   * A key `addData` stores faithfully: a C string short enough for
   * `strncpy` into the key buffer to keep its terminator.
   */
  predicate IsKey(k: string) {
    IsCString(k) && |k| < KEY_LENGTH
  }

  /** `hash()` of util/dictionary.c: the djb2 hash reduced to a bucket. */
  function Bucket(key: string): (h: nat)
    ensures h < MAX_HASH_SLOT
  {
    Djb2(key) % MAX_HASH_SLOT
  }

  predicate HasKey<T>(es: seq<Entry<T>>, key: string) {
    exists i | 0 <= i < |es| :: es[i].key == key
  }

  ghost predicate UniqueKeys<T>(es: seq<Entry<T>>) {
    forall i, j | 0 <= i < j < |es| :: es[i].key != es[j].key
  }

  /** Entries of one bucket are never separated by an entry of another. */
  ghost predicate Contiguous<T>(es: seq<Entry<T>>) {
    forall i, k, j | 0 <= i <= k <= j < |es| && Bucket(es[i].key) == Bucket(es[j].key) ::
      Bucket(es[k].key) == Bucket(es[i].key)
  }

  /**
   * `heads[h]` is the position (in list order) of the node `hash[h]` points
   * at, or -1 for NULL. Every entry's bucket head lies at or before it, and
   * wherever the bucket changes between neighbours a run starts at its head.
   */
  ghost predicate RunHeads<T>(es: seq<Entry<T>>, heads: seq<int>) {
    && |heads| == MAX_HASH_SLOT
    && (forall h | 0 <= h < MAX_HASH_SLOT :: -1 <= heads[h] < |es|)
    && (forall h | 0 <= h < MAX_HASH_SLOT && heads[h] != -1 :: Bucket(es[heads[h]].key) == h)
    && (forall i | 0 <= i < |es| :: 0 <= heads[Bucket(es[i].key)] <= i)
    && (forall i | 0 < i < |es| :: StartsRun(es, heads, i))
  }

  /** Where the bucket changes between entries i - 1 and i, `hash[]` points at entry i. */
  ghost predicate StartsRun<T>(es: seq<Entry<T>>, heads: seq<int>, i: int)
    requires |heads| == MAX_HASH_SLOT && 0 < i < |es|
  {
    Bucket(es[i].key) != Bucket(es[i - 1].key) ==> heads[Bucket(es[i].key)] == i
  }

  /** The dictionary invariant at the level of entries. */
  ghost predicate WellFormed<T>(es: seq<Entry<T>>, heads: seq<int>) {
    && (forall i | 0 <= i < |es| :: IsKey(es[i].key))
    && UniqueKeys(es)
    && RunHeads(es, heads)
  }

  /** Position of the last entry of bucket `h`, or -1 when the bucket is empty. */
  function LastOfBucket<T>(es: seq<Entry<T>>, h: nat): (r: int)
    ensures -1 <= r < |es|
    ensures r >= 0 ==> Bucket(es[r].key) == h
    ensures forall k | r < k < |es| :: Bucket(es[k].key) != h
  {
    if es == [] then -1
    else if Bucket(es[|es| - 1].key) == h then |es| - 1
    else LastOfBucket(es[..|es| - 1], h)
  }

  /**
   * What `addData` does to the entry sequence: nothing when the key is
   * present; otherwise the new entry goes right after the last entry of
   * its bucket, or at the tail when its bucket is empty.
   */
  function Insert<T>(es: seq<Entry<T>>, key: string, v: T): seq<Entry<T>> {
    if HasKey(es, key) then es
    else
      var j := LastOfBucket(es, Bucket(key));
      if j < 0 then es + [Entry(key, v)] else es[..j + 1] + [Entry(key, v)] + es[j + 1..]
  }

  /** The data stored under `key`, if any. */
  function Lookup<T>(es: seq<Entry<T>>, key: string): (r: Option<T>)
    ensures r.Some? <==> HasKey(es, key)
  {
    if es == [] then None
    else if es[0].key == key then Some(es[0].value)
    else
      assert HasKey(es, key) ==> HasKey(es[1..], key) by {
        if HasKey(es, key) && es[0].key != key {
          var i :| 0 <= i < |es| && es[i].key == key;
          assert es[1..][i - 1].key == key;
        }
      }
      Lookup(es[1..], key)
  }

  /** The entry of `key` with its data replaced (a write through the node pointer). */
  function SetValue<T>(es: seq<Entry<T>>, key: string, v: T): (r: seq<Entry<T>>)
    ensures |r| == |es|
    ensures forall i | 0 <= i < |es| :: r[i].key == es[i].key
  {
    seq(|es|, i requires 0 <= i < |es| => if es[i].key == key then Entry(key, v) else es[i])
  }

  // ---------------------------------------------------------------------
  // The bucket discipline

  /** The local run-head conditions imply that buckets are contiguous runs. */
  lemma {:induction false} RunHeadsContiguous<T>(es: seq<Entry<T>>, heads: seq<int>)
    requires RunHeads(es, heads)
    ensures Contiguous(es)
  {
    forall i, k, j | 0 <= i <= k <= j < |es| && Bucket(es[i].key) == Bucket(es[j].key)
      ensures Bucket(es[k].key) == Bucket(es[i].key)
    {
      RunBetween(es, heads, i, k, j);
    }
  }

  lemma {:induction false} RunBetween<T>(es: seq<Entry<T>>, heads: seq<int>, i: int, k: int, j: int)
    requires RunHeads(es, heads)
    requires 0 <= i <= k <= j < |es| && Bucket(es[i].key) == Bucket(es[j].key)
    ensures Bucket(es[k].key) == Bucket(es[i].key)
    decreases j - k
  {
    if k < j {
      // entry k + 1 is in the bucket; had entry k been elsewhere, a run would
      // start at k + 1 at the bucket's head, which lies at or before i
      RunBetween(es, heads, i, k + 1, j);
      assert StartsRun(es, heads, k + 1);
      assert 0 <= heads[Bucket(es[i].key)] <= i;
    }
  }

  /** `hash[h]` designates the first entry of bucket `h`. */
  lemma HeadIsFirst<T>(es: seq<Entry<T>>, heads: seq<int>, h: nat)
    requires RunHeads(es, heads) && h < MAX_HASH_SLOT
    ensures heads[h] == -1 <==> forall i | 0 <= i < |es| :: Bucket(es[i].key) != h
    ensures heads[h] != -1 ==> forall i | 0 <= i < heads[h] :: Bucket(es[i].key) != h
  {
  }

  /**
   * When entry i is in bucket h, at or after its head, and the entry after
   * i (if any) lies elsewhere, then every entry of bucket h lies between
   * the head and i, and i is the last of them.
   */
  lemma EndOfRun<T>(es: seq<Entry<T>>, heads: seq<int>, h: nat, i: int)
    requires RunHeads(es, heads) && h < MAX_HASH_SLOT
    requires 0 <= heads[h] <= i < |es| && Bucket(es[i].key) == h
    requires i + 1 == |es| || Bucket(es[i + 1].key) != h
    ensures LastOfBucket(es, h) == i
    ensures forall k | 0 <= k < |es| && Bucket(es[k].key) == h :: heads[h] <= k <= i
  {
    forall k | 0 <= k < |es| && Bucket(es[k].key) == h
      ensures heads[h] <= k <= i
    {
      NotPastRun(es, heads, h, i, k);
    }
    var r := LastOfBucket(es, h);
    NotPastRun(es, heads, h, i, r);
  }

  /** A walk over bucket h's whole run that never met the key shows the key is absent. */
  lemma RunMiss<T>(es: seq<Entry<T>>, heads: seq<int>, key: string, i: int)
    requires RunHeads(es, heads)
    requires 0 <= heads[Bucket(key)] <= i < |es| && Bucket(es[i].key) == Bucket(key)
    requires i + 1 == |es| || Bucket(es[i + 1].key) != Bucket(key)
    requires forall k | heads[Bucket(key)] <= k <= i :: es[k].key != key
    ensures !HasKey(es, key)
  {
    EndOfRun(es, heads, Bucket(key), i);
  }

  lemma NotPastRun<T>(es: seq<Entry<T>>, heads: seq<int>, h: nat, i: int, k: int)
    requires RunHeads(es, heads) && h < MAX_HASH_SLOT
    requires 0 <= i < |es| && Bucket(es[i].key) == h
    requires i + 1 == |es| || Bucket(es[i + 1].key) != h
    requires 0 <= k < |es| && Bucket(es[k].key) == h
    ensures heads[h] <= k <= i
  {
    if k > i {
      RunBetween(es, heads, i, i + 1, k);
    }
  }

  /** Splicing a fresh key right after the last entry of its bucket keeps the invariant. */
  lemma SpliceWellFormed<T>(es: seq<Entry<T>>, heads: seq<int>, i: int, e: Entry<T>)
    requires WellFormed(es, heads) && IsKey(e.key) && !HasKey(es, e.key)
    requires 0 <= heads[Bucket(e.key)] <= i < |es| && Bucket(es[i].key) == Bucket(e.key)
    requires i + 1 == |es| || Bucket(es[i + 1].key) != Bucket(e.key)
    ensures WellFormed(es[..i + 1] + [e] + es[i + 1..], ShiftHeads(heads, i))
  {
    SpliceUnique(es, i, e);
    SpliceRunHeads(es, heads, i, e);
  }

  lemma SpliceUnique<T>(es: seq<Entry<T>>, i: int, e: Entry<T>)
    requires UniqueKeys(es) && !HasKey(es, e.key) && 0 <= i < |es|
    ensures UniqueKeys(es[..i + 1] + [e] + es[i + 1..])
  {
    var es' := es[..i + 1] + [e] + es[i + 1..];
    SpliceAt(es, i, e);
    forall p, q | 0 <= p < q < |es'| ensures es'[p].key != es'[q].key {
      var q' := if q <= i + 1 then q else q - 1;
      if p == i + 1 {
        assert es'[q] == es[q'];
      } else if q == i + 1 {
        assert es'[p] == es[p];
      } else {
        assert es'[p] == es[if p <= i then p else p - 1];
        assert es'[q] == es[if q <= i then q else q - 1];
      }
    }
  }

  /** Where each entry lands when `e` is inserted at position i + 1. */
  lemma SpliceAt<T>(es: seq<Entry<T>>, i: int, e: Entry<T>)
    requires 0 <= i < |es|
    ensures |es[..i + 1] + [e] + es[i + 1..]| == |es| + 1
    ensures forall k | 0 <= k <= i :: (es[..i + 1] + [e] + es[i + 1..])[k] == es[k]
    ensures (es[..i + 1] + [e] + es[i + 1..])[i + 1] == e
    ensures forall k | i + 1 <= k < |es| :: (es[..i + 1] + [e] + es[i + 1..])[k + 1] == es[k]
  {
  }

  lemma SpliceRunHeads<T>(es: seq<Entry<T>>, heads: seq<int>, i: int, e: Entry<T>)
    requires RunHeads(es, heads)
    requires 0 <= heads[Bucket(e.key)] <= i < |es| && Bucket(es[i].key) == Bucket(e.key)
    requires i + 1 == |es| || Bucket(es[i + 1].key) != Bucket(e.key)
    ensures RunHeads(es[..i + 1] + [e] + es[i + 1..], ShiftHeads(heads, i))
  {
    SpliceAt(es, i, e);
    SpliceHeadsPoint(es, heads, i, e);
    SpliceHeadsBefore(es, heads, i, e);
    SpliceStartsRun(es, heads, i, e);
  }

  /** After a splice every non-empty head still points into its own bucket. */
  lemma SpliceHeadsPoint<T>(es: seq<Entry<T>>, heads: seq<int>, i: int, e: Entry<T>)
    requires RunHeads(es, heads)
    requires 0 <= heads[Bucket(e.key)] <= i < |es|
    ensures var es', hs' := es[..i + 1] + [e] + es[i + 1..], ShiftHeads(heads, i);
      forall h | 0 <= h < MAX_HASH_SLOT && hs'[h] != -1 :: 0 <= hs'[h] < |es'| && Bucket(es'[hs'[h]].key) == h
  {
    var es' := es[..i + 1] + [e] + es[i + 1..];
    var hs' := ShiftHeads(heads, i);
    SpliceAt(es, i, e);
    forall h | 0 <= h < MAX_HASH_SLOT && hs'[h] != -1
      ensures 0 <= hs'[h] < |es'| && Bucket(es'[hs'[h]].key) == h
    {
      assert es'[hs'[h]] == es[heads[h]];
    }
  }

  /** After a splice no entry lies before the head of its bucket. */
  lemma SpliceHeadsBefore<T>(es: seq<Entry<T>>, heads: seq<int>, i: int, e: Entry<T>)
    requires RunHeads(es, heads)
    requires 0 <= heads[Bucket(e.key)] <= i < |es|
    ensures var es', hs' := es[..i + 1] + [e] + es[i + 1..], ShiftHeads(heads, i);
      forall k | 0 <= k < |es'| :: 0 <= hs'[Bucket(es'[k].key)] <= k
  {
    var es' := es[..i + 1] + [e] + es[i + 1..];
    var hs' := ShiftHeads(heads, i);
    SpliceAt(es, i, e);
    forall k | 0 <= k < |es'|
      ensures 0 <= hs'[Bucket(es'[k].key)] <= k
    {
      if k <= i {
        assert es'[k] == es[k];
      } else if k > i + 1 {
        assert es'[k] == es[k - 1];
      }
    }
  }

  /** After a splice behind the last entry of its run, every bucket change still starts a run. */
  lemma SpliceStartsRun<T>(es: seq<Entry<T>>, heads: seq<int>, i: int, e: Entry<T>)
    requires RunHeads(es, heads)
    requires 0 <= heads[Bucket(e.key)] <= i < |es| && Bucket(es[i].key) == Bucket(e.key)
    requires i + 1 == |es| || Bucket(es[i + 1].key) != Bucket(e.key)
    ensures var es', hs' := es[..i + 1] + [e] + es[i + 1..], ShiftHeads(heads, i);
      forall k | 0 < k < |es'| :: StartsRun(es', hs', k)
  {
    var es' := es[..i + 1] + [e] + es[i + 1..];
    var hs' := ShiftHeads(heads, i);
    SpliceAt(es, i, e);
    forall k | 0 < k < |es'|
      ensures StartsRun(es', hs', k)
    {
      if k <= i {
        assert es'[k] == es[k] && es'[k - 1] == es[k - 1];
        assert StartsRun(es, heads, k);
      } else if k == i + 2 {
        assert es'[k] == es[k - 1];
        assert StartsRun(es, heads, i + 1);
      } else if k > i + 2 {
        assert es'[k] == es[k - 1] && es'[k - 1] == es[k - 2];
        assert StartsRun(es, heads, k - 1);
      }
    }
  }

  /** The head positions after an entry is inserted at position i + 1. */
  function ShiftHeads(heads: seq<int>, i: int): (r: seq<int>)
    ensures |r| == |heads|
    ensures forall h | 0 <= h < |heads| :: r[h] == if heads[h] > i then heads[h] + 1 else heads[h]
  {
    seq(|heads|, h requires 0 <= h < |heads| => if heads[h] > i then heads[h] + 1 else heads[h])
  }

  /** Appending a fresh key whose bucket is empty keeps the invariant. */
  lemma AppendWellFormed<T>(es: seq<Entry<T>>, heads: seq<int>, e: Entry<T>)
    requires WellFormed(es, heads) && IsKey(e.key) && !HasKey(es, e.key)
    requires heads[Bucket(e.key)] == -1
    ensures WellFormed(es + [e], heads[Bucket(e.key) := |es|])
  {
    var es' := es + [e];
    assert forall k | 0 <= k < |es| :: es'[k] == es[k];
    AppendHeads(es, heads, e);
    AppendStartsRun(es, heads, e);
  }

  /** Appending an entry of an empty bucket and pointing that bucket's head at it keeps the heads right. */
  lemma AppendHeads<T>(es: seq<Entry<T>>, heads: seq<int>, e: Entry<T>)
    requires RunHeads(es, heads) && heads[Bucket(e.key)] == -1
    ensures var es', hs' := es + [e], heads[Bucket(e.key) := |es|];
      && (forall h | 0 <= h < MAX_HASH_SLOT :: -1 <= hs'[h] < |es'|)
      && (forall h | 0 <= h < MAX_HASH_SLOT && hs'[h] != -1 :: Bucket(es'[hs'[h]].key) == h)
      && (forall k | 0 <= k < |es'| :: 0 <= hs'[Bucket(es'[k].key)] <= k)
  {
    var es' := es + [e];
    assert forall k | 0 <= k < |es| :: es'[k] == es[k];
    assert forall k | 0 <= k < |es| :: Bucket(es[k].key) != Bucket(e.key);
  }

  /** Appending an entry of an empty bucket starts a run at the new last position. */
  lemma AppendStartsRun<T>(es: seq<Entry<T>>, heads: seq<int>, e: Entry<T>)
    requires RunHeads(es, heads) && heads[Bucket(e.key)] == -1
    ensures var es', hs' := es + [e], heads[Bucket(e.key) := |es|];
      forall k | 0 < k < |es'| :: StartsRun(es', hs', k)
  {
    var es' := es + [e];
    var hs' := heads[Bucket(e.key) := |es|];
    assert forall k | 0 <= k < |es| :: es'[k] == es[k];
    assert forall k | 0 <= k < |es| :: Bucket(es[k].key) != Bucket(e.key);
    forall k | 0 < k < |es'|
      ensures StartsRun(es', hs', k)
    {
      if k < |es| {
        assert StartsRun(es, heads, k);
      }
    }
  }

  // ---------------------------------------------------------------------
  // Insertion and lookup as a map

  /** With unique keys, the entry holding a key is what `Lookup` finds. */
  lemma {:induction false} LookupAt<T>(es: seq<Entry<T>>, k: int)
    requires UniqueKeys(es) && 0 <= k < |es|
    ensures Lookup(es, es[k].key) == Some(es[k].value)
  {
    if k > 0 {
      assert es[0].key != es[k].key;
      assert es[1..][k - 1] == es[k];
      LookupAt(es[1..], k - 1);
    }
  }

  /** What `Lookup` finds is the value of some entry holding the key. */
  lemma {:induction false} LookupSomeAt<T>(es: seq<Entry<T>>, w: string)
    requires HasKey(es, w)
    ensures exists i | 0 <= i < |es| :: es[i].key == w && Lookup(es, w) == Some(es[i].value)
    decreases |es|
  {
    if es[0].key != w {
      LookupSomeAt(es[1..], w);
      var i :| 0 <= i < |es| - 1 && es[1..][i].key == w && Lookup(es[1..], w) == Some(es[1..][i].value);
      assert es[i + 1] == es[1..][i];
    }
  }

  /** `addData` is insert-if-absent: an existing key keeps its data, a new key gets the caller's. */
  lemma LookupInsert<T>(es: seq<Entry<T>>, key: string, v: T, q: string)
    ensures Lookup(Insert(es, key, v), q) ==
      if q == key && !HasKey(es, key) then Some(v) else Lookup(es, q)
  {
    if !HasKey(es, key) {
      var j := LastOfBucket(es, Bucket(key));
      if j < 0 {
        assert es + [Entry(key, v)] == es[..|es|] + [Entry(key, v)] + es[|es|..];
        LookupSplice(es, |es|, Entry(key, v), q);
      } else {
        LookupSplice(es, j + 1, Entry(key, v), q);
      }
    }
  }

  /** Placing a fresh key anywhere makes it visible and leaves every other lookup alone. */
  lemma {:induction false} LookupSplice<T>(es: seq<Entry<T>>, at: int, e: Entry<T>, q: string)
    requires !HasKey(es, e.key) && 0 <= at <= |es|
    ensures Lookup(es[..at] + [e] + es[at..], q) == if q == e.key then Some(e.value) else Lookup(es, q)
    decreases at
  {
    var es' := es[..at] + [e] + es[at..];
    if at == 0 {
      assert es'[0] == e && es'[1..] == es;
    } else {
      assert es'[0] == es[0];
      assert es[0].key != e.key;
      assert !HasKey(es[1..], e.key);
      assert es'[1..] == es[1..][..at - 1] + [e] + es[1..][at - 1..];
      LookupSplice(es[1..], at - 1, e, q);
    }
  }

  /** Where `addData` puts a fresh key whose bucket is not empty: right after the run's last entry. */
  lemma InsertSplices<T>(es: seq<Entry<T>>, heads: seq<int>, key: string, v: T, p: int)
    requires RunHeads(es, heads) && !HasKey(es, key)
    requires 0 <= heads[Bucket(key)] <= p < |es| && Bucket(es[p].key) == Bucket(key)
    requires p + 1 == |es| || Bucket(es[p + 1].key) != Bucket(key)
    ensures Insert(es, key, v) == es[..p + 1] + [Entry(key, v)] + es[p + 1..]
  {
    EndOfRun(es, heads, Bucket(key), p);
  }

  /** Where `addData` puts a key whose bucket is empty: at the tail. */
  lemma InsertAppends<T>(es: seq<Entry<T>>, heads: seq<int>, key: string, v: T)
    requires RunHeads(es, heads) && heads[Bucket(key)] == -1
    ensures !HasKey(es, key)
    ensures Insert(es, key, v) == es + [Entry(key, v)]
  {
    HeadIsFirst(es, heads, Bucket(key));
  }

  /** A write through the node holding `key` is what a later lookup of `key` sees; other keys are untouched. */
  lemma {:induction false} LookupSetValue<T>(es: seq<Entry<T>>, key: string, v: T, q: string)
    ensures Lookup(SetValue(es, key, v), q) == if q == key && HasKey(es, key) then Some(v) else Lookup(es, q)
    decreases |es|
  {
    if es != [] {
      var es' := SetValue(es, key, v);
      assert es'[1..] == SetValue(es[1..], key, v);
      LookupSetValue(es[1..], key, v, q);
      if es[0].key != key {
        assert HasKey(es, key) ==> HasKey(es[1..], key) by {
          if HasKey(es, key) {
            var i :| 0 <= i < |es| && es[i].key == key;
            assert es[1..][i - 1].key == key;
          }
        }
      }
    }
  }

  /** The invariant speaks of keys only, so rewriting data keeps it. */
  lemma SameKeysWellFormed<T>(es: seq<Entry<T>>, es': seq<Entry<T>>, heads: seq<int>)
    requires WellFormed(es, heads) && |es'| == |es|
    requires forall i | 0 <= i < |es| :: es'[i].key == es[i].key
    ensures WellFormed(es', heads)
  {
    forall i | 0 < i < |es'| ensures StartsRun(es', heads, i) {
      assert StartsRun(es, heads, i);
    }
  }
}

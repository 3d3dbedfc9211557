/**
 * The DICTIONARY of util/dictionary.c as the program keeps it: one doubly
 * linked list of DNODEs (`start`, `end`, `next`, `prev`) and an array of
 * MAX_HASH_SLOT pointers, `hash[h]` pointing at the first node of the run
 * of nodes whose keys fall into bucket h.
 *
 * Nodes live in an arena: node number k is the k-th node ever allocated,
 * its key, data and links are `keys[k]`, `data[k]`, `next[k]`, `prev[k]`,
 * and -1 plays the part of NULL. The ghost field `order` lists the node
 * numbers in list order, and `Contents` is the list read as entries.
 */
module Dictionaries {
  import opened Wrappers
  import opened Hash
  import opened DictionarySpec

  /**
   * `order` is the list start -> next -> ... -> NULL: distinct node numbers,
   * `next` and `prev` linking neighbours, NULL at both ends.
   */
  ghost predicate Linked(next: seq<int>, prev: seq<int>, order: seq<int>, start: int) {
    && |next| == |prev| == |order|
    && (forall i | 0 <= i < |order| :: 0 <= order[i] < |order|)
    && (forall i, j | 0 <= i < j < |order| :: order[i] != order[j])
    && start == (if |order| == 0 then -1 else order[0])
    && (forall i {:trigger next[order[i]]} | 0 <= i < |order| ::
          next[order[i]] == if i + 1 < |order| then order[i + 1] else -1)
    && (forall i {:trigger prev[order[i]]} | 0 <= i < |order| ::
          prev[order[i]] == if i > 0 then order[i - 1] else -1)
  }

  /**
   * Linking a new node (number |order|) in after the node at list position p,
   * the pointer surgery of `addData`, yields the list with the new node at
   * position p + 1.
   */
  lemma SpliceLinked(next: seq<int>, prev: seq<int>, order: seq<int>, start: int, p: int,
                     next': seq<int>, prev': seq<int>, order': seq<int>)
    requires Linked(next, prev, order, start) && 0 <= p < |order|
    requires next' == next[order[p] := |order|] + [next[order[p]]]
    requires prev' == if next[order[p]] == -1 then prev + [order[p]]
                      else (prev + [order[p]])[next[order[p]] := |order|]
    requires order' == order[..p + 1] + [|order|] + order[p + 1..]
    ensures Linked(next', prev', order', start)
  {
    var n := |order|;
    assert forall i | 0 <= i <= p :: order'[i] == order[i];
    assert order'[p + 1] == n;
    assert forall i | p + 1 <= i < n :: order'[i + 1] == order[i];
    forall i | 0 <= i < |order'| ensures 0 <= order'[i] < |order'| {
      if i > p + 1 {
        assert order'[i] == order[i - 1];
      }
    }
    forall i, j | 0 <= i < j < |order'| ensures order'[i] != order'[j] {
      if i > p + 1 {
        assert order'[i] == order[i - 1] && order'[j] == order[j - 1];
      } else if j > p + 1 {
        assert order'[j] == order[j - 1];
      }
    }
    SpliceNext(next, prev, order, start, p, next', order');
    SplicePrev(next, prev, order, start, p, prev', order');
  }

  lemma SpliceNext(next: seq<int>, prev: seq<int>, order: seq<int>, start: int, p: int,
                   next': seq<int>, order': seq<int>)
    requires Linked(next, prev, order, start) && 0 <= p < |order|
    requires next' == next[order[p] := |order|] + [next[order[p]]]
    requires order' == order[..p + 1] + [|order|] + order[p + 1..]
    ensures forall i {:trigger next'[order'[i]]} | 0 <= i < |order'| ::
      next'[order'[i]] == if i + 1 < |order'| then order'[i + 1] else -1
  {
    var n := |order|;
    forall i | 0 <= i < |order'|
      ensures next'[order'[i]] == if i + 1 < |order'| then order'[i + 1] else -1
    {
      if i < p {
        assert order'[i] == order[i] && order'[i + 1] == order[i + 1];
        assert next'[order[i]] == next[order[i]];
      } else if i == p {
        assert order'[i] == order[p] && order'[i + 1] == n;
      } else if i == p + 1 {
        assert order'[i] == n;
        if i + 1 < |order'| {
          assert order'[i + 1] == order[p + 1];
        }
      } else {
        assert order'[i] == order[i - 1];
        assert next'[order[i - 1]] == next[order[i - 1]];
        if i + 1 < |order'| {
          assert order'[i + 1] == order[i];
        }
      }
    }
  }

  lemma SplicePrev(next: seq<int>, prev: seq<int>, order: seq<int>, start: int, p: int,
                   prev': seq<int>, order': seq<int>)
    requires Linked(next, prev, order, start) && 0 <= p < |order|
    requires prev' == if next[order[p]] == -1 then prev + [order[p]]
                      else (prev + [order[p]])[next[order[p]] := |order|]
    requires order' == order[..p + 1] + [|order|] + order[p + 1..]
    ensures forall i {:trigger prev'[order'[i]]} | 0 <= i < |order'| ::
      prev'[order'[i]] == if i > 0 then order'[i - 1] else -1
  {
    var n := |order|;
    var nx := next[order[p]];
    assert nx == if p + 1 < n then order[p + 1] else -1;
    forall i | 0 <= i < |order'|
      ensures prev'[order'[i]] == if i > 0 then order'[i - 1] else -1
    {
      if i <= p {
        assert order'[i] == order[i];
        assert order[i] != nx;
        assert prev'[order[i]] == prev[order[i]];
        if i > 0 {
          assert order'[i - 1] == order[i - 1];
        }
      } else if i == p + 1 {
        assert order'[i] == n && order'[i - 1] == order[p];
      } else if i == p + 2 {
        assert order'[i] == order[p + 1] == nx;
        assert order'[i - 1] == n;
      } else {
        assert order'[i] == order[i - 1] && order'[i - 1] == order[i - 2];
        assert order[i - 1] != nx;
        assert prev'[order[i - 1]] == prev[order[i - 1]];
      }
    }
  }

  /** After the splice, every list position still reads the node that holds its entry. */
  lemma SpliceEntries<T>(keys: seq<string>, data: seq<T>, order: seq<int>, es: seq<Entry<T>>,
                         p: int, key: string, value: T)
    requires |keys| == |data| == |order| == |es| && 0 <= p < |order|
    requires forall i | 0 <= i < |order| :: 0 <= order[i] < |order|
    requires forall i | 0 <= i < |order| :: es[i] == Entry(keys[order[i]], data[order[i]])
    ensures var order' := order[..p + 1] + [|order|] + order[p + 1..];
            var es' := es[..p + 1] + [Entry(key, value)] + es[p + 1..];
            forall i | 0 <= i < |order'| ::
              es'[i] == Entry((keys + [key])[order'[i]], (data + [value])[order'[i]])
  {
    var order' := order[..p + 1] + [|order|] + order[p + 1..];
    var es' := es[..p + 1] + [Entry(key, value)] + es[p + 1..];
    forall i | 0 <= i < |order'|
      ensures es'[i] == Entry((keys + [key])[order'[i]], (data + [value])[order'[i]])
    {
      if i <= p {
        assert order'[i] == order[i] && es'[i] == es[i];
      } else if i > p + 1 {
        assert order'[i] == order[i - 1] && es'[i] == es[i - 1];
      }
    }
  }

  /** `hash[]` needs no update when a node goes in after the run of its bucket. */
  lemma SpliceSlots(slots: seq<int>, heads: seq<int>, order: seq<int>, p: int)
    requires |slots| == |heads| == MAX_HASH_SLOT && 0 <= p < |order|
    requires forall g | 0 <= g < MAX_HASH_SLOT :: -1 <= heads[g] < |order|
    requires forall g | 0 <= g < MAX_HASH_SLOT ::
      slots[g] == if heads[g] == -1 then -1 else order[heads[g]]
    ensures var order' := order[..p + 1] + [|order|] + order[p + 1..];
            var heads' := ShiftHeads(heads, p);
            forall g {:trigger slots[g]} | 0 <= g < MAX_HASH_SLOT ::
              slots[g] == if heads'[g] == -1 then -1 else order'[heads'[g]]
  {
    var order' := order[..p + 1] + [|order|] + order[p + 1..];
    var heads' := ShiftHeads(heads, p);
    forall g | 0 <= g < MAX_HASH_SLOT
      ensures slots[g] == if heads'[g] == -1 then -1 else order'[heads'[g]]
    {
      if heads[g] > p {
        assert order'[heads'[g]] == order[heads[g]];
      } else if heads[g] != -1 {
        assert order'[heads'[g]] == order[heads[g]];
      }
    }
  }

  /**
   * The dictionary invariant over the arena: the list links the nodes in
   * `order`, reading them gives the entries `es`, which keep the bucket
   * discipline, and `hash[]` (here `slots`) points at the node of each run head.
   */
  ghost predicate Inv<T>(keys: seq<string>, data: seq<T>, next: seq<int>, prev: seq<int>,
                         start: int, end: int, order: seq<int>, es: seq<Entry<T>>,
                         heads: seq<int>, slots: seq<int>)
  {
    && |keys| == |data| == |next| == |prev| == |order| == |es|
    && Linked(next, prev, order, start)
    && (forall i {:trigger es[i]} | 0 <= i < |order| :: es[i] == Entry(keys[order[i]], data[order[i]]))
    && WellFormed(es, heads)
    && |slots| == MAX_HASH_SLOT
    && (forall h {:trigger slots[h]} | 0 <= h < MAX_HASH_SLOT :: slots[h] == if heads[h] == -1 then -1 else order[heads[h]])
    && -1 <= end < |keys| && (end == -1 <==> |keys| == 0)
  }

  /** `addData` on a key whose bucket is not empty: the node goes in after the bucket's last node. */
  lemma SpliceInv<T>(keys: seq<string>, data: seq<T>, next: seq<int>, prev: seq<int>,
                     start: int, end: int, order: seq<int>, es: seq<Entry<T>>,
                     heads: seq<int>, slots: seq<int>, p: int, key: string, value: T,
                     keys': seq<string>, data': seq<T>, next': seq<int>, prev': seq<int>,
                     order': seq<int>, es': seq<Entry<T>>, heads': seq<int>)
    requires Inv(keys, data, next, prev, start, end, order, es, heads, slots)
    requires IsKey(key) && !HasKey(es, key)
    requires 0 <= heads[Bucket(key)] <= p < |es| && Bucket(es[p].key) == Bucket(key)
    requires p + 1 == |es| || Bucket(es[p + 1].key) != Bucket(key)
    requires keys' == keys + [key] && data' == data + [value]
    requires next' == next[order[p] := |order|] + [next[order[p]]]
    requires prev' == if next[order[p]] == -1 then prev + [order[p]]
                      else (prev + [order[p]])[next[order[p]] := |order|]
    requires order' == order[..p + 1] + [|order|] + order[p + 1..]
    requires es' == es[..p + 1] + [Entry(key, value)] + es[p + 1..]
    requires heads' == ShiftHeads(heads, p)
    ensures Inv(keys', data', next', prev', start, end, order', es', heads', slots)
  {
    assert forall g {:trigger slots[g]} | 0 <= g < MAX_HASH_SLOT ::
      slots[g] == if heads'[g] == -1 then -1 else order'[heads'[g]]
    by {
      SpliceSlots(slots, heads, order, p);
    }
    assert Linked(next', prev', order', start) by {
      SpliceLinked(next, prev, order, start, p, next', prev', order');
    }
    assert forall i | 0 <= i < |order'| :: es'[i] == Entry(keys'[order'[i]], data'[order'[i]]) by {
      SpliceEntries(keys, data, order, es, p, key, value);
    }
    assert WellFormed(es', heads') by {
      SpliceWellFormed(es, heads, p, Entry(key, value));
    }
  }

  /**
   * `addData` on a key whose bucket is empty, in a non-empty list: the node
   * goes after the tail and becomes `end` and the bucket's head.
   */
  lemma AppendInv<T>(keys: seq<string>, data: seq<T>, next: seq<int>, prev: seq<int>,
                     start: int, end: int, order: seq<int>, es: seq<Entry<T>>,
                     heads: seq<int>, slots: seq<int>, key: string, value: T,
                     keys': seq<string>, data': seq<T>, next': seq<int>, prev': seq<int>,
                     order': seq<int>, es': seq<Entry<T>>, heads': seq<int>, slots': seq<int>)
    requires Inv(keys, data, next, prev, start, end, order, es, heads, slots)
    requires IsKey(key) && !HasKey(es, key) && heads[Bucket(key)] == -1 && |order| > 0
    requires keys' == keys + [key] && data' == data + [value]
    requires next' == next[order[|order| - 1] := |order|] + [-1]
    requires prev' == prev + [order[|order| - 1]]
    requires order' == order + [|order|] && es' == es + [Entry(key, value)]
    requires heads' == heads[Bucket(key) := |order|] && slots' == slots[Bucket(key) := |order|]
    ensures Inv(keys', data', next', prev', start, |order|, order', es', heads', slots')
  {
    var n := |order|;
    var p := n - 1;
    var h := Bucket(key);
    forall g | 0 <= g < MAX_HASH_SLOT
      ensures slots'[g] == if heads'[g] == -1 then -1 else order'[heads'[g]]
    {
      if g != h && heads[g] != -1 {
        assert order'[heads[g]] == order[heads[g]];
      }
    }
    assert order' == order[..p + 1] + [n] + order[p + 1..];
    assert Linked(next', prev', order', start) by {
      SpliceLinked(next, prev, order, start, p, next', prev', order');
    }
    assert forall i | 0 <= i < |order'| :: es'[i] == Entry(keys'[order'[i]], data'[order'[i]]) by {
      assert es' == es[..p + 1] + [Entry(key, value)] + es[p + 1..];
      SpliceEntries(keys, data, order, es, p, key, value);
    }
    assert WellFormed(es', heads') by {
      AppendWellFormed(es, heads, Entry(key, value));
    }
  }

  /** `addData` on an empty dictionary: the node becomes `start`, `end` and its bucket's head. */
  lemma FirstInv<T>(keys: seq<string>, data: seq<T>, next: seq<int>, prev: seq<int>,
                    start: int, end: int, order: seq<int>, es: seq<Entry<T>>,
                    heads: seq<int>, slots: seq<int>, key: string, value: T)
    requires Inv(keys, data, next, prev, start, end, order, es, heads, slots)
    requires IsKey(key) && |order| == 0
    ensures Inv([key], [value], [-1], [-1], 0, 0, [0], [Entry(key, value)],
                heads[Bucket(key) := 0], slots[Bucket(key) := 0])
  {
    assert es == [];
    FirstWellFormed(heads, Entry(key, value));
    FirstSlots(heads, slots, Bucket(key));
  }

  lemma FirstWellFormed<T>(heads: seq<int>, e: Entry<T>)
    requires WellFormed<T>([], heads) && IsKey(e.key)
    ensures WellFormed([e], heads[Bucket(e.key) := 0])
  {
    assert [] + [e] == [e];
    AppendWellFormed<T>([], heads, e);
  }

  /** With every bucket empty, pointing bucket b at node 0 makes it the head of list position 0. */
  lemma FirstSlots(heads: seq<int>, slots: seq<int>, b: nat)
    requires |heads| == |slots| == MAX_HASH_SLOT && b < MAX_HASH_SLOT
    requires forall h | 0 <= h < MAX_HASH_SLOT :: -1 <= heads[h] < 0
    requires forall h {:trigger slots[h]} | 0 <= h < MAX_HASH_SLOT :: slots[h] == if heads[h] == -1 then -1 else 0
    ensures forall h {:trigger slots[b := 0][h]} | 0 <= h < MAX_HASH_SLOT ::
      slots[b := 0][h] == if heads[b := 0][h] == -1 then -1 else [0][heads[b := 0][h]]
  {
  }

  /** Entry i's key is the key of node `order[i]`, so equal keys mean the same node. */
  lemma NodeOfKey<T>(keys: seq<string>, data: seq<T>, next: seq<int>, prev: seq<int>,
                     start: int, end: int, order: seq<int>, es: seq<Entry<T>>,
                     heads: seq<int>, slots: seq<int>, p: int, i: int)
    requires Inv(keys, data, next, prev, start, end, order, es, heads, slots)
    requires 0 <= p < |order| && 0 <= i < |order|
    ensures order[i] == order[p] <==> es[i].key == es[p].key
  {
    assert es[i] == Entry(keys[order[i]], data[order[i]]);
    assert es[p] == Entry(keys[order[p]], data[order[p]]);
  }

  /** Writing new data into the node at list position p keeps the invariant and rewrites that entry. */
  lemma SetInv<T>(keys: seq<string>, data: seq<T>, next: seq<int>, prev: seq<int>,
                  start: int, end: int, order: seq<int>, es: seq<Entry<T>>,
                  heads: seq<int>, slots: seq<int>, p: int, value: T,
                  data': seq<T>, es': seq<Entry<T>>)
    requires Inv(keys, data, next, prev, start, end, order, es, heads, slots)
    requires 0 <= p < |order|
    requires data' == data[order[p] := value]
    requires es' == SetValue(es, keys[order[p]], value)
    ensures Inv(keys, data', next, prev, start, end, order, es', heads, slots)
  {
    assert es[p].key == keys[order[p]];
    forall i | 0 <= i < |order| ensures es'[i] == Entry(keys[order[i]], data'[order[i]]) {
      NodeOfKey(keys, data, next, prev, start, end, order, es, heads, slots, p, i);
      assert es[i] == Entry(keys[order[i]], data[order[i]]);
    }
    assert WellFormed(es', heads) by {
      SameKeysWellFormed(es, es', heads);
    }
  }

  /** `hash()`: the djb2 hash of a C string reduced to a bucket number. */
  method HashSlot(key: string) returns (h: nat)
    requires '\0' !in key
    ensures h == Bucket(key)
  {
    var full := Hash1(key);
    CStrOfNulFree(key);
    h := full % MAX_HASH_SLOT;
  }

  class Dictionary<T> {
    var keys: seq<string>
    var data: seq<T>
    var next: seq<int>
    var prev: seq<int>
    var start: int
    var end: int
    /** `hash[]`: for each bucket, the first node of its run, or -1. */
    const buckets: array<int>

    /** Node numbers in list order. */
    ghost var order: seq<int>
    /** The list read as entries, in list order. */
    ghost var Contents: seq<Entry<T>>
    /** For each bucket, the list position `hash[h]` points at, or -1. */
    ghost var heads: seq<int>

    ghost predicate Valid()
      reads this, buckets
    {
      Inv(keys, data, next, prev, start, end, order, Contents, heads, buckets[..])
    }

    /** `initializeDict`: no nodes, every bucket NULL. */
    constructor ()
      ensures Valid() && Contents == []
      ensures fresh(buckets)
    {
      var b := new int[MAX_HASH_SLOT];
      var i := 0;
      while i < MAX_HASH_SLOT
        invariant 0 <= i <= MAX_HASH_SLOT
        invariant forall k | 0 <= k < i :: b[k] == -1
      {
        b[i] := -1;
        i := i + 1;
      }
      keys, data, next, prev := [], [], [], [];
      start, end := -1, -1;
      buckets := b;
      order, Contents := [], [];
      heads := seq(MAX_HASH_SLOT, _ => -1);
    }

    /**
     * The walk `addData` makes along the run of bucket h, from `hash[h]`
     * while the next node hashes to h: it stops at the node holding `key`,
     * or at the last node of the run when the key is absent.
     */
    method FindInRun(key: string, h: nat) returns (found: bool, cur: int, ghost p: int)
      requires Valid() && '\0' !in key && h == Bucket(key) && buckets[h] != -1
      ensures found <==> HasKey(Contents, key)
      ensures 0 <= heads[h] <= p < |order| && cur == order[p]
      ensures found ==> keys[cur] == key
      ensures Bucket(Contents[p].key) == h
      ensures !found ==> p + 1 == |Contents| || Bucket(Contents[p + 1].key) != h
    {
      cur := buckets[h];
      p := heads[h];
      while true
        invariant 0 <= heads[h] <= p < |Contents| == |order| && cur == order[p]
        invariant Bucket(Contents[p].key) == h
        invariant forall k | heads[h] <= k < p :: Contents[k].key != key
        decreases |order| - p
      {
        if keys[cur] == key {
          assert Contents[p].key == key;
          return true, cur, p;
        }
        var nx := next[cur];
        if nx == -1 {
          break;
        }
        assert nx == order[p + 1] && Contents[p + 1].key == keys[nx];
        var hn := HashSlot(keys[nx]);
        if hn != h {
          break;
        }
        cur, p := nx, p + 1;
      }
      RunMiss(Contents, heads, key, p);
      found := false;
    }

    /** The walk from `start` along `next` to the last node of a non-empty list. */
    method Last() returns (cur: int)
      requires Valid() && start != -1
      ensures |order| > 0 && cur == order[|order| - 1]
    {
      cur := start;
      ghost var p := 0;
      while next[cur] != -1
        invariant 0 <= p < |order| && cur == order[p]
        decreases |order| - p
      {
        cur, p := next[cur], p + 1;
      }
    }

    /**
     * `addData`: 1 and no change when the key is already present; otherwise
     * 0, with a new node holding key and data linked in after the last node
     * of its bucket, or at the tail when the bucket is empty.
     */
    method AddData(key: string, value: T) returns (r: int)
      requires Valid() && IsKey(key)
      modifies this, buckets
      ensures Valid()
      ensures Contents == Insert(old(Contents), key, value)
      ensures r == if HasKey(old(Contents), key) then 1 else 0
    {
      var h := HashSlot(key);
      if buckets[h] != -1 {
        var found, cur, p := FindInRun(key, h);
        if found {
          return 1;
        }
        InsertSplices(Contents, heads, key, value, p);
        LinkAfter(key, value, cur, p);
      } else {
        InsertAppends(Contents, heads, key, value);
        LinkAtTail(key, value, h);
      }
      r := 0;
    }

    /**
     * `getData`: the walk from `hash[h]` along `next` until a node holds the
     * key or the list ends (it does not stop at the end of the run). The
     * node found holds the data `Lookup` sees; NULL means the key is absent.
     */
    method GetData(key: string) returns (node: int)
      requires Valid() && '\0' !in key
      ensures node == -1 <==> !HasKey(Contents, key)
      ensures node != -1 ==> node in order && keys[node] == key
      ensures node != -1 ==> Lookup(Contents, key) == Some(data[node])
    {
      var h := HashSlot(key);
      HeadIsFirst(Contents, heads, h);
      node := buckets[h];
      if node == -1 {
        return;
      }
      ghost var p := heads[h];
      while node != -1
        invariant 0 <= heads[h] <= p <= |Contents| == |order|
        invariant node == if p < |order| then order[p] else -1
        invariant forall k | 0 <= k < p :: Contents[k].key != key
        decreases |order| - p
      {
        assert Contents[p] == Entry(keys[node], data[node]);
        if keys[node] == key {
          LookupAt(Contents, p);
          return;
        }
        node, p := next[node], p + 1;
      }
    }

    /**
     * A write through a node pointer `getData` returned: the node's data
     * becomes `value`, keys and links stay as they are.
     */
    method SetData(node: int, value: T)
      requires Valid() && node in order
      modifies this
      ensures Valid()
      ensures 0 <= node < |keys| && Contents == SetValue(old(Contents), keys[node], value)
      ensures keys == old(keys) && order == old(order)
    {
      ghost var p :| 0 <= p < |order| && order[p] == node;
      data := data[node := value];
      Contents := SetValue(Contents, keys[node], value);
      SetInv(keys, old(data), next, prev, start, end, order, old(Contents), heads, buckets[..], p, value, data, Contents);
    }

    /** A new node for `key` goes in after `cur`, the last node of the key's bucket. */
    method LinkAfter(key: string, value: T, cur: int, ghost p: int)
      requires Valid() && IsKey(key) && !HasKey(Contents, key)
      requires 0 <= heads[Bucket(key)] <= p < |order| && cur == order[p]
      requires Bucket(Contents[p].key) == Bucket(key)
      requires p + 1 == |Contents| || Bucket(Contents[p + 1].key) != Bucket(key)
      modifies this
      ensures Valid()
      ensures Contents == old(Contents)[..p + 1] + [Entry(key, value)] + old(Contents)[p + 1..]
    {
      var n := |keys|;
      var nx := next[cur];
      var next', prev' := next[cur := n] + [nx], prev + [cur];
      if nx != -1 {
        prev' := prev'[nx := n];
      }
      ghost var order' := order[..p + 1] + [n] + order[p + 1..];
      ghost var es' := Contents[..p + 1] + [Entry(key, value)] + Contents[p + 1..];
      ghost var heads' := ShiftHeads(heads, p);
      SpliceInv(keys, data, next, prev, start, end, order, Contents, heads, buckets[..], p, key, value,
                keys + [key], data + [value], next', prev', order', es', heads');
      keys, data, next, prev := keys + [key], data + [value], next', prev';
      order, Contents, heads := order', es', heads';
    }

    /**
     * A new node for `key`, whose bucket h is empty, goes after the tail of
     * the list (or becomes the whole list); it is the new `end` and `hash[h]`.
     */
    method LinkAtTail(key: string, value: T, h: nat)
      requires Valid() && IsKey(key) && !HasKey(Contents, key) && h == Bucket(key) && heads[h] == -1
      modifies this, buckets
      ensures Valid()
      ensures Contents == old(Contents) + [Entry(key, value)]
    {
      if start != -1 {
        LinkAfterTail(key, value, h);
      } else {
        LinkFirst(key, value, h);
      }
    }

    method LinkAfterTail(key: string, value: T, h: nat)
      requires Valid() && IsKey(key) && !HasKey(Contents, key) && h == Bucket(key) && heads[h] == -1
      requires start != -1
      modifies this, buckets
      ensures Valid()
      ensures Contents == old(Contents) + [Entry(key, value)]
    {
      var n := |keys|;
      ghost var slots := buckets[..];
      var cur := Last();
      next := next[cur := n] + [-1];
      prev := prev + [cur];
      order := order + [n];
      keys, data := keys + [key], data + [value];
      Contents := Contents + [Entry(key, value)];
      heads := heads[h := n];
      end := n;
      buckets[h] := n;
      assert buckets[..] == slots[h := n];
      AppendInv(old(keys), old(data), old(next), old(prev), start, old(end), old(order), old(Contents),
                old(heads), slots, key, value, keys, data, next, prev, order, Contents, heads, buckets[..]);
    }

    method LinkFirst(key: string, value: T, h: nat)
      requires Valid() && IsKey(key) && h == Bucket(key) && start == -1
      modifies this, buckets
      ensures Valid()
      ensures Contents == old(Contents) + [Entry(key, value)]
    {
      ghost var slots := buckets[..];
      assert |order| == 0;
      start, end := 0, 0;
      next, prev, order := [-1], [-1], [0];
      keys, data := [key], [value];
      Contents := [Entry(key, value)];
      heads := heads[h := 0];
      buckets[h] := 0;
      assert buckets[..] == slots[h := 0];
      FirstInv(old(keys), old(data), old(next), old(prev), old(start), old(end), old(order), old(Contents),
               old(heads), slots, key, value);
    }
  }
}

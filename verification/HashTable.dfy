/** The case-insensitive hash table: every element is a node of one doubly linked list, and a bucket is
    only a pointer to its first node and a count. */
module HashTable {
  import opened Bits
  import opened CStrings
  import opened Options
  import opened Segments
  import opened StrHash

  class Elem<V> {
    var next: Elem?<V>
    var prev: Elem?<V>
    var data: V
    const key: string

    constructor (key: string, data: V)
      ensures this.key == key && this.data == data
    {
      this.key, this.data, next, prev := key, data, null, null;
    }
  }

  datatype Bucket<!V> = Bucket(count: nat, chain: Elem?<V>)

  /** The node at position `i` of the list, NULL beyond either end. */
  ghost function At<V>(list: seq<Elem<V>>, i: int): Elem?<V> {
    if 0 <= i < |list| then list[i] else null
  }

  ghost predicate Distinct<V>(list: seq<Elem<V>>) {
    list == [] || (list[0] !in list[1..] && Distinct(list[1..]))
  }

  lemma {:induction false} DistinctIff<V>(list: seq<Elem<V>>)
    ensures Distinct(list) <==> forall i, j :: 0 <= i < j < |list| ==> list[i] != list[j]
    decreases |list|
  {
    if list != [] {
      DistinctIff(list[1..]);
      assert forall i :: 0 <= i < |list[1..]| ==> list[1..][i] == list[i + 1];
      assert forall j :: 0 < j < |list| ==> list[j] == list[1..][j - 1];
    }
  }

  lemma DistinctAfterInsert<V>(list: seq<Elem<V>>, p: nat, e: Elem<V>)
    requires Distinct(list) && p <= |list| && e !in list
    ensures Distinct(list[..p] + [e] + list[p..])
  {
    DistinctIff(list);
    DistinctIff(list[..p] + [e] + list[p..]);
  }

  lemma DistinctAfterRemove<V>(list: seq<Elem<V>>, p: nat)
    requires Distinct(list) && p < |list|
    ensures Distinct(list[..p] + list[p + 1..])
  {
    DistinctIff(list);
    DistinctIff(list[..p] + list[p + 1..]);
  }

  /** `next` and `prev` run through exactly the nodes of `list`, forwards and backwards. */
  ghost predicate Linked<V>(first: Elem?<V>, list: seq<Elem<V>>)
    reads list
  {
    && first == At(list, 0)
    && Distinct(list)
    && (forall i {:trigger list[i].next} :: 0 <= i < |list| ==> list[i].next == At(list, i + 1))
    && (forall i {:trigger list[i].prev} :: 0 <= i < |list| ==> list[i].prev == At(list, i - 1))
  }

  /** The `next` pointers alone run through `list`. */
  ghost predicate Forward<V>(list: seq<Elem<V>>)
    reads list
  {
    forall i {:trigger list[i].next} :: 0 <= i < |list| ==> list[i].next == At(list, i + 1)
  }

  /** The pointers of `list` lead around `e` before position `p`, and those of `e` to its neighbours. */
  lemma InsertLinked<V>(first: Elem?<V>, list: seq<Elem<V>>, p: nat, e: Elem<V>)
    requires p <= |list| && e !in list && Distinct(list[..p] + [e] + list[p..])
    requires first == (if p == 0 then e else At(list, 0)) && e.next == At(list, p) && e.prev == At(list, p - 1)
    requires forall j {:trigger list[j].next} :: 0 <= j < |list| ==> list[j].next == if j == p - 1 then e else At(list, j + 1)
    requires forall j {:trigger list[j].prev} :: 0 <= j < |list| ==> list[j].prev == if j == p then e else At(list, j - 1)
    ensures Linked(first, list[..p] + [e] + list[p..])
  {
    hide Distinct;
    var l := list[..p] + [e] + list[p..];
    forall i | 0 <= i < |l| ensures l[i].next == At(l, i + 1) && l[i].prev == At(l, i - 1) {
      assert l[i] == if i < p then list[i] else if i == p then e else list[i - 1];
    }
  }

  /** The pointers of the other nodes of `list` lead past node `p`. */
  lemma RemoveLinked<V>(first: Elem?<V>, list: seq<Elem<V>>, p: nat)
    requires p < |list| && Distinct(list[..p] + list[p + 1..])
    requires first == At(list, if p == 0 then 1 else 0)
    requires forall j {:trigger list[j].next} :: 0 <= j < |list| && j != p ==>
               list[j].next == At(list, if j == p - 1 then p + 1 else j + 1)
    requires forall j {:trigger list[j].prev} :: 0 <= j < |list| && j != p ==>
               list[j].prev == At(list, if j == p + 1 then p - 1 else j - 1)
    ensures Linked(first, list[..p] + list[p + 1..])
  {
    hide Distinct;
    var l := list[..p] + list[p + 1..];
    forall i | 0 <= i < |l| ensures l[i].next == At(l, i + 1) && l[i].prev == At(l, i - 1) {
      assert l[i] == list[if i < p then i else i + 1];
    }
  }

  ghost function Slots<V>(list: seq<Elem<V>>, size: nat): (r: seq<nat>)
    requires PowerOfTwo(size)
    ensures |r| == |list|
  {
    seq(|list|, i requires 0 <= i < |list| => Slot(list[i].key, size))
  }

  /** `index` finds the one node of each folded key; keys are octet strings the hash can deal with. */
  ghost predicate Indexes<V>(index: map<string, Elem<V>>, list: seq<Elem<V>>) {
    && (forall e :: e in list ==>
          Hashable(e.key) && Fold(e.key) in index && index[Fold(e.key)] == e)
    && (forall k :: k in index ==> index[k] in list && Fold(index[k].key) == k)
  }

  /** The map `m` tells the data of each indexed node. */
  ghost predicate Means<V>(m: map<string, V>, index: map<string, Elem<V>>)
    reads index.Values
  {
    m.Keys == index.Keys && forall k :: k in m ==> m[k] == index[k].data
  }

  lemma MeansAfterAdd<V>(m: map<string, V>, index: map<string, Elem<V>>, e: Elem<V>)
    requires Means(m, index)
    ensures Means(m[Fold(e.key) := e.data], index[Fold(e.key) := e])
  {
    hide Fold;
  }

  lemma IndexedOnce<V>(index: map<string, Elem<V>>, list: seq<Elem<V>>, e: Elem<V>)
    requires Indexes(index, list) && e in list
    ensures Fold(e.key) in index && index[Fold(e.key)] == e
    ensures forall k :: k in index && index[k] == e ==> k == Fold(e.key)
  {
  }

  lemma IndexesAfterAdd<V>(index: map<string, Elem<V>>, list: seq<Elem<V>>, e: Elem<V>, after: seq<Elem<V>>)
    requires Indexes(index, list) && Fold(e.key) !in index && Hashable(e.key)
    requires forall x :: x in after <==> x in list || x == e
    ensures Indexes(index[Fold(e.key) := e], after)
  {
  }

  /** What bucket `b` stores: its size and its first node. */
  ghost function BucketOf<V>(list: seq<Elem<V>>, starts: seq<nat>, counts: seq<nat>, b: nat): Bucket<V>
    requires b < |starts| == |counts|
  {
    Bucket(counts[b], if counts[b] > 0 then At(list, starts[b]) else null)
  }

  /** The list and the table of buckets agree. */
  ghost predicate Threads<V>(first: Elem?<V>, ht: array<Bucket<V>>, list: seq<Elem<V>>,
                             starts: seq<nat>, counts: seq<nat>)
    reads ht, list
  {
    && Linked(first, list)
    && PowerOfTwo(ht.Length) && |counts| == ht.Length
    && Contiguous(Slots(list, ht.Length), starts, counts)
    && (forall b :: 0 <= b < ht.Length ==> ht[b] == BucketOf(list, starts, counts, b))
  }

  lemma IndexesOfSame<V>(index: map<string, Elem<V>>, list: seq<Elem<V>>, after: seq<Elem<V>>)
    requires Indexes(index, list)
    requires forall x :: x in after <==> x in list
    ensures Indexes(index, after)
  {
    hide Hashable, Fold;
  }

  lemma IndexesAfterRemove<V>(index: map<string, Elem<V>>, list: seq<Elem<V>>, e: Elem<V>, after: seq<Elem<V>>)
    requires Indexes(index, list) && e in list
    requires forall x :: x in after <==> x in list && x != e
    ensures Indexes(index - {Fold(e.key)}, after)
  {
  }

  lemma SlotsAfterInsert<V>(list: seq<Elem<V>>, size: nat, p: nat, e: Elem<V>)
    requires PowerOfTwo(size) && p <= |list|
    ensures Slots(list[..p] + [e] + list[p..], size)
            == Slots(list, size)[..p] + [Slot(e.key, size)] + Slots(list, size)[p..]
  {
  }

  /** Inserting into bucket `b` gives it a new head and leaves what every other bucket stores as it was. */
  lemma BucketAfterInsert<V>(list: seq<Elem<V>>, size: nat, starts: seq<nat>, counts: seq<nat>,
                             b: nat, e: Elem<V>, c: nat)
    requires PowerOfTwo(size) && |counts| == size && Contiguous(Slots(list, size), starts, counts)
    requires b < size && c < size
    ensures InsertAt(starts, counts, b) <= |list|
    ensures var p := InsertAt(starts, counts, b);
            BucketOf(list[..p] + [e] + list[p..], StartsAfterInsert(starts, counts, b),
                     counts[b := counts[b] + 1], c)
            == if c == b then Bucket(counts[b] + 1, e) else BucketOf(list, starts, counts, c)
  {
    var p := InsertAt(starts, counts, b);
    if c != b && counts[c] > 0 {
      var s := starts[c];
      assert Slots(list, size)[s] == c;
      assert counts[b] > 0 ==> Slots(list, size)[p] == b;
      var l := list[..p] + [e] + list[p..];
      if s >= p {
        assert l[s + 1] == list[s];
      } else {
        assert l[s] == list[s];
      }
    }
  }

  lemma ThreadsAfterInsert<V>(first: Elem?<V>, ht: array<Bucket<V>>, list: seq<Elem<V>>,
                              starts: seq<nat>, counts: seq<nat>, e: Elem<V>)
    requires Threads(first, ht, list, starts, counts)
    ensures var b := Slot(e.key, ht.Length);
            && Linked(first, list) && |starts| == |counts| == ht.Length
            && var p := InsertAt(starts, counts, b);
            p <= |list| && ht[b].chain == (if counts[b] > 0 then At(list, p) else null) &&
            var list' := list[..p] + [e] + list[p..];
            var starts', counts' := StartsAfterInsert(starts, counts, b), counts[b := counts[b] + 1];
            && Contiguous(Slots(list', ht.Length), starts', counts')
            && BucketOf(list', starts', counts', b) == Bucket(ht[b].count + 1, e)
            && (forall c :: 0 <= c < ht.Length && c != b ==> BucketOf(list', starts', counts', c) == ht[c])
  {
    hide StrHash.Slot;
    var size := ht.Length;
    var b := Slot(e.key, size);
    SlotsAfterInsert(list, size, InsertAt(starts, counts, b), e);
    InsertKeepsContiguous(Slots(list, size), starts, counts, b);
    forall c: nat | c < size {
      BucketAfterInsert(list, size, starts, counts, b, e, c);
    }
  }

  /** Where `e` goes, and the layout with it. */
  lemma ShapeAfterInsert<V>(first: Elem?<V>, ht: array<Bucket<V>>, shape: Shape<V>, e: Elem<V>)
    returns (p: nat, after: Shape<V>)
    requires Threads(first, ht, shape.list, shape.starts, shape.counts)
    ensures var b := Slot(e.key, ht.Length);
            && Linked(first, shape.list) && p <= |shape.list|
            && (if ht[b].chain == null then p == 0 else p < |shape.list| && ht[b].chain == shape.list[p])
            && |after.starts| == |after.counts| == ht.Length
            && Contiguous(Slots(after.list, ht.Length), after.starts, after.counts)
            && BucketOf(after.list, after.starts, after.counts, b) == Bucket(ht[b].count + 1, e)
            && (forall c :: 0 <= c < ht.Length && c != b ==> BucketOf(after.list, after.starts, after.counts, c) == ht[c])
    ensures after.list == shape.list[..p] + [e] + shape.list[p..] && after.index == shape.index
    ensures forall x :: x in after.list <==> x in shape.list || x == e
  {
    ThreadsAfterInsert(first, ht, shape.list, shape.starts, shape.counts, e);
    hide Linked, Contiguous, Slots, Threads, BucketOf, PowerOfTwo, StrHash.Slot;
    var b := Slot(e.key, ht.Length);
    p := InsertAt(shape.starts, shape.counts, b);
    after := shape.(list := shape.list[..p] + [e] + shape.list[p..],
                    starts := StartsAfterInsert(shape.starts, shape.counts, b),
                    counts := shape.counts[b := shape.counts[b] + 1]);
    MembersAfterInsert(shape.list, p, e);
  }

  /** Removing the node at `p` moves its bucket's head on if it was the head; other buckets stay. */
  lemma BucketAfterRemove<V>(list: seq<Elem<V>>, size: nat, starts: seq<nat>, counts: seq<nat>, p: nat, c: nat)
    requires PowerOfTwo(size) && |counts| == size && Contiguous(Slots(list, size), starts, counts)
    requires p < |list| && c < size
    ensures var b := Slot(list[p].key, size);
            counts[b] > 0 &&
            BucketOf(list[..p] + list[p + 1..], StartsAfterRemove(starts, p), counts[b := counts[b] - 1], c)
            == if c != b then BucketOf(list, starts, counts, c)
               else Bucket(counts[b] - 1, if counts[b] == 1 then null
                                          else if starts[b] == p then At(list, p + 1)
                                          else At(list, starts[b]))
  {
    var b := Slot(list[p].key, size);
    assert Slots(list, size)[p] == b;
    var l := list[..p] + list[p + 1..];
    if counts[c] > 0 {
      var s := starts[c];
      assert Slots(list, size)[s] == c;
      if s > p {
        assert l[s - 1] == list[s];
      } else if s < p {
        assert l[s] == list[s];
      }
    }
  }

  lemma ThreadsAfterRemove<V>(first: Elem?<V>, ht: array<Bucket<V>>, list: seq<Elem<V>>,
                              starts: seq<nat>, counts: seq<nat>, p: nat)
    requires Threads(first, ht, list, starts, counts) && p < |list|
    ensures var b := Slot(list[p].key, ht.Length);
            Linked(first, list) && |counts| == ht.Length && |starts| == ht.Length && b < ht.Length &&
            counts[b] > 0 && ht[b].count > 0 &&
            var list' := list[..p] + list[p + 1..];
            var starts', counts' := StartsAfterRemove(starts, p), counts[b := counts[b] - 1];
            && Contiguous(Slots(list', ht.Length), starts', counts')
            && (forall c :: 0 <= c < ht.Length && c != b ==> BucketOf(list', starts', counts', c) == ht[c])
            && BucketOf(list', starts', counts', b)
               == Bucket(ht[b].count - 1, if ht[b].count == 1 then null
                                          else if ht[b].chain == list[p] then At(list, p + 1)
                                          else ht[b].chain)
  {
    var size := ht.Length;
    var b := Slot(list[p].key, size);
    DistinctIff(list);
    assert Slots(list, size)[p] == b;
    RemoveKeepsContiguous(Slots(list, size), starts, counts, p);
    assert Slots(list[..p] + list[p + 1..], size) == Slots(list, size)[..p] + Slots(list, size)[p + 1..];
    forall c: nat | c < size {
      BucketAfterRemove(list, size, starts, counts, p, c);
    }
  }

  lemma MembersAfterInsert<V>(list: seq<Elem<V>>, p: nat, e: Elem<V>)
    requires p <= |list|
    ensures forall x :: x in list[..p] + [e] + list[p..] <==> x in list || x == e
  {
    assert list == list[..p] + list[p..];
  }

  lemma MembersAfterRemove<V>(list: seq<Elem<V>>, p: nat)
    requires Distinct(list) && p < |list|
    ensures forall e :: e in list[..p] + list[p + 1..] <==> e in list && e != list[p]
  {
    DistinctIff(list);
    forall e | e in list && e != list[p]
      ensures e in list[..p] + list[p + 1..]
    {
      var i :| 0 <= i < |list| && list[i] == e;
      if i < p {
        assert list[..p][i] == e;
      } else {
        assert list[p + 1..][i - p - 1] == e;
      }
    }
  }

  /** The partial map that a table stands for is keyed by folded keys. */
  function Lookup<V>(m: map<string, V>, key: string): Option<V> {
    if Fold(key) in m then Some(m[Fold(key)]) else None
  }

  /** Spellings that differ in case alone are one key. */
  lemma LookupIgnoresCase<V>(m: map<string, V>, key: string, other: string)
    requires SameText(key, other)
    ensures Lookup(m, key) == Lookup(m, other)
  {
    EqualNoCaseIff(key, other);
  }

  function Stored<V>(m: map<string, V>, key: string, data: Option<V>): map<string, V> {
    match data
    case Some(d) => m[Fold(key) := d]
    case None => m - {Fold(key)}
  }

  /** How the nodes are laid out. */
  datatype Shape<!V> = Shape(
    list: seq<Elem<V>>,             // the nodes in list order
    starts: seq<nat>,               // where each bucket begins in `list`
    counts: seq<nat>,               // how many nodes each bucket has
    index: map<string, Elem<V>>     // the node of each folded key
  )

  /** The nodes of bucket `b`: `counts[b]` nodes of the list from the head of the bucket on. */
  ghost function Stretch<V>(shape: Shape<V>, b: nat): seq<Elem<V>>
    requires b < |shape.starts| == |shape.counts| && shape.starts[b] + shape.counts[b] <= |shape.list|
  {
    shape.list[shape.starts[b]..shape.starts[b] + shape.counts[b]]
  }

  /** A walk of `counts[b]` steps from the head of bucket `b` stays in the list. */
  lemma BucketWalk<V>(first: Elem?<V>, ht: array<Bucket<V>>, list: seq<Elem<V>>, starts: seq<nat>, counts: seq<nat>, b: nat)
    requires Threads(first, ht, list, starts, counts) && b < ht.Length
    ensures b < |starts| == |counts| && ht[b].count == counts[b] && starts[b] + counts[b] <= |list|
    ensures counts[b] > 0 ==> ht[b].chain == At(list, starts[b])
    ensures forall i {:trigger list[i].next} :: starts[b] <= i < starts[b] + counts[b] ==> list[i].next == At(list, i + 1)
  {
    hide Slots;
  }

  /** The node of an indexed key is in the bucket of the key. */
  lemma PositionInBucket<V>(first: Elem?<V>, ht: array<Bucket<V>>, shape: Shape<V>, key: string, b: nat) returns (j: nat)
    requires Threads(first, ht, shape.list, shape.starts, shape.counts) && Indexes(shape.index, shape.list)
    requires Fold(key) in shape.index && b == Slot(key, ht.Length)
    ensures |shape.starts| == |shape.counts| == ht.Length
    ensures shape.starts[b] <= j < shape.starts[b] + shape.counts[b] && j < |shape.list|
    ensures EqualNoCase(shape.list[j].key, key)
  {
    hide StrHash.Slot, Linked, BucketOf;
    j :| j < |shape.list| && shape.list[j] == shape.index[Fold(key)];
    assert Slots(shape.list, ht.Length)[j] == Slot(shape.list[j].key, ht.Length);
    SameKeySameSlot(shape.list[j].key, key, ht.Length);
  }

  class Table<V> {
    var first: Elem?<V>
    var count: nat
    var htsize: nat
    var ht: array?<Bucket<V>>

    ghost var shape: Shape<V>
    ghost var M: map<string, V>     // what the table means: folded key to data
    ghost var Repr: set<object>

    /** The list and the buckets agree; `count` and the meaning are not looked at. */
    ghost predicate Threaded()
      reads this, Repr
    {
      && this in Repr
      && (forall e :: e in shape.list ==> e in Repr)
      && ht != null && ht in Repr && ht.Length == htsize && PowerOfTwo(htsize)
      && Threads(first, ht, shape.list, shape.starts, shape.counts)
    }

    /** Everything but the size of the table, which is off by one while an element is added. */
    ghost predicate Consistent()
      reads this, Repr
      ensures Consistent() ==> this in Repr
    {
      && this in Repr
      && (forall e :: e in shape.list ==> e in Repr)
      && Indexes(shape.index, shape.list)
      && shape.index.Values <= Repr && Means(M, shape.index)
      && (if ht == null then htsize == 0 && shape.list == [] && shape.counts == [] && first == null else Threaded())
    }

    ghost predicate Valid()
      reads this, Repr
      ensures Valid() ==> this in Repr
    {
      Consistent() && count == |shape.list| <= htsize
    }

    constructor ()
      ensures Valid() && fresh(Repr) && M == map[]
    {
      first, count, htsize, ht := null, 0, 0, null;
      shape, M := Shape([], [], [], map[]), map[];
      Repr := {this};
    }

    /** Link `e` in front of `head`, or first in the list if there is no head. */
    method LinkBefore(head: Elem?<V>, e: Elem<V>, ghost list: seq<Elem<V>>, ghost p: nat)
      requires Linked(first, list) && e !in list
      requires p <= |list| && if head == null then p == 0 else p < |list| && head == list[p]
      modifies this`first, e`next, e`prev, list`next, list`prev
      ensures Linked(first, list[..p] + [e] + list[p..])
    {
      DistinctIff(list);
      DistinctAfterInsert(list, p, e);
      hide Distinct;
      if head != null {
        e.next := head;
        e.prev := head.prev;
        if head.prev != null {
          head.prev.next := e;
        } else {
          first := e;
        }
        head.prev := e;
      } else {
        e.next := first;
        if first != null {
          first.prev := e;
        }
        e.prev := null;
        first := e;
      }
      InsertLinked(first, list, p, e);
    }

    /** Write back bucket `b` once the list has taken the shape `s`. */
    method StoreBucket(b: nat, bucket: Bucket<V>, ghost s: Shape<V>)
      requires this in Repr && (forall e :: e in s.list ==> e in Repr)
      requires ht != null && ht in Repr && ht.Length == htsize && PowerOfTwo(htsize)
      requires Linked(first, s.list) && |s.counts| == htsize
      requires Contiguous(Slots(s.list, htsize), s.starts, s.counts)
      requires b < htsize && bucket == BucketOf(s.list, s.starts, s.counts, b)
      requires forall c :: 0 <= c < htsize && c != b ==> ht[c] == BucketOf(s.list, s.starts, s.counts, c)
      modifies ht, this`shape
      ensures Threaded() && shape == s
    {
      hide Contiguous, Slots, BucketOf;
      ht[b] := bucket;
      shape := s;
    }

    /** Link `e` into the list in front of its bucket, or first in the list if the bucket is empty. */
    method InsertElement(b: nat, e: Elem<V>)
      requires Threaded() && b == Slot(e.key, htsize)
      requires e in Repr && e !in shape.list
      modifies this`first, this`shape, ht, e`next, e`prev, shape.list`next, shape.list`prev
      ensures Threaded()
      ensures |shape.list| == old(|shape.list|) + 1 && shape.index == old(shape.index)
      ensures forall x :: x in shape.list <==> x in old(shape.list) || x == e
    {
      ghost var p, after := ShapeAfterInsert(first, ht, shape, e);
      ghost var l := shape.list;
      hide Linked, Contiguous, Slots, Threads, BucketOf, At, PowerOfTwo, StrHash.Slot;
      var bucket := ht[b];
      LinkBefore(bucket.chain, e, l, p);
      StoreBucket(b, Bucket(bucket.count + 1, e), after);
    }

    /** Move the first of the nodes still to be threaded into the list. */
    method Rethread(elem: Elem<V>, ghost todo: seq<Elem<V>>)
      requires Threaded()
      requires todo != [] && elem == todo[0] && Distinct(todo) && Forward(todo)
      requires forall e :: e in todo ==> e in Repr && e !in shape.list
      modifies this`first, this`shape, ht, elem`next, elem`prev, shape.list
      ensures Threaded()
      ensures |shape.list| == old(|shape.list|) + 1 && shape.index == old(shape.index)
      ensures forall e :: e in shape.list <==> e in old(shape.list) || e == elem
      ensures Forward(todo[1..])
      ensures forall e :: e in shape.list ==> e.data == old(e.data)
      ensures forall e :: e in todo ==> e.data == old(e.data)
    {
      var hash := NoCaseHash(elem.key);
      DistinctIff(todo);
      assert forall i :: 1 <= i < |todo| ==> todo[i] in todo;
      InsertElement(And(hash, htsize - 1), elem);
    }

    /** Start over with an empty list and `newSize` empty buckets. */
    method FreshBuckets(newSize: nat)
      requires this in Repr
      requires PowerOfTwo(newSize)
      modifies this`first, this`htsize, this`ht, this`shape, this`Repr
      ensures Threaded() && htsize == newSize && shape.list == [] && shape.index == old(shape.index)
      ensures fresh(ht) && Repr == old(Repr) + {ht}
    {
      ht := new Bucket<V>[newSize](_ => Bucket(0, null));
      htsize := newSize;
      first := null;
      shape := shape.(list := [], starts := seq(newSize, _ => 0), counts := seq(newSize, _ => 0));
      Repr := Repr + {ht};
    }

    /** Thread every node of the list into a new table: the `next` pointer is read before the node is
        linked into the list that grows in its place. */
    method Rehash(newSize: nat)
      requires this in Repr && (forall e :: e in shape.list ==> e in Repr)
      requires Linked(first, shape.list)
      requires PowerOfTwo(newSize)
      modifies this`first, this`htsize, this`ht, this`shape, this`Repr, shape.list
      ensures Threaded() && htsize == newSize
      ensures fresh(ht) && Repr == old(Repr) + {ht}
      ensures |shape.list| == old(|shape.list|) && shape.index == old(shape.index)
      ensures forall e :: e in shape.list <==> e in old(shape.list)
      ensures forall e :: e in shape.list ==> e.data == old(e.data)
    {
      ghost var todo := shape.list;
      var elem := first;
      FreshBuckets(newSize);
      while elem != null
        invariant elem == At(todo, 0) && Distinct(todo) && Forward(todo)
        invariant Threaded() && htsize == newSize && fresh(ht) && Repr == old(Repr) + {ht}
        invariant |shape.list| + |todo| == old(|shape.list|) && shape.index == old(shape.index)
        invariant forall e :: e in old(shape.list) <==> e in shape.list || e in todo
        invariant forall e :: e in todo ==> e !in shape.list
        invariant forall e :: e in old(shape.list) ==> e.data == old(e.data)
        decreases |todo|
      {
        var next := elem.next;
        assert elem in old(shape.list) && forall i :: 0 <= i < |shape.list| ==> shape.list[i] in old(shape.list);
        Rethread(elem, todo);
        elem := next;
        todo := todo[1..];
      }
    }

    /** Walk a bucket: at most `count` steps from its head. */
    method WalkBucket(bucket: Bucket<V>, key: string, ghost list: seq<Elem<V>>, ghost start: nat) returns (elem: Elem?<V>)
      requires start + bucket.count <= |list| && (bucket.count > 0 ==> bucket.chain == At(list, start))
      requires forall i {:trigger list[i].next} :: start <= i < start + bucket.count ==> list[i].next == At(list, i + 1)
      requires forall e :: e in list ==> Hashable(e.key)
      ensures elem != null ==> elem in list && EqualNoCase(elem.key, key)
      ensures elem == null ==> forall j :: start <= j < start + bucket.count ==> !EqualNoCase(list[j].key, key)
    {
      hide SameKey, EqualNoCase, Hashable;
      var n := bucket.count;
      elem := bucket.chain;
      ghost var i := start;
      while n > 0 && elem != null
        invariant start <= i && n + i == start + bucket.count
        invariant n > 0 ==> elem == At(list, i)
        invariant forall j :: start <= j < i ==> !EqualNoCase(list[j].key, key)
        decreases n
      {
        var order := StrCompare(elem.key, key);
        SameKeyIsEqualNoCase(elem.key, key);
        if order == 0 {
          return;
        }
        elem := elem.next;
        n := n - 1;
        i := i + 1;
      }
      elem := null;
    }

    method FindElement(key: string, b: nat) returns (elem: Elem?<V>)
      requires Valid() && ht != null && Hashable(key) && b == Slot(key, htsize)
      ensures elem == if Fold(key) in shape.index then shape.index[Fold(key)] else null
    {
      BucketWalk(first, ht, shape.list, shape.starts, shape.counts, b);
      hide Threads, SameKey, StrHash.Slot, Hashable;
      if Fold(key) in shape.index {
        ghost var j := PositionInBucket(first, ht, shape, key, b);
      }
      elem := WalkBucket(ht[b], key, shape.list, shape.starts[b]);
    }

    /** Take `elem` out of the list; its own pointers stay. */
    method Unlink(elem: Elem<V>, ghost list: seq<Elem<V>>, ghost p: nat)
      requires Linked(first, list) && p < |list| && elem == list[p]
      modifies this`first, list`next, list`prev
      ensures Linked(first, list[..p] + list[p + 1..])
      ensures elem.next == At(list, p + 1)
    {
      DistinctIff(list);
      DistinctAfterRemove(list, p);
      hide Distinct;
      if elem.prev != null {
        elem.prev.next := elem.next;
      } else {
        first := elem.next;
      }
      if elem.next != null {
        elem.next.prev := elem.prev;
      }
      RemoveLinked(first, list, p);
    }

    /** A bucket without `elem`, which is one of its elements. */
    method ShrunkBucket(old_: Bucket<V>, elem: Elem<V>) returns (bucket: Bucket<V>)
      requires old_.count > 0
      ensures bucket == Bucket(old_.count - 1, if old_.count == 1 then null
                                               else if old_.chain == elem then elem.next
                                               else old_.chain)
    {
      bucket := old_;
      if bucket.chain == elem {
        bucket := bucket.(chain := elem.next);
      }
      bucket := bucket.(count := bucket.count - 1);
      if bucket.count <= 0 {
        bucket := bucket.(chain := null);
      }
    }

    /** Take element `p` of the list out of the list and its bucket. */
    method RemoveAt(elem: Elem<V>, b: nat, ghost p: nat)
      requires Threaded() && p < |shape.list| && elem == shape.list[p] && b == Slot(elem.key, htsize)
      modifies this`first, this`shape, ht, shape.list`next, shape.list`prev
      ensures Threaded() && shape.index == old(shape.index)
      ensures shape.list == old(shape.list[..p] + shape.list[p + 1..])
    {
      ghost var l := shape.list;
      MembersAfterRemove(l, p);
      ThreadsAfterRemove(first, ht, l, shape.starts, shape.counts, p);
      ghost var starts, counts := StartsAfterRemove(shape.starts, p), shape.counts[b := shape.counts[b] - 1];
      hide Linked, Contiguous, Slots, Threads, BucketOf, StrHash.Slot;
      Unlink(elem, l, p);
      var bucket := ShrunkBucket(ht[b], elem);
      StoreBucket(b, bucket, shape.(list := l[..p] + l[p + 1..], starts := starts, counts := counts));
    }

    method RemoveElement(elem: Elem<V>, b: nat)
      requires Threaded() && elem in shape.list && b == Slot(elem.key, htsize) && count > 0
      modifies this`first, this`count, this`shape, ht, shape.list`next, shape.list`prev
      ensures Threaded() && count == old(count) - 1 && shape.index == old(shape.index)
      ensures |shape.list| == old(|shape.list|) - 1
      ensures forall e :: e in shape.list <==> e in old(shape.list) && e != elem
    {
      ghost var p: nat :| p < |shape.list| && shape.list[p] == elem;
      MembersAfterRemove(shape.list, p);
      hide Threads, Distinct, StrHash.Slot;
      RemoveAt(elem, b, p);
      count := count - 1;
    }

    /** The table without the entry of `elem`. */
    method DeleteElement(elem: Elem<V>, b: nat)
      requires Valid() && ht != null && elem in shape.list && b == Slot(elem.key, htsize)
      modifies this`first, this`count, this`shape, this`M, ht, shape.list`next, shape.list`prev
      ensures Valid() && count == old(count) - 1
      ensures M == old(M) - {Fold(elem.key)}
    {
      hide Threads, Indexes, StrHash.Slot;
      ghost var list := shape.list;
      RemoveElement(elem, b);
      IndexesAfterRemove(shape.index, list, elem, shape.list);
      shape := shape.(index := shape.index - {Fold(elem.key)});
      M := M - {Fold(elem.key)};
    }

    method SetData(elem: Elem<V>, data: V, ghost index: map<string, Elem<V>>, ghost m: map<string, V>)
      requires Fold(elem.key) in index && index[Fold(elem.key)] == elem && Means(m, index)
      requires forall k :: k in index && index[k] == elem ==> k == Fold(elem.key)
      modifies elem`data
      ensures Means(m[Fold(elem.key) := data], index)
    {
      hide Fold;
      elem.data := data;
    }

    method StoreData(elem: Elem<V>, data: V)
      requires Threaded() && elem in shape.list && Indexes(shape.index, shape.list) && Means(M, shape.index)
      modifies elem`data
      ensures Threaded() && Means(M[Fold(elem.key) := data], shape.index)
    {
      IndexedOnce(shape.index, shape.list, elem);
      hide Contiguous, Slots, BucketOf, Distinct, Indexes, Fold, Means;
      SetData(elem, data, shape.index, M);
    }

    method UpdateElement(elem: Elem<V>, data: V)
      requires Valid() && elem in shape.list && ht != null
      modifies this`M, elem`data
      ensures Valid()
      ensures M == old(M)[Fold(elem.key) := data]
    {
      hide Threads, Indexes, Means, Fold, PowerOfTwo;
      StoreData(elem, data);
      M := M[Fold(elem.key) := data];
    }

    /** Make room for the counted elements: 8 buckets at first, then twice as many. */
    method Grow()
      requires Consistent() && count == |shape.list| + 1 && |shape.list| <= htsize
      modifies this`first, this`htsize, this`ht, this`shape, this`Repr, shape.list
      ensures Consistent() && ht != null && count <= htsize
      ensures htsize == (var size := if old(htsize) == 0 then 8 else old(htsize); if count > size then size * 2 else size)
      ensures forall o :: o in Repr ==> o in old(Repr) || fresh(o)
      ensures ht == old(ht) || fresh(ht)
      ensures |shape.list| == old(|shape.list|) && shape.index == old(shape.index)
      ensures forall x :: x in shape.list <==> x in old(shape.list)
    {
      hide Indexes;
      ghost var list := shape.list;
      if htsize == 0 {
        Rehash(8);
      }
      if count > htsize {
        Rehash(htsize * 2);
      }
      IndexesOfSame(shape.index, list, shape.list);
    }

    /** Count a new element and own it. */
    method Adopt(e: Elem<V>)
      requires Valid() && e !in Repr
      modifies this`first, this`count, this`htsize, this`ht, this`shape, this`Repr, shape.list
      ensures Consistent() && ht != null && count == |shape.list| + 1 <= htsize && count == old(count) + 1
      ensures htsize == (var size := if old(htsize) == 0 then 8 else old(htsize); if count > size then size * 2 else size)
      ensures e in Repr && forall o :: o in Repr ==> o in old(Repr) || o == e || fresh(o)
      ensures ht == old(ht) || fresh(ht)
      ensures shape.index == old(shape.index)
      ensures forall x :: x in shape.list <==> x in old(shape.list)
    {
      hide Threads, Indexes;
      count := count + 1;
      Grow();
      Repr := Repr + {e};
    }

    /** Link a new element with a key that no other element has. */
    method AddElement(e: Elem<V>, hash: nat)
      requires Consistent() && ht != null && count == |shape.list| + 1 <= htsize
      requires e in Repr && e !in shape.list && Hashable(e.key) && Fold(e.key) !in shape.index
      requires hash == KeyHash(e.key)
      modifies this`first, this`shape, this`M, ht, e`next, e`prev, shape.list
      ensures Valid()
      ensures M == old(M)[Fold(e.key) := e.data]
    {
      hide Threads, Indexes, Hashable, Fold, PowerOfTwo;
      ghost var list := shape.list;
      InsertElement(And(hash, htsize - 1), e);
      assert Means(M, shape.index);
      hide Means;
      IndexesAfterAdd(shape.index, list, e, shape.list);
      MeansAfterAdd(M, shape.index, e);
      shape := shape.(index := shape.index[Fold(e.key) := e]);
      M := M[Fold(e.key) := e.data];
    }

    method Append(key: string, hash: nat, data: V)
      requires hash == KeyHash(key)
      requires Valid() && Hashable(key) && Fold(key) !in M
      modifies Repr
      ensures Valid() && fresh(Repr - old(Repr)) && count == old(count) + 1
      ensures htsize == (var size := if old(htsize) == 0 then 8 else old(htsize); if count > size then size * 2 else size)
      ensures M == old(M)[Fold(key) := data]
    {
      hide Threads, Indexes, Fold, PowerOfTwo;
      var e := new Elem(key, data);
      Adopt(e);
      AddElement(e, hash);
    }

    /** The data stored for `key`, if any. */
    method Find(key: string) returns (data: Option<V>)
      requires Valid() && Hashable(key)
      ensures data == Lookup(M, key)
      ensures forall other | SameText(key, other) :: data == Lookup(M, other)
    {
      forall other | SameText(key, other) ensures Lookup(M, key) == Lookup(M, other) {
        LookupIgnoresCase(M, key, other);
      }
      hide Lookup, SameText;
      data := FindFolded(key);
    }

    method FindFolded(key: string) returns (data: Option<V>)
      requires Valid() && Hashable(key)
      ensures data == Lookup(M, key)
    {
      if ht == null {
        return None;
      }
      var hash := NoCaseHash(key);
      var elem := FindElement(key, And(hash, htsize - 1));
      data := if elem != null then Some(elem.data) else None;
    }

    /** Store `data` for `key`, or with no data remove the key; the previous data is returned. */
    method Insert(key: string, data: Option<V>) returns (previous: Option<V>)
      requires Valid() && Hashable(key)
      modifies Repr
      ensures Valid() && fresh(Repr - old(Repr))
      ensures previous == Lookup(old(M), key)
      ensures M == Stored(old(M), key, data)
      ensures count == old(count) + (if previous == None && data != None then 1
                                     else if previous != None && data == None then -1 else 0)
      ensures htsize == (var size := if old(htsize) == 0 && data != None then 8 else old(htsize);
                         if count > size then size * 2 else size)
    {
      hide Threads;
      var hash := NoCaseHash(key);
      var elem: Elem?<V> := null;
      if ht != null {
        elem := FindElement(key, And(hash, htsize - 1));
      }
      if elem != null {
        previous := Some(elem.data);
        if data == None {
          SameKeySameSlot(elem.key, key, htsize);
          DeleteElement(elem, And(hash, htsize - 1));
        } else {
          UpdateElement(elem, data.value);
        }
      } else {
        previous := None;
        if data != None {
          Append(key, hash, data.value);
        }
      }
    }

    method Clear()
      requires Valid()
      modifies this
      ensures Valid() && Repr == old(Repr)
      ensures M == map[]
    {
      hide Threads;
      first, ht, htsize, count := null, null, 0, 0;
      shape, M := Shape([], [], [], map[]), map[];
    }
  }

  // ----- Whole runs ------------------------------------------------------------------------------

  datatype Op<V> = FindOp(key: string) | InsertOp(key: string, data: Option<V>) | ClearOp

  predicate UsableKey<V>(op: Op<V>) {
    !op.ClearOp? ==> Hashable(op.key)
  }

  /** The map after one operation, and what the operation answers. */
  function MapStep<V>(m: map<string, V>, op: Op<V>): (map<string, V>, Option<V>) {
    match op
    case FindOp(key) => (m, Lookup(m, key))
    case InsertOp(key, data) => (Stored(m, key, data), Lookup(m, key))
    case ClearOp => (map[], None)
  }

  function MapRun<V>(m: map<string, V>, ops: seq<Op<V>>): (map<string, V>, seq<Option<V>>)
  {
    if ops == [] then (m, [])
    else
      var n := |ops| - 1;
      var (before, answers) := MapRun(m, ops[..n]);
      var (after, answer) := MapStep(before, ops[n]);
      (after, answers + [answer])
  }

  /** Every run of operations on a table answers what the same run on a partial map answers. */
  method Run<V>(t: Table<V>, ops: seq<Op<V>>) returns (answers: seq<Option<V>>)
    requires t.Valid() && forall op :: op in ops ==> UsableKey(op)
    modifies t.Repr
    ensures t.Valid() && fresh(t.Repr - old(t.Repr))
    ensures (t.M, answers) == MapRun(old(t.M), ops)
  {
    answers := [];
    for i := 0 to |ops|
      invariant t.Valid() && fresh(t.Repr - old(t.Repr))
      invariant (t.M, answers) == MapRun(old(t.M), ops[..i])
    {
      hide Threads;
      var answer: Option<V> := None;
      assert UsableKey(ops[i]);
      match ops[i] {
        case FindOp(key) => answer := t.Find(key);
        case InsertOp(key, data) => answer := t.Insert(key, data);
        case ClearOp => t.Clear();
      }
      answers := answers + [answer];
      assert ops[..i + 1][..i] == ops[..i];
    }
    assert ops[..|ops|] == ops;
  }

  // ----- What the answers mean -------------------------------------------------------------------

  /** The operation determines what is stored for the key from then on. */
  predicate Touches<V>(op: Op<V>, key: string) {
    op.ClearOp? || (op.InsertOp? && SameText(op.key, key))
  }

  /** The last operation that touches the key stored `d` for it. */
  ghost predicate LastStored<V>(ops: seq<Op<V>>, key: string, d: V) {
    exists j :: 0 <= j < |ops| && Touches(ops[j], key) && ops[j].InsertOp? && ops[j].data == Some(d)
                && forall k | j < k < |ops| :: !Touches(ops[k], key)
  }

  lemma LastStoredNext<V>(ops: seq<Op<V>>, key: string, d: V)
    requires ops != []
    ensures var n := |ops| - 1;
            LastStored(ops, key, d)
            <==> if Touches(ops[n], key) then ops[n].InsertOp? && ops[n].data == Some(d) else LastStored(ops[..n], key, d)
  {
    hide Touches;
    var n := |ops| - 1;
    if !Touches(ops[n], key) {
      if LastStored(ops, key, d) {
        var j :| 0 <= j < |ops| && Touches(ops[j], key) && ops[j].InsertOp? && ops[j].data == Some(d)
                 && forall k | j < k < |ops| :: !Touches(ops[k], key);
        assert ops[..n][j] == ops[j];
      }
      if LastStored(ops[..n], key, d) {
        var j :| 0 <= j < n && Touches(ops[..n][j], key) && ops[..n][j].InsertOp? && ops[..n][j].data == Some(d)
                 && forall k | j < k < n :: !Touches(ops[..n][k], key);
        assert forall k | j < k < |ops| :: k < n ==> ops[k] == ops[..n][k];
        assert Touches(ops[j], key);
      }
    }
  }

  lemma MapStepIff<V>(m: map<string, V>, op: Op<V>, key: string, d: V)
    ensures Lookup(MapStep(m, op).0, key) == Some(d)
            <==> if Touches(op, key) then op.InsertOp? && op.data == Some(d) else Lookup(m, key) == Some(d)
  {
    if op.InsertOp? {
      EqualNoCaseIff(op.key, key);
    }
  }

  lemma {:induction false} StoredIff<V>(ops: seq<Op<V>>, key: string, d: V)
    ensures Lookup(MapRun(map[], ops).0, key) == Some(d) <==> LastStored(ops, key, d)
    decreases |ops|
  {
    hide LastStored, Touches, Lookup, MapStep;
    if ops == [] {
      NothingStored(key, d);
    } else {
      var n := |ops| - 1;
      StoredIff(ops[..n], key, d);
      LastStoredNext(ops, key, d);
      MapStepIff(MapRun(map[], ops[..n]).0, ops[n], key, d);
    }
  }

  lemma NothingStored<V>(key: string, d: V)
    ensures Lookup<V>(map[], key) == None && !LastStored([], key, d) && MapRun<V>(map[], []).0 == map[]
  {
  }

  lemma {:induction false} AnswerAt<V>(m: map<string, V>, ops: seq<Op<V>>, i: nat)
    requires i < |ops|
    ensures var answers := MapRun(m, ops).1;
            |answers| == |ops| && answers[i] == MapStep(MapRun(m, ops[..i]).0, ops[i]).1
    decreases |ops|
  {
    hide MapStep;
    var n := |ops| - 1;
    AnswerCount(m, ops);
    AnswerCount(m, ops[..n]);
    if i < n {
      AnswerAt(m, ops[..n], i);
      assert ops[..n][..i] == ops[..i];
    }
  }

  lemma {:induction false} AnswerCount<V>(m: map<string, V>, ops: seq<Op<V>>)
    ensures |MapRun(m, ops).1| == |ops|
    decreases |ops|
  {
    if ops != [] {
      AnswerCount(m, ops[..|ops| - 1]);
    }
  }

  /** On a new table, every find, and every insertion before it takes effect, answers what the last operation before it
      stored for a key of the same spelling up to case, and nothing if that operation deleted or cleared. */
  method RunOnNew<V>(ops: seq<Op<V>>) returns (answers: seq<Option<V>>)
    requires forall op :: op in ops ==> UsableKey(op)
    ensures |answers| == |ops|
    ensures forall i, d | 0 <= i < |ops| && !ops[i].ClearOp? :: answers[i] == Some(d) <==> LastStored(ops[..i], ops[i].key, d)
    ensures forall i | 0 <= i < |ops| && ops[i].ClearOp? :: answers[i] == None
  {
    hide UsableKey, LastStored;
    var t := new Table<V>();
    answers := Run(t, ops);
    AnswerCount(map[], ops);
    forall i | 0 <= i < |ops|
      ensures ops[i].ClearOp? ==> answers[i] == None
      ensures !ops[i].ClearOp? ==> forall d :: answers[i] == Some(d) <==> LastStored(ops[..i], ops[i].key, d)
    {
      AnswerAt(map[], ops, i);
      if !ops[i].ClearOp? {
        forall d ensures answers[i] == Some(d) <==> LastStored(ops[..i], ops[i].key, d) {
          StoredIff(ops[..i], ops[i].key, d);
        }
      }
    }
  }

  /** In every table: the list is one acyclic doubly linked list, the bucket of a node is the slot of its
      key, the buckets are disjoint stretches of the list and hold all of its nodes, and the number of
      buckets is a power of two, or 0, and at least the number of elements. */
  lemma BucketsPartitionList<V>(t: Table<V>)
    requires t.Valid()
    ensures Distinct(t.shape.list)
    ensures forall e :: e in t.shape.list ==>
              && (e.next != null ==> e.next in t.shape.list && e.next.prev == e)
              && (e.prev != null ==> e.prev in t.shape.list && e.prev.next == e)
              && (e.prev == null <==> e == t.first)
    ensures t.count == |t.shape.list| == Sum(t.shape.counts) <= t.htsize
    ensures t.ht == null <==> t.htsize == 0
    ensures t.ht != null ==>
              && PowerOfTwo(t.htsize)
              && (forall b :: 0 <= b < t.htsize ==>
                    && t.ht[b].count == t.shape.counts[b]
                    && (t.ht[b].chain != null <==> t.ht[b].count > 0)
                    && var stretch := Stretch(t.shape, b);
                       && |stretch| == t.ht[b].count
                       && (t.ht[b].chain != null ==> stretch[0] == t.ht[b].chain)
                       && forall e :: e in stretch <==> e in t.shape.list && Slot(e.key, t.htsize) == b)
  {
    hide StrHash.Slot, Indexes, Means;
    if t.ht != null {
      NeighboursAgree(t.first, t.shape.list);
      CountsCoverList(Slots(t.shape.list, t.htsize), t.shape.starts, t.shape.counts);
      forall b | 0 <= b < t.htsize
        ensures forall e :: e in Stretch(t.shape, b) <==> e in t.shape.list && Slot(e.key, t.htsize) == b
      {
        StretchHoldsSlot(t.shape, t.htsize, b);
      }
    }
  }

  lemma NeighboursAgree<V>(first: Elem?<V>, list: seq<Elem<V>>)
    requires Linked(first, list)
    ensures forall e :: e in list ==>
              && (e.next != null ==> e.next in list && e.next.prev == e)
              && (e.prev != null ==> e.prev in list && e.prev.next == e)
              && (e.prev == null <==> e == first)
  {
    DistinctIff(list);
    forall e | e in list
      ensures e.next != null ==> e.next in list && e.next.prev == e
      ensures e.prev != null ==> e.prev in list && e.prev.next == e
      ensures e.prev == null <==> e == first
    {
      var i :| 0 <= i < |list| && list[i] == e;
      assert e.next == At(list, i + 1) && e.prev == At(list, i - 1);
    }
  }

  lemma StretchHoldsSlot<V>(shape: Shape<V>, size: nat, b: nat)
    requires PowerOfTwo(size) && b < |shape.counts| == size
    requires Contiguous(Slots(shape.list, size), shape.starts, shape.counts)
    ensures forall e :: e in Stretch(shape, b) <==> e in shape.list && Slot(e.key, size) == b
  {
    hide StrHash.Slot;
    var slots, s := Slots(shape.list, size), shape.starts[b];
    forall e | e in shape.list && Slot(e.key, size) == b
      ensures e in Stretch(shape, b)
    {
      var i :| 0 <= i < |shape.list| && shape.list[i] == e;
      assert slots[i] == b;
      assert Stretch(shape, b)[i - s] == e;
    }
    forall e | e in Stretch(shape, b)
      ensures e in shape.list && Slot(e.key, size) == b
    {
      var j :| 0 <= j < |Stretch(shape, b)| && Stretch(shape, b)[j] == e;
      assert shape.list[s + j] == e && slots[s + j] == b;
    }
  }
}

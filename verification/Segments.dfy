/** Buckets as contiguous stretches of one list. The list is seen only as the sequence of the slots of
    its nodes: bucket `b` owns the positions `starts[b] .. starts[b] + counts[b]` and no others. */
module Segments {
  ghost predicate Contiguous(slots: seq<nat>, starts: seq<nat>, counts: seq<nat>) {
    && |starts| == |counts|
    && (forall b :: 0 <= b < |counts| ==> starts[b] + counts[b] <= |slots|)
    && (forall i :: 0 <= i < |slots| ==> slots[i] < |counts|)
    && (forall b, i :: 0 <= b < |counts| && 0 <= i < |slots| ==>
          (slots[i] == b <==> starts[b] <= i < starts[b] + counts[b]))
  }

  /** Where a new node of bucket `b` is linked in: before the head of its bucket, or first in the list. */
  ghost function InsertAt(starts: seq<nat>, counts: seq<nat>, b: nat): nat
    requires b < |starts| == |counts|
  {
    if counts[b] > 0 then starts[b] else 0
  }

  ghost function StartsAfterInsert(starts: seq<nat>, counts: seq<nat>, b: nat): (r: seq<nat>)
    requires b < |starts| == |counts|
    ensures |r| == |starts|
  {
    var p := InsertAt(starts, counts, b);
    seq(|starts|, c requires 0 <= c < |starts| =>
      if c == b then p else if counts[c] > 0 && starts[c] >= p then starts[c] + 1 else starts[c])
  }

  /** After the insertion position `i` still belongs to the bucket of its node alone. */
  lemma InsertKeepsOwner(slots: seq<nat>, starts: seq<nat>, counts: seq<nat>, b: nat, c: nat, i: nat)
    requires Contiguous(slots, starts, counts)
    requires b < |counts| && c < |counts| && i <= |slots|
    ensures var p := InsertAt(starts, counts, b);
            var s, n := StartsAfterInsert(starts, counts, b)[c], counts[b := counts[b] + 1][c];
            && p <= |slots| && (if i < p then slots[i] else if i == p then b else slots[i - 1]) < |counts|
            && ((if i < p then slots[i] else if i == p then b else slots[i - 1]) == c <==> s <= i < s + n)
  {
    var p := InsertAt(starts, counts, b);
    if counts[b] > 0 {
      assert slots[p] == b;
    }
    var k := if i < p then i else i - 1;
    if i != p {
      assert slots[k] == c <==> starts[c] <= k < starts[c] + counts[c];
    }
  }

  lemma InsertKeepsContiguous(slots: seq<nat>, starts: seq<nat>, counts: seq<nat>, b: nat)
    requires Contiguous(slots, starts, counts)
    requires b < |counts|
    ensures var p := InsertAt(starts, counts, b);
            p <= |slots| &&
            Contiguous(slots[..p] + [b] + slots[p..],
                       StartsAfterInsert(starts, counts, b), counts[b := counts[b] + 1])
  {
    InsertKeepsOwner(slots, starts, counts, b, b, 0);
    var p := InsertAt(starts, counts, b);
    var slots' := slots[..p] + [b] + slots[p..];
    var starts', counts' := StartsAfterInsert(starts, counts, b), counts[b := counts[b] + 1];
    forall c, i | 0 <= c < |counts| && 0 <= i < |slots'|
      ensures slots'[i] < |counts| && (slots'[i] == c <==> starts'[c] <= i < starts'[c] + counts'[c])
    {
      InsertKeepsOwner(slots, starts, counts, b, c, i);
    }
    forall c | 0 <= c < |counts|
      ensures starts'[c] + counts'[c] <= |slots'|
    {
    }
  }

  ghost function StartsAfterRemove(starts: seq<nat>, p: nat): (r: seq<nat>)
    ensures |r| == |starts|
  {
    seq(|starts|, c requires 0 <= c < |starts| => if starts[c] > p then (starts[c] - 1) as nat else starts[c])
  }

  lemma RemoveKeepsContiguous(slots: seq<nat>, starts: seq<nat>, counts: seq<nat>, p: nat)
    requires Contiguous(slots, starts, counts)
    requires p < |slots|
    ensures counts[slots[p]] > 0
    ensures Contiguous(slots[..p] + slots[p + 1..], StartsAfterRemove(starts, p),
                       counts[slots[p] := counts[slots[p]] - 1])
  {
    var b := slots[p];
    var slots' := slots[..p] + slots[p + 1..];
    var starts', counts' := StartsAfterRemove(starts, p), counts[b := counts[b] - 1];
    forall c, i | 0 <= c < |counts| && 0 <= i < |slots'|
      ensures slots'[i] == c <==> starts'[c] <= i < starts'[c] + counts'[c]
    {
      assert slots'[i] == if i < p then slots[i] else slots[i + 1];
    }
  }

  function Sum(counts: seq<nat>): nat {
    if counts == [] then 0 else Sum(counts[..|counts| - 1]) + counts[|counts| - 1]
  }

  /** The buckets cover the list: together they hold as many nodes as it has. */
  lemma {:induction false} CountsCoverList(slots: seq<nat>, starts: seq<nat>, counts: seq<nat>)
    requires Contiguous(slots, starts, counts)
    ensures Sum(counts) == |slots|
    decreases |slots|
  {
    if slots == [] {
      SumOfZeros(counts);
    } else {
      var n := |slots| - 1;
      var b := slots[n];
      RemoveKeepsContiguous(slots, starts, counts, n);
      assert slots[..n] + slots[n + 1..] == slots[..n];
      CountsCoverList(slots[..n], StartsAfterRemove(starts, n), counts[b := counts[b] - 1]);
      SumOfUpdate(counts, b, counts[b] - 1);
    }
  }

  lemma {:induction false} SumOfZeros(counts: seq<nat>)
    requires forall b :: 0 <= b < |counts| ==> counts[b] == 0
    ensures Sum(counts) == 0
  {
    if counts != [] {
      SumOfZeros(counts[..|counts| - 1]);
    }
  }

  lemma {:induction false} SumOfUpdate(counts: seq<nat>, b: nat, n: nat)
    requires b < |counts|
    ensures Sum(counts[b := n]) == Sum(counts) - counts[b] + n
  {
    var last := |counts| - 1;
    if b == last {
      assert counts[b := n][..last] == counts[..last];
    } else {
      SumOfUpdate(counts[..last], b, n);
      assert counts[b := n][..last] == counts[..last][b := n];
    }
  }
}

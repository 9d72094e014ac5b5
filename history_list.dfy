/** The persisted history of the scanner's history component: an ordered list
    of records, and the new lists that `add`, `remove` and
    `updateLatestComment` build from the list they read from the store. */
module HistoryList {

  datatype Option<+T> = None | Some(value: T)

  /** One history entry: the scanned value (the lookup key) and the user's note. */
  datatype Record = Record(item: string, comment: string)

  /** No two records share an `item`. */
  ghost predicate Distinct(h: seq<Record>) {
    forall i, j :: 0 <= i < j < |h| ==> h[i].item != h[j].item
  }

  /** Every record has a non-empty `item` (an empty one is never added). */
  ghost predicate ItemsNonEmpty(h: seq<Record>) {
    forall i :: 0 <= i < |h| ==> h[i].item != ""
  }

  /** The position of the first record whose `item` is `key`, as
      `history.find(h => h.item === key)` locates it. */
  function Find(h: seq<Record>, key: string): (r: Option<nat>)
    ensures r.Some? ==> r.value < |h| && h[r.value].item == key
    ensures r.Some? ==> forall j :: 0 <= j < r.value ==> h[j].item != key
    ensures r.None? <==> forall j :: 0 <= j < |h| ==> h[j].item != key
  {
    if h == [] then None
    else if h[0].item == key then Some(0)
    else match Find(h[1..], key)
      case None => None
      case Some(k) => Some(k + 1)
  }

  /** The list `remove` writes back: `history.filter(h => h.item !== key)`.
      A record survives exactly when it was in the list and its item is not
      the removed key; in particular no survivor has that key. */
  function Filter(h: seq<Record>, key: string): (r: seq<Record>)
    ensures forall x :: x in r <==> x in h && x.item != key
    ensures |r| <= |h|
  {
    if h == [] then []
    else if h[0].item == key then Filter(h[1..], key)
    else [h[0]] + Filter(h[1..], key)
  }

  /** The list `updateLatestComment` writes back: the last record with its
      comment replaced, everything before it as it was. */
  function WithLatestComment(h: seq<Record>, c: string): (r: seq<Record>)
    requires h != []
    ensures |r| == |h|
  {
    h[..|h| - 1] + [h[|h| - 1].(comment := c)]
  }

  /** Filtering commutes with concatenation: every other record keeps its
      relative order. */
  lemma {:induction false} FilterAppend(a: seq<Record>, b: seq<Record>, key: string)
    ensures Filter(a + b, key) == Filter(a, key) + Filter(b, key)
  {
    if a == [] {
      assert a + b == b;
    } else {
      assert (a + b)[1..] == a[1..] + b;
      FilterAppend(a[1..], b, key);
    }
  }

  /** Removing an absent key writes back the same list. */
  lemma {:induction false} FilterAbsent(h: seq<Record>, key: string)
    requires Find(h, key).None?
    ensures Filter(h, key) == h
  {
    if h != [] {
      FilterAbsent(h[1..], key);
      assert h == [h[0]] + h[1..];
    }
  }

  /** In a list without duplicates, removing a present key drops exactly the
      one record that has it. */
  lemma FilterDistinctAt(h: seq<Record>, key: string, i: nat)
    requires Distinct(h)
    requires i < |h| && h[i].item == key
    ensures Filter(h, key) == h[..i] + h[i + 1..]
    ensures |Filter(h, key)| == |h| - 1
  {
    assert h == h[..i] + ([h[i]] + h[i + 1..]);
    FilterAppend(h[..i], [h[i]] + h[i + 1..], key);
    FilterAppend([h[i]], h[i + 1..], key);
    assert Filter([h[i]], key) == [] by {
      assert [h[i]][1..] == [];
    }
    FilterAbsent(h[..i], key);
    var tail := h[i + 1..];
    assert Find(tail, key).None? by {
      forall j | 0 <= j < |tail|
        ensures tail[j].item != key
      {
        assert tail[j] == h[i + 1 + j];
      }
    }
    FilterAbsent(tail, key);
  }

  /** `remove` keeps the list free of duplicates and of empty items. */
  lemma {:induction false} FilterPreservesInvariant(h: seq<Record>, key: string)
    requires Distinct(h) && ItemsNonEmpty(h)
    ensures Distinct(Filter(h, key)) && ItemsNonEmpty(Filter(h, key))
  {
    if h != [] {
      var rest := Filter(h[1..], key);
      FilterPreservesInvariant(h[1..], key);
      if h[0].item != key {
        assert Filter(h, key) == [h[0]] + rest;
        forall j | 0 <= j < |rest|
          ensures rest[j].item != h[0].item
        {
          var x := rest[j];
          assert x in h[1..];
          var k :| 0 <= k < |h[1..]| && h[1..][k] == x;
          assert h[k + 1] == x;
        }
      }
    }
  }

  lemma AppendKeepsInvariant(h: seq<Record>, rec: Record)
    requires Distinct(h) && ItemsNonEmpty(h)
    requires rec.item != "" && forall j :: 0 <= j < |h| ==> h[j].item != rec.item
    ensures Distinct(h + [rec]) && ItemsNonEmpty(h + [rec])
  {
    var ext := h + [rec];
    forall i, j | 0 <= i < j < |ext|
      ensures ext[i].item != ext[j].item
    {
      assert ext[i] == h[i];
      if j < |h| {
        assert ext[j] == h[j];
      }
    }
    forall i | 0 <= i < |ext|
      ensures ext[i].item != ""
    {
      if i < |h| {
        assert ext[i] == h[i];
      }
    }
  }

  /** Appending a record whose item is not yet present keeps the list free of
      duplicates and makes the record retrievable by its item, at the end. */
  lemma AppendFresh(h: seq<Record>, rec: Record)
    requires Distinct(h) && ItemsNonEmpty(h)
    requires rec.item != "" && Find(h, rec.item).None?
    ensures Distinct(h + [rec]) && ItemsNonEmpty(h + [rec])
    ensures Find(h + [rec], rec.item) == Some(|h|)
  {
    AppendKeepsInvariant(h, rec);
    var ext := h + [rec];
    forall j | 0 <= j < |h|
      ensures ext[j].item != rec.item
    {
      assert ext[j] == h[j];
    }
    assert ext[|h|].item == rec.item;
  }

  /** Only the last record's comment changes: every item, and so the absence
      of duplicates, stays as it was. */
  lemma LatestCommentKeepsItems(h: seq<Record>, c: string)
    requires h != []
    ensures forall i :: 0 <= i < |h| ==> WithLatestComment(h, c)[i].item == h[i].item
    ensures forall i :: 0 <= i < |h| - 1 ==> WithLatestComment(h, c)[i] == h[i]
    ensures WithLatestComment(h, c)[|h| - 1].comment == c
    ensures Distinct(h) ==> Distinct(WithLatestComment(h, c))
    ensures ItemsNonEmpty(h) ==> ItemsNonEmpty(WithLatestComment(h, c))
  {
    var r := WithLatestComment(h, c);
    forall i | 0 <= i < |h|
      ensures r[i].item == h[i].item
    {
      if i < |h| - 1 {
        assert r[i] == h[..|h| - 1][i];
      }
    }
  }

  /** A second update overrides the first. */
  lemma LatestCommentOverrides(h: seq<Record>, c1: string, c2: string)
    requires h != []
    ensures WithLatestComment(WithLatestComment(h, c1), c2) == WithLatestComment(h, c2)
  {
    var r1 := WithLatestComment(h, c1);
    assert r1[..|r1| - 1] == h[..|h| - 1];
  }

  /** Writing the last record's own comment back gives the list it came from. */
  lemma LatestCommentUnchanged(h: seq<Record>)
    requires h != []
    ensures WithLatestComment(h, h[|h| - 1].comment) == h
  {
    assert h == h[..|h| - 1] + [h[|h| - 1]];
  }
}

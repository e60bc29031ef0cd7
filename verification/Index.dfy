/** addToIndex and removeFromIndex: ordered id lists kept under an address. */
module Index {
  type Ids = seq<string>
  type Indexes = map<string, Ids>

  function Lookup(ix: Indexes, key: string): Ids { if key in ix then ix[key] else [] }

  function Add(ix: Indexes, key: string, id: string): Indexes {
    if id in Lookup(ix, key) then ix else ix[key := Lookup(ix, key) + [id]]
  }

  function Without(ids: Ids, id: string): (r: Ids)
    ensures forall x :: x in r <==> x in ids && x != id
  {
    if ids == [] then []
    else
      var front, last := ids[..|ids| - 1], ids[|ids| - 1];
      assert ids == front + [last];
      if last == id then Without(front, id) else Without(front, id) + [last]
  }

  /** An index that would become empty is dropped instead of stored. */
  function Remove(ix: Indexes, key: string, id: string): Indexes {
    if key !in ix then ix
    else
      var filtered := Without(ix[key], id);
      if filtered == [] then ix - {key} else ix[key := filtered]
  }

  predicate NoDuplicates(ids: Ids) { forall i, j :: 0 <= i < j < |ids| ==> ids[i] != ids[j] }

  ghost predicate Tidy(ix: Indexes) { forall key :: key in ix ==> ix[key] != [] && NoDuplicates(ix[key]) }

  method AddToIndex(ix: Indexes, key: string, id: string) returns (r: Indexes)
    ensures r == Add(ix, key, id)
  {
    var ids: Ids := [];
    if key in ix {
      ids := ix[key];
    }
    for i := 0 to |ids|
      invariant id !in ids[..i]
    {
      if ids[i] == id {
        return ix;
      }
    }
    assert ids == ids[..|ids|];
    return ix[key := ids + [id]];
  }

  method RemoveFromIndex(ix: Indexes, key: string, id: string) returns (r: Indexes)
    ensures r == Remove(ix, key, id)
  {
    if key !in ix {
      return ix;
    }
    var ids := ix[key];
    var filtered: Ids := [];
    for i := 0 to |ids|
      invariant filtered == Without(ids[..i], id)
    {
      assert ids[..i + 1][..i] == ids[..i];
      if ids[i] != id {
        filtered := filtered + [ids[i]];
      }
    }
    assert ids == ids[..|ids|];
    if |filtered| == 0 {
      return ix - {key};
    }
    return ix[key := filtered];
  }

  lemma {:induction false} WithoutKeepsDistinct(ids: Ids, id: string)
    requires NoDuplicates(ids)
    ensures NoDuplicates(Without(ids, id))
  {
    if ids != [] {
      var front, last := ids[..|ids| - 1], ids[|ids| - 1];
      WithoutKeepsDistinct(front, id);
      assert last !in front;
    }
  }

  lemma {:induction false} WithoutAbsent(ids: Ids, id: string)
    requires id !in ids
    ensures Without(ids, id) == ids
  {
    if ids != [] {
      WithoutAbsent(ids[..|ids| - 1], id);
      assert ids == ids[..|ids| - 1] + [ids[|ids| - 1]];
    }
  }

  /** One list, one id. */
  lemma AddAt(ix: Indexes, key: string, id: string, k: string, x: string)
    ensures x in Lookup(Add(ix, key, id), k) <==> x in Lookup(ix, k) || (k == key && x == id)
  {
  }

  lemma AddLooksUp(ix: Indexes, key: string, id: string)
    ensures forall k, x :: x in Lookup(Add(ix, key, id), k) <==> x in Lookup(ix, k) || (k == key && x == id)
  {
  }

  lemma RemoveLooksUp(ix: Indexes, key: string, id: string)
    ensures forall k, x :: x in Lookup(Remove(ix, key, id), k) <==> x in Lookup(ix, k) && !(k == key && x == id)
    ensures forall k :: k != key ==> Lookup(Remove(ix, key, id), k) == Lookup(ix, k)
    ensures Lookup(Remove(ix, key, id), key) == Without(Lookup(ix, key), id)
  {
  }

  /** Both operations keep every list non-empty and free of duplicates. */
  lemma StaysTidy(ix: Indexes, key: string, id: string)
    requires Tidy(ix)
    ensures Tidy(Add(ix, key, id)) && Tidy(Remove(ix, key, id))
  {
    if key in ix {
      WithoutKeepsDistinct(ix[key], id);
    }
  }

  /** A removal is undone by nothing but an addition: doing it again changes nothing. */
  lemma RemoveTwice(ix: Indexes, key: string, id: string)
    requires Tidy(ix)
    ensures Remove(Remove(ix, key, id), key, id) == Remove(ix, key, id)
  {
    StaysTidy(ix, key, id);
    if key in Remove(ix, key, id) {
      WithoutAbsent(Remove(ix, key, id)[key], id);
    }
  }

  lemma RemoveCommutes(ix: Indexes, k: string, l: string, id: string)
    ensures Remove(Remove(ix, k, id), l, id) == Remove(Remove(ix, l, id), k, id)
  {
  }
}

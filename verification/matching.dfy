/** Nearest-neighbour lookup in the gallery: one distance per stored
    embedding, `distances.index(min(distances))`, then the name at that index.
    Distances are reals, standing for the non-NaN floats `torch.dist` returns;
    the embedding type and the distance function are parameters. */
module Matching {
  import opened Wrappers

  /** The pre-computed gallery: embeddings and the names they belong to,
      meant to be index-aligned. */
  datatype Gallery<E> = Gallery(embeddings: seq<E>, names: seq<string>)

  /** The loader's invariant: one name per embedding. */
  predicate Aligned<E>(g: Gallery<E>)
  {
    |g.embeddings| == |g.names|
  }

  /** i is the first index holding the least distance: no distance is
      smaller, and every earlier distance is strictly larger. */
  predicate IsFirstMin(ds: seq<real>, i: nat)
  {
    && i < |ds|
    && (forall k :: 0 <= k < |ds| ==> ds[i] <= ds[k])
    && (forall k :: 0 <= k < i ==> ds[i] < ds[k])
  }

  /** `min(ds)` on a non-empty list: a member of ds no larger than any member. */
  function Min(ds: seq<real>): (m: real)
    requires |ds| > 0
    ensures m in ds
    ensures forall k :: 0 <= k < |ds| ==> m <= ds[k]
  {
    if |ds| == 1 then ds[0]
    else
      var rest := Min(ds[1..]);
      if ds[0] <= rest then ds[0] else rest
  }

  /** `ds.index(x)`: the first position holding x, or None where Python
      raises ValueError. */
  function IndexOf(ds: seq<real>, x: real): (r: Option<nat>)
    ensures r.None? <==> x !in ds
    ensures r.Some? ==> r.value < |ds| && ds[r.value] == x && x !in ds[..r.value]
  {
    if |ds| == 0 then None
    else if ds[0] == x then Some(0)
    else
      match IndexOf(ds[1..], x)
      case None => None
      case Some(i) =>
        assert ds[..i + 1] == [ds[0]] + ds[1..][..i];
        Some(i + 1)
  }

  /** `distances.index(min(distances))`, with the ValueError that `min`
      raises on an empty list as None. The result is exactly the first index
      of the least distance. */
  function NearestIndex(ds: seq<real>): (r: Option<nat>)
    ensures r.None? <==> |ds| == 0
    ensures forall i: nat :: r == Some(i) <==> IsFirstMin(ds, i)
  {
    if |ds| == 0 then None
    else
      var r := IndexOf(ds, Min(ds));
      FirstMinUnique(ds, r.value);
      r
  }

  /** An index holding the least value, with no earlier occurrence of that
      value, is the first index of the minimum, and no other index is. */
  lemma FirstMinUnique(ds: seq<real>, i: nat)
    requires i < |ds|
    requires forall k :: 0 <= k < |ds| ==> ds[i] <= ds[k]
    requires ds[i] !in ds[..i]
    ensures forall j: nat :: IsFirstMin(ds, j) <==> j == i
  {
    forall k | 0 <= k < i
      ensures ds[i] < ds[k]
    {
      assert ds[k] == ds[..i][k];
    }
  }

  /** The distance from the query to each gallery embedding, in gallery order. */
  function Distances<E>(query: E, embeddings: seq<E>, dist: (E, E) -> real): (ds: seq<real>)
    ensures |ds| == |embeddings|
    ensures forall k :: 0 <= k < |ds| ==> ds[k] == dist(query, embeddings[k])
  {
    seq(|embeddings|, k requires 0 <= k < |embeddings| => dist(query, embeddings[k]))
  }

  /** Lines 68-72 of the recognition stage inside its `except` clause: the
      name at the first nearest embedding. An empty gallery makes `min` raise,
      and a name list too short for the chosen index makes the subscript
      raise; both end in None. */
  function MatchName<E>(query: E, g: Gallery<E>, dist: (E, E) -> real): (r: Option<string>)
    ensures |g.embeddings| == 0 ==> r == None
    ensures forall i: nat :: IsFirstMin(Distances(query, g.embeddings, dist), i) ==>
              r == (if i < |g.names| then Some(g.names[i]) else None)
  {
    match NearestIndex(Distances(query, g.embeddings, dist))
    case None => None
    case Some(i) => if i < |g.names| then Some(g.names[i]) else None
  }

  /** With an aligned, non-empty gallery a name is always found, and it is
      one of the gallery's names: there is no distance threshold. */
  lemma AlignedGalleryAlwaysNames<E>(query: E, g: Gallery<E>, dist: (E, E) -> real)
    requires Aligned(g) && |g.embeddings| > 0
    ensures MatchName(query, g, dist).Some?
    ensures MatchName(query, g, dist).value in g.names
  {
    var ds := Distances(query, g.embeddings, dist);
    var i := NearestIndex(ds).value;
    assert IsFirstMin(ds, i);
  }

  /** Of two indices at the same least distance, the later one is never
      chosen, and the one chosen is no later than the earlier one. */
  lemma TieGoesToLowerIndex(ds: seq<real>, i: nat, j: nat)
    requires i < j < |ds|
    requires ds[i] == ds[j]
    requires forall k :: 0 <= k < |ds| ==> ds[i] <= ds[k]
    ensures NearestIndex(ds).Some?
    ensures NearestIndex(ds).value <= i
  {
    var r := NearestIndex(ds).value;
    assert IsFirstMin(ds, r);
  }

  /** A query equal to exactly one gallery embedding, under a distance that
      is zero exactly on equal arguments and never negative, is matched to
      that embedding's name. */
  lemma ExactEmbeddingIsMatched<E>(query: E, g: Gallery<E>, dist: (E, E) -> real, k: nat)
    requires forall a: E, b: E :: dist(a, b) >= 0.0
    requires forall a: E, b: E :: dist(a, b) == 0.0 <==> a == b
    requires k < |g.embeddings| && k < |g.names|
    requires g.embeddings[k] == query
    requires forall j :: 0 <= j < |g.embeddings| && j != k ==> g.embeddings[j] != query
    ensures MatchName(query, g, dist) == Some(g.names[k])
  {
    var ds := Distances(query, g.embeddings, dist);
    assert ds[k] == 0.0;
    forall j | 0 <= j < |ds| && j != k
      ensures ds[k] < ds[j]
    {
      assert ds[j] == dist(query, g.embeddings[j]);
    }
    assert IsFirstMin(ds, k);
  }
}

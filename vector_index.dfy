/** The vector side of the store as a value: the identity registry `pdfs_vec`
    (unit key to `vec_id`) and the vector table `pdfs_virtual` (`vec_id` to a
    FLOAT32[512] embedding and an isImage flag), the transaction that
    `saveEmbeddings` runs over them, and what a ranking returned by `search`
    must satisfy (app/utils/sqliteUtils.ts). */
module VectorIndex {
  import opened Types

  /** Declared width of the `embedding` column of `pdfs_virtual`. */
  const EmbeddingDim: nat := 512
  /** Subtracted from the distance of every image vector before ranking. */
  const ImgBias: real := 7.1
  /** LIMIT of the ranking query. */
  const SearchLimit: nat := 30

  /** The UNIQUE triple of `pdfs_vec`. A negative lineNumber denotes an image. */
  datatype UnitKey = UnitKey(pdfId: string, pageNumber: int, lineNumber: int)

  datatype StoredVector = StoredVector(embedding: seq<real>, isImage: bool)

  /** One row of the ranking query: the vector's id and its adjusted distance. */
  datatype Hit = Hit(id: int, distance: real)

  /** `keys` is `pdfs_vec`, `vectors` is `pdfs_virtual`, `nextId` the rowid that
      SQLite gives the next row of `pdfs_vec` (the largest id plus one: nothing
      ever deletes from that table). */
  datatype VecIndex = VecIndex(keys: map<UnitKey, int>, vectors: map<int, StoredVector>, nextId: int) {

    /** Some key is registered with handle `id`. */
    ghost predicate Owned(id: int) {
      exists k :: k in keys && keys[k] == id
    }

    /** The registry is injective (the UNIQUE constraint and the primary key
        together), ids are exactly 1 .. nextId-1, every registered id has exactly
        one vector, whose isImage flag is the sign of the key's line number, and
        every stored vector has the declared width. */
    ghost predicate Valid() {
      && 1 <= nextId
      && (forall id :: id in vectors <==> 1 <= id < nextId)
      && (forall k :: k in keys ==> keys[k] in vectors && vectors[keys[k]].isImage == (k.lineNumber < 0))
      && (forall k1, k2 :: k1 in keys && k2 in keys && keys[k1] == keys[k2] ==> k1 == k2)
      && (forall id :: id in vectors ==> Owned(id) && |vectors[id].embedding| == EmbeddingDim)
    }

    /** The key registered for `id`; unique when the registry is valid. */
    ghost function KeyOf(id: int): (k: UnitKey)
      requires Owned(id)
      ensures k in keys && keys[k] == id
      ensures Valid() ==> forall k' :: k' in keys && keys[k'] == id ==> k' == k
    {
      var k :| k in keys && keys[k] == id; k
    }

    /** The transaction of `saveEmbeddings`: a registered key returns its handle
        and changes nothing (the new embedding is ignored); a new key gets the
        next rowid and its vector, flagged as an image iff its line number is
        negative; a vector of the wrong width makes the vector insert throw and
        the transaction roll back the key insert with it. */
    function Save(key: UnitKey, embedding: seq<real>): (r: (VecIndex, Result<int>))
      ensures Valid() ==> r.0.Valid()
      ensures r.1.Failure? <==> key !in keys && |embedding| != EmbeddingDim
      ensures r.1.Failure? ==> r.0 == this
      ensures key in keys ==> r == (this, Success(keys[key]))
      ensures r.1.Success? ==> key in r.0.keys && r.0.keys[key] == r.1.value
      ensures forall k :: k in keys ==> k in r.0.keys && r.0.keys[k] == keys[k]
      ensures forall k :: k in r.0.keys ==> k in keys || k == key
    {
      if key in keys then
        (this, Success(keys[key]))
      else if |embedding| != EmbeddingDim then
        (this, Failure(DimensionMismatch))
      else
        var after := VecIndex(keys[key := nextId],
                              vectors[nextId := StoredVector(embedding, key.lineNumber < 0)],
                              nextId + 1);
        assert Valid() ==> after.Valid() by {
          if Valid() {
            forall id | id in after.vectors ensures after.Owned(id) {
              if id == nextId {
                assert after.keys[key] == id;
              } else {
                var k :| k in keys && keys[k] == id;
                assert k != key && after.keys[k] == id;
              }
            }
          }
        }
        (after, Success(nextId))
    }
  }

  function EmptyIndex(): (ix: VecIndex)
    ensures ix.Valid()
  {
    VecIndex(map[], map[], 1)
  }

  /** The handle a successful save returns is the one registered for its key. */
  lemma SaveThenKeyOf(ix: VecIndex, key: UnitKey, embedding: seq<real>)
    requires ix.Valid()
    requires ix.Save(key, embedding).1.Success?
    ensures var (after, r) := ix.Save(key, embedding);
            after.Owned(r.value) && after.KeyOf(r.value) == key
  {
    var (after, r) := ix.Save(key, embedding);
    assert after.keys[key] == r.value;
  }

  /** Registering a new key allocates exactly one handle, unused until then,
      and exactly one vector; nothing already stored changes. */
  lemma SaveNewKey(ix: VecIndex, key: UnitKey, embedding: seq<real>)
    requires ix.Valid()
    requires key !in ix.keys && |embedding| == EmbeddingDim
    ensures var (after, r) := ix.Save(key, embedding);
            && r.Success?
            && r.value !in ix.vectors
            && !ix.Owned(r.value)
            && after.keys.Keys == ix.keys.Keys + {key}
            && after.vectors.Keys == ix.vectors.Keys + {r.value}
            && after.vectors[r.value] == StoredVector(embedding, key.lineNumber < 0)
            && (forall id :: id in ix.vectors ==> after.vectors[id] == ix.vectors[id])
  {
  }

  /** Saving a key that is already registered, whenever it was registered and
      with any embedding, returns its handle and leaves both tables as they
      were; in particular a second save of the same unit changes nothing. */
  lemma SaveIdempotent(ix: VecIndex, key: UnitKey, first: seq<real>, again: seq<real>)
    ensures key in ix.keys ==> ix.Save(key, again) == (ix, Success(ix.keys[key]))
    ensures var (after, r) := ix.Save(key, first);
            r.Success? ==> after.Save(key, again) == (after, r)
  {
  }

  /** Raw vector distance minus the image bias. */
  function Adjusted(l2: (seq<real>, seq<real>) -> real, query: seq<real>, v: StoredVector): (d: real)
    ensures d <= l2(query, v.embedding)
    ensures d == l2(query, v.embedding) <==> !v.isImage
  {
    l2(query, v.embedding) - (if v.isImage then ImgBias else 0.0)
  }

  function Ids(hits: seq<Hit>): set<int> {
    set i | 0 <= i < |hits| :: hits[i].id
  }

  function RankingLength(ix: VecIndex): nat {
    if |ix.vectors| < SearchLimit then |ix.vectors| else SearchLimit
  }

  /** What `ORDER BY distance ASC LIMIT 30` returns: min(30, stored) distinct
      stored ids with their adjusted distances, ascending, and no stored vector
      left out is closer than any returned one. Ties are left in any order. */
  ghost predicate IsRanking(ix: VecIndex, l2: (seq<real>, seq<real>) -> real, query: seq<real>, hits: seq<Hit>): (b: bool)
    ensures b ==> |hits| <= SearchLimit && |hits| <= |ix.vectors|
  {
    && |hits| == RankingLength(ix)
    && (forall i :: 0 <= i < |hits| ==> hits[i].id in ix.vectors && hits[i].distance == Adjusted(l2, query, ix.vectors[hits[i].id]))
    && (forall i, j :: 0 <= i < j < |hits| ==> hits[i].id != hits[j].id)
    && (forall i, j :: 0 <= i < j < |hits| ==> hits[i].distance <= hits[j].distance)
    && (forall id, i :: id in ix.vectors && id !in Ids(hits) && 0 <= i < |hits| ==> hits[i].distance <= Adjusted(l2, query, ix.vectors[id]))
  }

  /** The state of a selection that has taken `hits` and still has `remaining`
      to rank: every stored id is in exactly one of the two, the hits are a
      sorted prefix of distinct ids, and nothing remaining is closer than a hit. */
  ghost predicate PartialRanking(ix: VecIndex, l2: (seq<real>, seq<real>) -> real, query: seq<real>, hits: seq<Hit>, remaining: set<int>) {
    && remaining <= ix.vectors.Keys
    && |hits| + |remaining| == |ix.vectors|
    && (forall i :: 0 <= i < |hits| ==> hits[i].id in ix.vectors && hits[i].id !in remaining)
    && (forall i :: 0 <= i < |hits| ==> hits[i].distance == Adjusted(l2, query, ix.vectors[hits[i].id]))
    && (forall id :: id in ix.vectors && id !in remaining ==> id in Ids(hits))
    && (forall i, j :: 0 <= i < j < |hits| ==> hits[i].id != hits[j].id)
    && (forall i, j :: 0 <= i < j < |hits| ==> hits[i].distance <= hits[j].distance)
    && (forall id, i :: id in remaining && 0 <= i < |hits| ==> hits[i].distance <= Adjusted(l2, query, ix.vectors[id]))
  }

  lemma PartialRankingStart(ix: VecIndex, l2: (seq<real>, seq<real>) -> real, query: seq<real>)
    ensures PartialRanking(ix, l2, query, [], ix.vectors.Keys)
  {
  }

  /** Taking a closest remaining id keeps the selection a sorted prefix. */
  lemma PartialRankingStep(ix: VecIndex, l2: (seq<real>, seq<real>) -> real, query: seq<real>, hits: seq<Hit>, remaining: set<int>, best: int)
    requires PartialRanking(ix, l2, query, hits, remaining)
    requires best in remaining
    requires forall c :: c in remaining ==> Adjusted(l2, query, ix.vectors[best]) <= Adjusted(l2, query, ix.vectors[c])
    ensures PartialRanking(ix, l2, query, hits + [Hit(best, Adjusted(l2, query, ix.vectors[best]))], remaining - {best})
  {
    var d := Adjusted(l2, query, ix.vectors[best]);
    AppendCovers(ix.vectors.Keys, hits, remaining, Hit(best, d));
    AppendDistinct(hits, Hit(best, d));
    AppendSorted(hits, Hit(best, d));
    AppendBelowRemaining(ix, l2, query, hits, remaining, best);
  }

  /** After taking a closest remaining id, no id still remaining is closer than
      any hit. */
  lemma AppendBelowRemaining(ix: VecIndex, l2: (seq<real>, seq<real>) -> real, query: seq<real>, hits: seq<Hit>, remaining: set<int>, best: int)
    requires remaining <= ix.vectors.Keys && best in remaining
    requires forall id, i :: id in remaining && 0 <= i < |hits| ==> hits[i].distance <= Adjusted(l2, query, ix.vectors[id])
    requires forall c :: c in remaining ==> Adjusted(l2, query, ix.vectors[best]) <= Adjusted(l2, query, ix.vectors[c])
    ensures var hits' := hits + [Hit(best, Adjusted(l2, query, ix.vectors[best]))];
      forall id, i :: id in remaining - {best} && 0 <= i < |hits'| ==> hits'[i].distance <= Adjusted(l2, query, ix.vectors[id])
  {
    var hits' := hits + [Hit(best, Adjusted(l2, query, ix.vectors[best]))];
    forall id, i | id in remaining - {best} && 0 <= i < |hits'|
      ensures hits'[i].distance <= Adjusted(l2, query, ix.vectors[id])
    {
      if i < |hits| {
        assert hits'[i] == hits[i];
      }
    }
  }

  /** Appending a hit for `best` moves it from the remaining ids to the hits. */
  lemma AppendCovers(stored: set<int>, hits: seq<Hit>, remaining: set<int>, h: Hit)
    requires forall id :: id in stored && id !in remaining ==> id in Ids(hits)
    ensures forall id :: id in stored && id !in remaining - {h.id} ==> id in Ids(hits + [h])
  {
    var hits' := hits + [h];
    forall id | id in stored && id !in remaining - {h.id} ensures id in Ids(hits') {
      if id == h.id {
        assert hits'[|hits|].id == id;
      } else {
        var i :| 0 <= i < |hits| && hits[i].id == id;
        assert hits'[i].id == id;
      }
    }
  }

  /** Appending an id not yet taken keeps the ids distinct. */
  lemma AppendDistinct(hits: seq<Hit>, h: Hit)
    requires forall i, j :: 0 <= i < j < |hits| ==> hits[i].id != hits[j].id
    requires forall i :: 0 <= i < |hits| ==> hits[i].id != h.id
    ensures forall i, j :: 0 <= i < j < |hits + [h]| ==> (hits + [h])[i].id != (hits + [h])[j].id
  {
  }

  /** Appending a distance no smaller than any taken keeps the hits ascending. */
  lemma AppendSorted(hits: seq<Hit>, h: Hit)
    requires forall i, j :: 0 <= i < j < |hits| ==> hits[i].distance <= hits[j].distance
    requires forall i :: 0 <= i < |hits| ==> hits[i].distance <= h.distance
    ensures forall i, j :: 0 <= i < j < |hits + [h]| ==> (hits + [h])[i].distance <= (hits + [h])[j].distance
  {
  }

  /** A selection stopped after SearchLimit hits, or with nothing left, is a
      ranking. */
  lemma PartialRankingDone(ix: VecIndex, l2: (seq<real>, seq<real>) -> real, query: seq<real>, hits: seq<Hit>, remaining: set<int>)
    requires PartialRanking(ix, l2, query, hits, remaining)
    requires |hits| <= SearchLimit
    requires |hits| == SearchLimit || remaining == {}
    ensures IsRanking(ix, l2, query, hits)
  {
  }

  /** An empty store ranks nothing. */
  lemma EmptyRanking(l2: (seq<real>, seq<real>) -> real, query: seq<real>, hits: seq<Hit>)
    ensures IsRanking(EmptyIndex(), l2, query, hits) <==> hits == []
  {
  }

  /** An image at the same raw distance as a text unit scores exactly ImgBias
      lower, so wherever a ranking holds the text unit it holds the image
      earlier. */
  lemma ImageRanksAhead(ix: VecIndex, l2: (seq<real>, seq<real>) -> real, query: seq<real>, hits: seq<Hit>, img: int, txt: int)
    requires IsRanking(ix, l2, query, hits)
    requires img in ix.vectors && txt in ix.vectors
    requires ix.vectors[img].isImage && !ix.vectors[txt].isImage
    requires l2(query, ix.vectors[img].embedding) == l2(query, ix.vectors[txt].embedding)
    ensures Adjusted(l2, query, ix.vectors[img]) == Adjusted(l2, query, ix.vectors[txt]) - ImgBias
    ensures forall j :: 0 <= j < |hits| && hits[j].id == txt ==> exists i :: 0 <= i < j && hits[i].id == img
  {
    var dImg := Adjusted(l2, query, ix.vectors[img]);
    forall j | 0 <= j < |hits| && hits[j].id == txt
      ensures exists i :: 0 <= i < j && hits[i].id == img
    {
      if img !in Ids(hits) {
        assert false;
      }
      var i :| 0 <= i < |hits| && hits[i].id == img;
      if j < i {
        assert false;
      }
      assert i != j;
    }
  }

  /** The ranking is determined up to the order of ties: any two rankings of
      the same store and query have the same distance at every position. */
  lemma RankingsAgree(ix: VecIndex, l2: (seq<real>, seq<real>) -> real, query: seq<real>, a: seq<Hit>, b: seq<Hit>)
    requires IsRanking(ix, l2, query, a) && IsRanking(ix, l2, query, b)
    ensures forall i :: 0 <= i < |a| ==> a[i].distance == b[i].distance
  {
    forall i | 0 <= i < |a| ensures a[i].distance == b[i].distance {
      NotCloser(ix, l2, query, a, b, i);
      NotCloser(ix, l2, query, b, a, i);
    }
  }

  /** Position i of one ranking is never strictly closer than position i of
      another: otherwise the i+1 ids at a[0..i] would all have to sit among the
      i positions b[0..i-1]. */
  lemma NotCloser(ix: VecIndex, l2: (seq<real>, seq<real>) -> real, query: seq<real>, a: seq<Hit>, b: seq<Hit>, i: nat)
    requires IsRanking(ix, l2, query, a) && IsRanking(ix, l2, query, b)
    requires i < |a|
    ensures b[i].distance <= a[i].distance
  {
    if a[i].distance < b[i].distance {
      var front := set j | 0 <= j < i + 1 :: a[j].id;
      var room := set j | 0 <= j < i :: b[j].id;
      forall x | x in front ensures x in room {
        var j :| 0 <= j < i + 1 && a[j].id == x;
        var m := EarlierInOther(ix, l2, query, a, b, i, j);
        assert b[m].id == x;
      }
      SubsetCard(front, room);
      DistinctIdsCount(a, i + 1);
      IdsCountAtMost(b, i);
      assert false;
    }
  }

  /** Under the same assumption, each of a[0..i] appears in b before position i. */
  lemma EarlierInOther(ix: VecIndex, l2: (seq<real>, seq<real>) -> real, query: seq<real>, a: seq<Hit>, b: seq<Hit>, i: nat, j: nat)
    returns (m: nat)
    requires IsRanking(ix, l2, query, a) && IsRanking(ix, l2, query, b)
    requires j <= i < |a| && a[i].distance < b[i].distance
    ensures m < i && b[m].id == a[j].id
  {
    var x := a[j].id;
    var d := Adjusted(l2, query, ix.vectors[x]);
    assert d == a[j].distance <= a[i].distance;
    if x !in Ids(b) {
      assert false;
    }
    var k :| 0 <= k < |b| && b[k].id == x;
    if i <= k {
      assert false;
    }
    m := k;
  }

  lemma DistinctIdsCount(hits: seq<Hit>, n: nat)
    requires n <= |hits|
    requires forall i, j :: 0 <= i < j < |hits| ==> hits[i].id != hits[j].id
    ensures |set j | 0 <= j < n :: hits[j].id| == n
  {
    if n > 0 {
      DistinctIdsCount(hits, n - 1);
      var smaller := set j | 0 <= j < n - 1 :: hits[j].id;
      assert (set j | 0 <= j < n :: hits[j].id) == smaller + {hits[n - 1].id};
      assert hits[n - 1].id !in smaller;
    }
  }

  lemma IdsCountAtMost(hits: seq<Hit>, n: nat)
    requires n <= |hits|
    ensures |set j | 0 <= j < n :: hits[j].id| <= n
  {
    if n > 0 {
      IdsCountAtMost(hits, n - 1);
      var smaller := set j | 0 <= j < n - 1 :: hits[j].id;
      assert (set j | 0 <= j < n :: hits[j].id) == smaller + {hits[n - 1].id};
    }
  }

  lemma SubsetCard(small: set<int>, big: set<int>)
    requires small <= big
    ensures |small| <= |big|
  {
    assert big == small + (big - small);
  }
}

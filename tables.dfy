/** The two tables behind the monuments service (a monument table and a photo
    table whose rows point at their monument), and the pure operations that
    the service's store calls stand for: selecting the photos of a monument,
    deleting them (`deleteMany`), inserting a list of them (`createMany`),
    ordering the table by id and cutting one page out of it (`skip`/`take`). */
module Tables {
  import opened Wrappers

  /** Latitude and longitude are only stored and returned, never computed
      with, so any type with equality serves. */
  type Coordinate = int

  /** A row of the monument table. */
  datatype Monument = Monument(
    id: int,
    name: string,
    description: Option<string>,
    latitude: Coordinate,
    longitude: Coordinate)

  /** A row of the photo table; `monumentId` is the foreign key to its owner. */
  datatype Photo = Photo(id: int, url: string, monumentId: int)

  /** A monument row with its photo rows attached (`include: { photos: true }`). */
  datatype MonumentWithPhotos = MonumentWithPhotos(monument: Monument, photos: seq<Photo>)

  /** The store's error when `update` or `delete` finds no row with the id. */
  datatype StoreError = RecordNotFound

  /** The body of a create request. `photos` holds the url of each
      `{ url }` entry; `None` when the field is absent. */
  datatype NewMonument = NewMonument(
    name: string,
    description: Option<string>,
    latitude: Coordinate,
    longitude: Coordinate,
    photos: Option<seq<string>>)

  /** The body of an update request: every field may be absent (`None`). */
  datatype MonumentUpdate = MonumentUpdate(
    name: Option<string>,
    description: Option<string>,
    latitude: Option<Coordinate>,
    longitude: Option<Coordinate>,
    photos: Option<seq<string>>)

  // ---------------------------------------------------------------------------
  // Scalar update of one monument row

  /** The row after `update` with `data`: a field given in `data` replaces the
      stored one, an absent field (`undefined`) leaves it as it was. */
  function ApplyUpdate(row: Monument, data: MonumentUpdate): (r: Monument)
    ensures r.id == row.id
    ensures r.name == (if data.name.Some? then data.name.value else row.name)
    ensures r.description == (if data.description.Some? then data.description else row.description)
    ensures r.latitude == (if data.latitude.Some? then data.latitude.value else row.latitude)
    ensures r.longitude == (if data.longitude.Some? then data.longitude.value else row.longitude)
  {
    Monument(
      row.id,
      data.name.GetOr(row.name),
      if data.description.Some? then data.description else row.description,
      data.latitude.GetOr(row.latitude),
      data.longitude.GetOr(row.longitude))
  }

  /** An update that supplies no scalar field leaves the row as it was. */
  lemma EmptyUpdateKeepsRow(row: Monument, photos: Option<seq<string>>)
    ensures ApplyUpdate(row, MonumentUpdate(None, None, None, None, photos)) == row
  {
  }

  /** Sending the same update twice gives the row that sending it once gives. */
  lemma ApplyUpdateIdempotent(row: Monument, data: MonumentUpdate)
    ensures ApplyUpdate(ApplyUpdate(row, data), data) == ApplyUpdate(row, data)
  {
  }

  // ---------------------------------------------------------------------------
  // The photo table

  /** The urls of a list of photo rows, in order. */
  function Urls(ps: seq<Photo>): (r: seq<string>)
    ensures |r| == |ps|
    ensures forall i :: 0 <= i < |ps| ==> r[i] == ps[i].url
  {
    if ps == [] then [] else [ps[0].url] + Urls(ps[1..])
  }

  /** The photos owned by monument `owner`, in table order. */
  function PhotosOf(ps: seq<Photo>, owner: int): (r: seq<Photo>)
    ensures |r| <= |ps|
    ensures forall p :: p in r <==> p in ps && p.monumentId == owner
  {
    if ps == [] then []
    else if ps[0].monumentId == owner then [ps[0]] + PhotosOf(ps[1..], owner)
    else PhotosOf(ps[1..], owner)
  }

  /** The table after `deleteMany({ where: { monumentId: owner } })`. */
  function WithoutPhotosOf(ps: seq<Photo>, owner: int): (r: seq<Photo>)
    ensures |r| <= |ps|
    ensures forall p :: p in r <==> p in ps && p.monumentId != owner
  {
    if ps == [] then []
    else if ps[0].monumentId != owner then [ps[0]] + WithoutPhotosOf(ps[1..], owner)
    else WithoutPhotosOf(ps[1..], owner)
  }

  /** The rows `createMany` inserts for `urls`, owned by `owner`, numbered
      from `firstId` on. */
  function NewPhotos(urls: seq<string>, owner: int, firstId: int): (r: seq<Photo>)
    ensures Urls(r) == urls
    ensures forall p :: p in r ==> p.monumentId == owner && firstId <= p.id < firstId + |urls|
    ensures forall i, j :: 0 <= i < j < |r| ==> r[i].id < r[j].id
  {
    if urls == [] then []
    else [Photo(firstId, urls[0], owner)] + NewPhotos(urls[1..], owner, firstId + 1)
  }

  /** Photo ids are strictly increasing in table order, positive and below
      the next id the store hands out. */
  ghost predicate WellNumbered(ps: seq<Photo>, next: int)
  {
    && (forall i, j :: 0 <= i < j < |ps| ==> ps[i].id < ps[j].id)
    && (forall p :: p in ps ==> 0 < p.id < next)
  }

  /** Selecting the photos of one owner distributes over concatenation. */
  lemma {:induction false} PhotosOfAppend(a: seq<Photo>, b: seq<Photo>, owner: int)
    ensures PhotosOf(a + b, owner) == PhotosOf(a, owner) + PhotosOf(b, owner)
  {
    if a == [] {
      assert a + b == b;
    } else {
      assert (a + b)[1..] == a[1..] + b;
      PhotosOfAppend(a[1..], b, owner);
    }
  }

  /** A monument that owns no row has no photos. */
  lemma {:induction false} NoPhotosOf(ps: seq<Photo>, owner: int)
    requires forall p :: p in ps ==> p.monumentId != owner
    ensures PhotosOf(ps, owner) == []
  {
    if ps != [] {
      assert ps[0] in ps;
      NoPhotosOf(ps[1..], owner);
    }
  }

  /** Deleting the photos of a monument that owns none changes nothing. */
  lemma {:induction false} WithoutAbsentOwner(ps: seq<Photo>, owner: int)
    requires forall p :: p in ps ==> p.monumentId != owner
    ensures WithoutPhotosOf(ps, owner) == ps
  {
    if ps != [] {
      assert ps[0] in ps;
      WithoutAbsentOwner(ps[1..], owner);
      assert ps == [ps[0]] + ps[1..];
    }
  }

  /** Inserted rows belong to their owner alone. */
  lemma {:induction false} PhotosOfNew(urls: seq<string>, owner: int, firstId: int, o: int)
    ensures PhotosOf(NewPhotos(urls, owner, firstId), o)
         == if o == owner then NewPhotos(urls, owner, firstId) else []
  {
    if urls != [] {
      PhotosOfNew(urls[1..], owner, firstId + 1, o);
    }
  }

  /** After `deleteMany` for `owner`, `owner` has no photos and every other
      monument keeps exactly the photos it had. */
  lemma {:induction false} PhotosOfWithout(ps: seq<Photo>, owner: int, o: int)
    ensures PhotosOf(WithoutPhotosOf(ps, owner), o) == if o == owner then [] else PhotosOf(ps, o)
  {
    if ps != [] {
      PhotosOfWithout(ps[1..], owner, o);
    }
  }

  /** Photo replacement, the delete-then-insert of `update`: afterwards the
      photos of `owner` are exactly the rows inserted for the supplied urls,
      in order, none of them a row that was there before. */
  lemma ReplacePhotosOfOwner(ps: seq<Photo>, owner: int, urls: seq<string>, firstId: int)
    requires forall p :: p in ps ==> p.id < firstId
    ensures PhotosOf(WithoutPhotosOf(ps, owner) + NewPhotos(urls, owner, firstId), owner)
         == NewPhotos(urls, owner, firstId)
    ensures Urls(PhotosOf(WithoutPhotosOf(ps, owner) + NewPhotos(urls, owner, firstId), owner)) == urls
    ensures forall p :: p in PhotosOf(WithoutPhotosOf(ps, owner) + NewPhotos(urls, owner, firstId), owner)
                        ==> p !in ps
  {
    var kept, added := WithoutPhotosOf(ps, owner), NewPhotos(urls, owner, firstId);
    PhotosOfAppend(kept, added, owner);
    PhotosOfWithout(ps, owner, owner);
    PhotosOfNew(urls, owner, firstId, owner);
    assert PhotosOf(kept + added, owner) == [] + added;
  }

  /** Photo replacement leaves every other monument with exactly its photos. */
  lemma ReplacePhotosOfOthers(ps: seq<Photo>, owner: int, urls: seq<string>, firstId: int, o: int)
    requires o != owner
    ensures PhotosOf(WithoutPhotosOf(ps, owner) + NewPhotos(urls, owner, firstId), o) == PhotosOf(ps, o)
  {
    var kept, added := WithoutPhotosOf(ps, owner), NewPhotos(urls, owner, firstId);
    PhotosOfAppend(kept, added, o);
    PhotosOfWithout(ps, owner, o);
    PhotosOfNew(urls, owner, firstId, o);
    assert PhotosOf(kept + added, o) == PhotosOf(ps, o) + [];
  }

  /** Photo insertion for a monument that owned none, as `create` does: its
      photos are exactly the inserted rows, carrying the supplied urls. */
  lemma AddPhotosOfOwner(ps: seq<Photo>, owner: int, urls: seq<string>, firstId: int)
    requires forall p :: p in ps ==> p.monumentId != owner
    ensures PhotosOf(ps + NewPhotos(urls, owner, firstId), owner) == NewPhotos(urls, owner, firstId)
    ensures Urls(PhotosOf(ps + NewPhotos(urls, owner, firstId), owner)) == urls
  {
    var added := NewPhotos(urls, owner, firstId);
    PhotosOfAppend(ps, added, owner);
    NoPhotosOf(ps, owner);
    PhotosOfNew(urls, owner, firstId, owner);
    assert PhotosOf(ps + added, owner) == [] + added;
  }

  /** Inserting photos for one monument leaves every other monument with
      exactly its photos. */
  lemma AddPhotosOfOthers(ps: seq<Photo>, owner: int, urls: seq<string>, firstId: int, o: int)
    requires o != owner
    ensures PhotosOf(ps + NewPhotos(urls, owner, firstId), o) == PhotosOf(ps, o)
  {
    var added := NewPhotos(urls, owner, firstId);
    PhotosOfAppend(ps, added, o);
    PhotosOfNew(urls, owner, firstId, o);
    assert PhotosOf(ps + added, o) == PhotosOf(ps, o) + [];
  }

  /** `deleteMany` keeps the photo numbering intact. */
  lemma {:induction false} WithoutKeepsNumbering(ps: seq<Photo>, owner: int, next: int)
    requires WellNumbered(ps, next)
    ensures WellNumbered(WithoutPhotosOf(ps, owner), next)
  {
    if ps != [] {
      var rest := ps[1..];
      assert WellNumbered(rest, next) by {
        forall i, j | 0 <= i < j < |rest| ensures rest[i].id < rest[j].id {
          assert rest[i] == ps[i + 1] && rest[j] == ps[j + 1];
        }
      }
      WithoutKeepsNumbering(rest, owner, next);
      var r := WithoutPhotosOf(ps, owner);
      if ps[0].monumentId != owner {
        var tail := WithoutPhotosOf(rest, owner);
        assert r == [ps[0]] + tail;
        forall j | 0 < j < |r| ensures ps[0].id < r[j].id {
          assert r[j] == tail[j - 1];
          assert tail[j - 1] in rest;
          var k :| 0 <= k < |rest| && rest[k] == tail[j - 1];
          assert rest[k] == ps[k + 1];
        }
      }
    }
  }

  /** `createMany` numbering from the next free id keeps the numbering intact. */
  lemma AppendKeepsNumbering(ps: seq<Photo>, urls: seq<string>, owner: int, next: int)
    requires WellNumbered(ps, next) && 0 < next
    ensures WellNumbered(ps + NewPhotos(urls, owner, next), next + |urls|)
  {
  }

  // ---------------------------------------------------------------------------
  // Listing order and pagination

  /** The ids among `keys` that lie in `[0, n)`, in ascending order. */
  function IdsBelow(keys: set<int>, n: nat): (r: seq<int>)
    ensures forall i, j :: 0 <= i < j < |r| ==> r[i] < r[j]
    ensures forall i :: 0 <= i < |r| ==> 0 <= r[i] < n
    ensures forall k :: k in r <==> k in keys && 0 <= k < n
  {
    if n == 0 then []
    else IdsBelow(keys, n - 1) + (if n - 1 in keys then [n - 1] else [])
  }

  /** The ids among `keys` that lie in `[0, n)`, as a set. */
  ghost function KeysBelow(keys: set<int>, n: int): set<int>
  {
    set k | k in keys && 0 <= k < n
  }

  /** Widening the range by one id adds that id when it is a key. */
  lemma KeysBelowStep(keys: set<int>, n: nat)
    requires n > 0
    ensures |KeysBelow(keys, n)| == |KeysBelow(keys, n - 1)| + (if n - 1 in keys then 1 else 0)
  {
    var below, here := KeysBelow(keys, n - 1), KeysBelow(keys, n);
    if n - 1 in keys {
      assert here == below + {n - 1};
    } else {
      assert here == below;
    }
  }

  /** `IdsBelow` lists each id of its range exactly once. */
  lemma {:induction false} IdsBelowCount(keys: set<int>, n: nat)
    ensures |IdsBelow(keys, n)| == |KeysBelow(keys, n)|
  {
    if n == 0 {
      assert KeysBelow(keys, n) == {};
    } else {
      IdsBelowCount(keys, n - 1);
      KeysBelowStep(keys, n);
      assert |IdsBelow(keys, n)| == |IdsBelow(keys, n - 1)| + (if n - 1 in keys then 1 else 0);
    }
  }

  /** The rows that `skip: skip, take: take` selects: at most `take` rows,
      starting at position `skip`, none when `skip` is past the end. */
  function Slice<T>(rows: seq<T>, skip: nat, take: nat): (r: seq<T>)
    ensures |r| <= take
    ensures skip >= |rows| ==> r == []
    ensures skip < |rows| ==> |r| == if skip + take <= |rows| then take else |rows| - skip
    ensures forall k :: 0 <= k < |r| ==> skip + k < |rows| && r[k] == rows[skip + k]
  {
    if skip >= |rows| then []
    else if skip + take <= |rows| then rows[skip..skip + take]
    else rows[skip..]
  }

  /** The offset of page `page` when each page holds `limit` rows. */
  function PageStart(page: int, limit: int): (skip: nat)
    requires page >= 1 && limit >= 1
    ensures page == 1 <==> skip == 0
    ensures page > 1 ==> skip >= limit
  {
    MulAtLeast(page, limit);
    (page - 1) * limit
  }

  /** A slice of a strictly ascending sequence is strictly ascending. */
  lemma SliceAscending(rows: seq<int>, skip: nat, take: nat)
    requires forall i, j :: 0 <= i < j < |rows| ==> rows[i] < rows[j]
    ensures var r := Slice(rows, skip, take);
      forall i, j :: 0 <= i < j < |r| ==> r[i] < r[j]
  {
  }

  /** Two different pages of a strictly ascending sequence share no element. */
  lemma PagesDisjoint(rows: seq<int>, p: int, q: int, limit: int)
    requires p >= 1 && q >= 1 && p != q && limit >= 1
    requires forall i, j :: 0 <= i < j < |rows| ==> rows[i] < rows[j]
    ensures forall x :: x in Slice(rows, PageStart(p, limit), limit) ==> x !in Slice(rows, PageStart(q, limit), limit)
  {
    var sp, sq := PageStart(p, limit), PageStart(q, limit);
    var a, b := Slice(rows, sp, limit), Slice(rows, sq, limit);
    forall i, j | 0 <= i < |a| && 0 <= j < |b| ensures a[i] != b[j] {
      DifferentPagesDifferentOffsets(p, q, i, j, limit);
      assert a[i] == rows[sp + i] && b[j] == rows[sq + j];
      if sp + i < sq + j {
        assert rows[sp + i] < rows[sq + j];
      } else {
        assert rows[sq + j] < rows[sp + i];
      }
    }
  }

  /** Offsets on different pages differ: `(page - 1) * limit + k` with
      `k < limit` determines its page. */
  lemma DifferentPagesDifferentOffsets(p: int, q: int, i: int, j: int, limit: int)
    requires p >= 1 && q >= 1 && p != q && limit >= 1
    requires 0 <= i < limit && 0 <= j < limit
    ensures (p - 1) * limit + i != (q - 1) * limit + j
  {
    if p < q {
      PageStartsApart(p, q, limit);
    } else {
      PageStartsApart(q, p, limit);
    }
  }

  /** A later page starts at least one full page after an earlier one. */
  lemma PageStartsApart(p: int, q: int, limit: int)
    requires 1 <= p < q && limit >= 1
    ensures (p - 1) * limit + limit <= (q - 1) * limit
  {
    MulAtLeast(q - p, limit);
    assert (q - 1) * limit == (p - 1) * limit + (q - p) * limit;
  }

  /** A positive multiple of `limit` is at least `limit`. */
  lemma MulAtLeast(k: int, limit: int)
    requires k >= 1 && limit >= 1
    ensures k * limit >= limit
  {
  }

  /** Every row lies on the page its position names: position `i` is entry
      `i % limit` of page `i / limit + 1`. */
  lemma RowOnItsPage<T>(rows: seq<T>, i: int, limit: int)
    requires 0 <= i < |rows| && limit >= 1
    ensures var r := Slice(rows, PageStart(i / limit + 1, limit), limit);
      i % limit < |r| && r[i % limit] == rows[i]
  {
    var page := i / limit + 1;
    assert (page - 1) * limit == i / limit * limit;
    assert PageStart(page, limit) + i % limit == i;
  }
}

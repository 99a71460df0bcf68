/** The monuments service: paginated listing, creation, partial update with
    photo replacement, and removal with a hand-written photo cascade, over a
    store that holds the monument table, the photo table and the two id
    sequences the store hands out. */
module Monuments {
  import opened Wrappers
  import opened Tables

  class MonumentsService {
    /** The monument table, keyed by id. */
    var monuments: map<int, Monument>
    /** The photo table, in insertion order. */
    var photos: seq<Photo>
    /** The id the next inserted monument receives. */
    var nextId: nat
    /** The id the next inserted photo receives. */
    var nextPhotoId: int

    /** The store's invariant: every monument is filed under its own id, ids
        are positive and below the next id to hand out, every photo belongs
        to an existing monument, and photo ids are increasing and fresh. */
    ghost predicate Valid()
      reads this
    {
      && 0 < nextId && 0 < nextPhotoId
      && (forall id :: id in monuments ==> 0 < id < nextId && monuments[id].id == id)
      && (forall p :: p in photos ==> p.monumentId in monuments)
      && WellNumbered(photos, nextPhotoId)
    }

    /** An empty store; ids are handed out from 1 on. */
    constructor ()
      ensures Valid()
      ensures monuments == map[] && photos == []
    {
      monuments := map[];
      photos := [];
      nextId := 1;
      nextPhotoId := 1;
    }

    /** The ids of the monument table in ascending order, the order
        `orderBy: { id: 'asc' }` lists it in. */
    function TableOrder(): (ids: seq<int>)
      reads this
      requires Valid()
      ensures forall i, j :: 0 <= i < j < |ids| ==> ids[i] < ids[j]
      ensures forall id :: id in ids <==> id in monuments
      ensures |ids| == |monuments|
    {
      IdsBelowCount(monuments.Keys, nextId);
      assert KeysBelow(monuments.Keys, nextId) == monuments.Keys;
      IdsBelow(monuments.Keys, nextId)
    }

    /** The monument `id` with its photos attached, as the store returns it
        under `include: { photos: true }`. */
    function Attached(id: int): (m: MonumentWithPhotos)
      reads this
      requires id in monuments
      ensures m.monument == monuments[id]
      ensures forall p :: p in m.photos <==> p in photos && p.monumentId == id
    {
      MonumentWithPhotos(monuments[id], PhotosOf(photos, id))
    }

    // -------------------------------------------------------------------------
    // The store calls the service makes

    /** `monument.update({ where: { id }, data, include: { photos: true } })`:
        overwrites the supplied scalar fields of an existing row; fails on a
        missing id and then changes nothing. */
    method UpdateRow(id: int, data: MonumentUpdate) returns (r: Result<MonumentWithPhotos, StoreError>)
      requires Valid()
      modifies this
      ensures Valid()
      ensures photos == old(photos) && nextId == old(nextId) && nextPhotoId == old(nextPhotoId)
      ensures id !in old(monuments) ==> r == Failure(RecordNotFound) && monuments == old(monuments)
      ensures id in old(monuments) ==>
        && monuments == old(monuments)[id := ApplyUpdate(old(monuments)[id], data)]
        && r == Success(Attached(id))
    {
      if id !in monuments {
        return Failure(RecordNotFound);
      }
      monuments := monuments[id := ApplyUpdate(monuments[id], data)];
      r := Success(Attached(id));
    }

    /** `photo.deleteMany({ where: { monumentId: owner } })`. */
    method DeleteManyPhotos(owner: int)
      requires Valid()
      modifies this`photos
      ensures Valid()
      ensures photos == WithoutPhotosOf(old(photos), owner)
    {
      WithoutKeepsNumbering(photos, owner, nextPhotoId);
      photos := WithoutPhotosOf(photos, owner);
    }

    /** `photo.createMany` of one row per url, all owned by `owner`; the
        foreign key requires `owner` to exist. */
    method CreateManyPhotos(owner: int, urls: seq<string>)
      requires Valid() && owner in monuments
      modifies this`photos, this`nextPhotoId
      ensures Valid()
      ensures photos == old(photos) + NewPhotos(urls, owner, old(nextPhotoId))
      ensures nextPhotoId == old(nextPhotoId) + |urls|
    {
      AppendKeepsNumbering(photos, urls, owner, nextPhotoId);
      photos := photos + NewPhotos(urls, owner, nextPhotoId);
      nextPhotoId := nextPhotoId + |urls|;
    }

    /** `monument.findUnique({ where: { id }, include: { photos: true } })`:
        `None` stands for the `null` it gives on a missing id. */
    method FindUnique(id: int) returns (r: Option<MonumentWithPhotos>)
      requires Valid()
      ensures id in monuments ==> r == Some(Attached(id))
      ensures id !in monuments ==> r == None
    {
      r := if id in monuments then Some(Attached(id)) else None;
    }

    /** `monument.delete({ where: { id } })`: returns the deleted row; fails
        on a missing id and then changes nothing. The photos of `id` must be
        gone already, as the foreign key demands. */
    method DeleteRow(id: int) returns (r: Result<Monument, StoreError>)
      requires Valid()
      requires forall p :: p in photos ==> p.monumentId != id
      modifies this`monuments
      ensures Valid()
      ensures id in old(monuments) ==> r == Success(old(monuments)[id]) && monuments == old(monuments) - {id}
      ensures id !in old(monuments) ==> r == Failure(RecordNotFound) && monuments == old(monuments)
    {
      if id !in monuments {
        return Failure(RecordNotFound);
      }
      r := Success(monuments[id]);
      monuments := monuments - {id};
    }

    // -------------------------------------------------------------------------
    // The service's operations

    /** `findAll(page, limit)`: page `page` of the table in ascending id
        order, `limit` monuments to a page, each with exactly its own photos. */
    method FindAll(page: int, limit: int) returns (r: seq<MonumentWithPhotos>)
      requires Valid() && page >= 1 && limit >= 1
      ensures |r| <= limit
      ensures |r| == |Slice(TableOrder(), PageStart(page, limit), limit)|
      ensures forall k :: 0 <= k < |r| ==>
        && r[k].monument.id == Slice(TableOrder(), PageStart(page, limit), limit)[k]
        && r[k].monument.id in monuments
        && r[k] == Attached(r[k].monument.id)
      ensures forall i, j :: 0 <= i < j < |r| ==> r[i].monument.id < r[j].monument.id
      ensures PageStart(page, limit) >= |monuments| ==> r == []
    {
      var order := TableOrder();
      var skip := PageStart(page, limit);
      var ids := Slice(order, skip, limit);
      SliceAscending(order, skip, limit);
      var table, owned := monuments, photos;
      forall k | 0 <= k < |ids| ensures ids[k] in table && table[ids[k]].id == ids[k] {
        assert ids[k] in order;
      }
      r := seq(|ids|, k requires 0 <= k < |ids| => MonumentWithPhotos(table[ids[k]], PhotosOf(owned, ids[k])));
    }

    /** `create(data)`: inserts one monument with the given fields under a
        fresh id, and one photo per supplied url (none when `photos` is
        absent); nothing that was stored before changes. */
    method Create(data: NewMonument) returns (r: MonumentWithPhotos)
      requires Valid()
      modifies this
      ensures Valid()
      ensures r.monument.id !in old(monuments)
      ensures r.monument.id == old(nextId) && nextId == old(nextId) + 1
      ensures r.monument == Monument(r.monument.id, data.name, data.description, data.latitude, data.longitude)
      ensures monuments == old(monuments)[r.monument.id := r.monument]
      ensures Urls(r.photos) == if data.photos.Some? then data.photos.value else []
      ensures r == Attached(r.monument.id)
      ensures photos == old(photos) + r.photos
      ensures forall o :: o != r.monument.id ==> PhotosOf(photos, o) == PhotosOf(old(photos), o)
    {
      var id := nextId;
      var row := Monument(id, data.name, data.description, data.latitude, data.longitude);
      monuments := monuments[id := row];
      nextId := nextId + 1;
      var urls := if data.photos.Some? then data.photos.value else [];
      ghost var before := photos;
      assert forall p :: p in before ==> p.monumentId != id;
      AddPhotosOfOwner(before, id, urls, nextPhotoId);
      forall o | o != id
        ensures PhotosOf(before + NewPhotos(urls, id, nextPhotoId), o) == PhotosOf(before, o)
      {
        AddPhotosOfOthers(before, id, urls, nextPhotoId, o);
      }
      CreateManyPhotos(id, urls);
      r := Attached(id);
    }

    /** `update(id, data)`: overwrites the supplied scalar fields; when a
        photo list is supplied, even an empty one, deletes every photo of the
        monument and inserts one per supplied url. On a missing id the scalar
        update fails first and nothing changes. */
    method Update(id: int, data: MonumentUpdate) returns (r: Result<MonumentWithPhotos, StoreError>)
      requires Valid()
      modifies this
      ensures Valid()
      ensures nextId == old(nextId)
      ensures id !in old(monuments) ==>
        r == Failure(RecordNotFound) && monuments == old(monuments) && photos == old(photos)
      ensures id in old(monuments) ==>
        && monuments == old(monuments)[id := ApplyUpdate(old(monuments)[id], data)]
        && r == Success(Attached(id))
      ensures photos == if id in old(monuments) && data.photos.Some?
                        then WithoutPhotosOf(old(photos), id) + NewPhotos(data.photos.value, id, old(nextPhotoId))
                        else old(photos)
      ensures id in old(monuments) && data.photos.Some? ==>
        && Urls(PhotosOf(photos, id)) == data.photos.value
        && (forall p :: p in PhotosOf(photos, id) ==> p !in old(photos))
      ensures !(id in old(monuments) && data.photos.Some?) ==> nextPhotoId == old(nextPhotoId)
      ensures forall o :: o != id ==> PhotosOf(photos, o) == PhotosOf(old(photos), o)
    {
      var updated := UpdateRow(id, data);
      if updated.Failure? {
        return updated;
      }
      if data.photos.Some? {
        ghost var before := photos;
        ReplacePhotosOfOwner(before, id, data.photos.value, nextPhotoId);
        forall o | o != id
          ensures PhotosOf(WithoutPhotosOf(before, id) + NewPhotos(data.photos.value, id, nextPhotoId), o)
               == PhotosOf(before, o)
        {
          ReplacePhotosOfOthers(before, id, data.photos.value, nextPhotoId, o);
        }
        DeleteManyPhotos(id);
        CreateManyPhotos(id, data.photos.value);
        var found := FindUnique(id);
        return Success(found.value);
      }
      r := updated;
    }

    /** `remove(id)`: deletes every photo of the monument, then the monument,
        and returns the deleted row. On a missing id the photo deletion
        removes nothing and the monument delete fails. */
    method Remove(id: int) returns (r: Result<Monument, StoreError>)
      requires Valid()
      modifies this
      ensures Valid()
      ensures nextId == old(nextId) && nextPhotoId == old(nextPhotoId)
      ensures photos == WithoutPhotosOf(old(photos), id)
      ensures PhotosOf(photos, id) == []
      ensures id in old(monuments) ==> r == Success(old(monuments)[id]) && monuments == old(monuments) - {id}
      ensures id !in old(monuments) ==>
        r == Failure(RecordNotFound) && monuments == old(monuments) && photos == old(photos)
      ensures forall o :: o != id ==> PhotosOf(photos, o) == PhotosOf(old(photos), o)
    {
      if id !in monuments {
        WithoutAbsentOwner(photos, id);
      }
      forall o ensures PhotosOf(WithoutPhotosOf(photos, id), o) == if o == id then [] else PhotosOf(photos, o) {
        PhotosOfWithout(photos, id, o);
      }
      DeleteManyPhotos(id);
      r := DeleteRow(id);
    }
  }

  /** The create, replace, remove sequence of a single monument, as a client
      of the service sees it. */
  method CreateUpdateRemoveScenario()
  {
    var service := new MonumentsService();
    var other := service.Create(NewMonument("Neptune Fountain", Some("Long Market"), 543485, 186533, None));
    assert other.photos == [];
    var created := service.Create(NewMonument("Oak of Jan", None, 544108, 185604, Some(["a.jpg", "b.jpg"])));
    assert Urls(created.photos) == ["a.jpg", "b.jpg"];
    var id := created.monument.id;

    var updated := service.Update(id, MonumentUpdate(None, None, None, None, Some(["c.jpg"])));
    assert updated.Success? && Urls(updated.value.photos) == ["c.jpg"];
    assert updated.value.monument.name == "Oak of Jan";

    var removed := service.Remove(id);
    assert removed.Success?;
    var listed := service.FindAll(1, 10);
    assert forall k :: 0 <= k < |listed| ==> listed[k].monument.id != id;
    var again := service.Remove(id);
    assert again == Failure(RecordNotFound);
  }
}

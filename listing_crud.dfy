/** The listing store: look a listing up by id, create one, delete one. */
module ListingCrud {
  import opened Records

  /** The fourteen public fields of a stored listing, as a lookup returns them. */
  function Project(l: Listing): ListingStructure {
    ListingStructure(l.title, l.lister, l.bedroomsAvailable, l.totalRooms, l.bedroomsInUse,
                     l.bathrooms, l.costPerMonth, l.availableStartDate, l.availableEndDate,
                     l.address, l.city, l.state, l.zipCode, l.amenities)
  }

  /** The row that creation stores: every supplied field as given (no check
      relating bedrooms, rooms and bedrooms in use) and no coordinates. */
  function FromStructure(s: ListingStructure): (l: Listing)
    ensures Project(l) == s
    ensures l.latitude == None && l.longitude == None
  {
    Listing(s.title, s.lister, s.bedroomsAvailable, s.totalRooms, s.bedroomsInUse,
            s.bathrooms, s.costPerMonth, s.availableStartDate, s.availableEndDate,
            s.address, s.city, s.state, s.zipCode, s.amenities, None, None)
  }

  /** Lookup by id: nothing when no listing has that id, otherwise the
      fourteen fields of that listing. */
  function GetListingById(db: map<int, Listing>, listingId: int): (r: Option<ListingStructure>)
    ensures r == None <==> listingId !in db
    ensures r != None ==>
      var l := db[listingId];
      && r.value.title == l.title && r.value.lister == l.lister
      && r.value.bedroomsAvailable == l.bedroomsAvailable && r.value.totalRooms == l.totalRooms
      && r.value.bedroomsInUse == l.bedroomsInUse && r.value.bathrooms == l.bathrooms
      && r.value.costPerMonth == l.costPerMonth
      && r.value.availableStartDate == l.availableStartDate
      && r.value.availableEndDate == l.availableEndDate
      && r.value.address == l.address && r.value.city == l.city && r.value.state == l.state
      && r.value.zipCode == l.zipCode && r.value.amenities == l.amenities
  {
    if listingId in db then Some(Project(db[listingId])) else None
  }

  /** Storing a created listing under an unused id and then looking that id
      up gives back exactly the supplied fields, and every other lookup is as
      before. */
  lemma CreateThenGet(db: map<int, Listing>, newId: int, data: ListingStructure, other: int)
    requires newId !in db
    ensures GetListingById(db[newId := FromStructure(data)], newId) == Some(data)
    ensures other != newId ==>
      GetListingById(db[newId := FromStructure(data)], other) == GetListingById(db, other)
  {
  }

  /** What a successful delete returns: a message and the id deleted. */
  datatype Deleted = Deleted(message: string, listingId: int)

  /** The listings table. The database assigns ids from a counter, so a new
      id is above every id in use and an id is never handed out twice. */
  class ListingTable {
    var rows: map<int, Listing>
    var nextId: int

    ghost predicate Valid()
      reads this
    {
      forall id :: id in rows ==> id < nextId
    }

    constructor (initial: map<int, Listing>, firstFreeId: int)
      requires forall id :: id in initial ==> id < firstFreeId
      ensures Valid() && rows == initial && nextId == firstFreeId
    {
      rows := initial;
      nextId := firstFreeId;
    }

    /** create_listing: stores the supplied fields under a fresh id. */
    method CreateListing(data: ListingStructure) returns (id: int, created: Listing)
      requires Valid()
      modifies this
      ensures Valid()
      ensures id == old(nextId) && id !in old(rows) && nextId == old(nextId) + 1
      ensures created == FromStructure(data)
      ensures rows == old(rows)[id := created]
      ensures GetListingById(rows, id) == Some(data)
      ensures forall other :: other != id ==> GetListingById(rows, other) == GetListingById(old(rows), other)
    {
      id := nextId;
      created := FromStructure(data);
      CreateThenGet(rows, id, data, id);
      forall other | other != id
        ensures GetListingById(rows[id := created], other) == GetListingById(rows, other)
      {
        CreateThenGet(rows, id, data, other);
      }
      rows := rows[id := created];
      nextId := nextId + 1;
    }

    /** delete_listing: nothing happens and None comes back for an unknown
        id; otherwise exactly that listing is removed and a message carrying
        its id comes back. */
    method DeleteListing(listingId: int) returns (r: Option<Deleted>)
      requires Valid()
      modifies this
      ensures Valid() && nextId == old(nextId)
      ensures listingId !in old(rows) ==> r == None && rows == old(rows)
      ensures listingId in old(rows) ==>
        r == Some(Deleted("Deleted listing with ID:", listingId)) && rows == old(rows) - {listingId}
    {
      if listingId !in rows {
        return None;
      }
      rows := rows - {listingId};
      r := Some(Deleted("Deleted listing with ID:", listingId));
    }
  }
}

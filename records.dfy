/** Rows of the three tables: users, listings and booking_requests. Each
    table is a map from the integer primary key to the row, so rows do not
    repeat their own id. */
module Records {

  datatype Option<T> = None | Some(value: T)

  /** A non-empty set of ids has a member to pick, as a loop over the rows
      of a query result does. */
  lemma NonEmptyHasMember(s: set<int>)
    requires s != {}
    ensures exists x :: x in s
  {
    if forall x :: x !in s {
      assert false;
    }
  }

  /** A user account. `email` is unique across the table. */
  datatype User = User(name: string, email: string, passwordHash: string, school: Option<string>)

  /** The fourteen fields a client supplies for a listing, and the fourteen
      that a lookup by id hands back. Money is a real number, dates are day
      numbers. */
  datatype ListingStructure = ListingStructure(
    title: string,
    lister: int,
    bedroomsAvailable: int,
    totalRooms: int,
    bedroomsInUse: int,
    bathrooms: int,
    costPerMonth: real,
    availableStartDate: int,
    availableEndDate: int,
    address: string,
    city: string,
    state: string,
    zipCode: string,
    amenities: string)

  /** A stored listing: the fourteen fields above plus the optional map
      coordinates. `lister` refers to a user. */
  datatype Listing = Listing(
    title: string,
    lister: int,
    bedroomsAvailable: int,
    totalRooms: int,
    bedroomsInUse: int,
    bathrooms: int,
    costPerMonth: real,
    availableStartDate: int,
    availableEndDate: int,
    address: string,
    city: string,
    state: string,
    zipCode: string,
    amenities: string,
    latitude: Option<real>,
    longitude: Option<real>)

  datatype Status = Pending | Approved | Rejected

  /** A subletter's request to occupy a listing. `listingId` refers to a
      listing, `subletterId` to a user; `createdAt` is a timestamp. */
  datatype BookingRequest = BookingRequest(listingId: int, subletterId: int, status: Status, createdAt: int)
}

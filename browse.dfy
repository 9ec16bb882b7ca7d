/** Browsing listings: the search endpoint, the homepage with its text and
    price filters, and the list of listings that can be shown on a map. */
module Browse {
  import opened Records
  import opened Text
  import opened SqlLike
  import ListingCrud

  /** `query.filter(keep)`: the rows that pass, unchanged. */
  function Where(rows: map<int, Listing>, keep: Listing -> bool): (r: map<int, Listing>)
    ensures forall id :: id in r <==> id in rows && keep(rows[id])
    ensures forall id :: id in r ==> r[id] == rows[id]
  {
    map id | id in rows && keep(rows[id]) :: rows[id]
  }

  /** `if bound is not None: query = query.filter(...)`: a supplied bound
      keeps the rows within it, a missing one keeps every row. */
  function Narrow<T>(rows: map<int, Listing>, bound: Option<T>, within: (Listing, T) -> bool): (r: map<int, Listing>)
    ensures forall id :: id in r <==> id in rows && (bound.None? || within(rows[id], bound.value))
    ensures forall id :: id in r ==> r[id] == rows[id]
  {
    match bound
    case None => rows
    case Some(v) => Where(rows, (l: Listing) => within(l, v))
  }

  /** The search form: five optional bounds. */
  datatype SearchFilterStructure = SearchFilterStructure(
    costPerMonth: Option<real>,
    bedroomsAvailable: Option<int>,
    bathrooms: Option<int>,
    availableStartDate: Option<int>,
    availableEndDate: Option<int>)

  /** The listing meets every bound the filter supplies; a missing bound
      imposes nothing. */
  predicate SatisfiesFilters(l: Listing, f: SearchFilterStructure) {
    WithinCost(l, f) && WithinBedrooms(l, f) && WithinBathrooms(l, f) && WithinStart(l, f) && WithinEnd(l, f)
  }

  /** At most the given monthly cost. */
  predicate WithinCost(l: Listing, f: SearchFilterStructure) {
    f.costPerMonth.None? || l.costPerMonth <= f.costPerMonth.value
  }

  /** At least the given number of free bedrooms. */
  predicate WithinBedrooms(l: Listing, f: SearchFilterStructure) {
    f.bedroomsAvailable.None? || l.bedroomsAvailable >= f.bedroomsAvailable.value
  }

  /** At least the given number of bathrooms. */
  predicate WithinBathrooms(l: Listing, f: SearchFilterStructure) {
    f.bathrooms.None? || l.bathrooms >= f.bathrooms.value
  }

  /** Available from the given day or earlier. */
  predicate WithinStart(l: Listing, f: SearchFilterStructure) {
    f.availableStartDate.None? || l.availableStartDate <= f.availableStartDate.value
  }

  /** Available until the given day or later. */
  predicate WithinEnd(l: Listing, f: SearchFilterStructure) {
    f.availableEndDate.None? || l.availableEndDate >= f.availableEndDate.value
  }

  /** get_search_results: the query is narrowed by one filter per supplied
      bound, and what comes out is exactly the listings meeting all of them. */
  function SearchResults(listings: map<int, Listing>, f: SearchFilterStructure): (r: map<int, Listing>)
    ensures forall id :: id in r <==> id in listings && SatisfiesFilters(listings[id], f)
    ensures forall id :: id in r ==> r[id] == listings[id]
  {
    var byCost := Narrow(listings, f.costPerMonth, (l: Listing, c: real) => l.costPerMonth <= c);
    assert forall id :: id in byCost <==> id in listings && WithinCost(listings[id], f);
    var byBedrooms := Narrow(byCost, f.bedroomsAvailable, (l: Listing, n: int) => l.bedroomsAvailable >= n);
    assert forall id :: id in byBedrooms <==> id in byCost && WithinBedrooms(byCost[id], f);
    var byBathrooms := Narrow(byBedrooms, f.bathrooms, (l: Listing, n: int) => l.bathrooms >= n);
    assert forall id :: id in byBathrooms <==> id in byBedrooms && WithinBathrooms(byBedrooms[id], f);
    var byStart := Narrow(byBathrooms, f.availableStartDate, (l: Listing, d: int) => l.availableStartDate <= d);
    assert forall id :: id in byStart <==> id in byBathrooms && WithinStart(byBathrooms[id], f);
    var byEnd := Narrow(byStart, f.availableEndDate, (l: Listing, d: int) => l.availableEndDate >= d);
    assert forall id :: id in byEnd <==> id in byStart && WithinEnd(byStart[id], f);
    byEnd
  }

  /** g supplies every bound that f supplies, each at least as tight. */
  predicate AtLeastAsStrict(g: SearchFilterStructure, f: SearchFilterStructure) {
    && (f.costPerMonth.Some? ==> g.costPerMonth.Some? && g.costPerMonth.value <= f.costPerMonth.value)
    && (f.bedroomsAvailable.Some? ==> g.bedroomsAvailable.Some? && g.bedroomsAvailable.value >= f.bedroomsAvailable.value)
    && (f.bathrooms.Some? ==> g.bathrooms.Some? && g.bathrooms.value >= f.bathrooms.value)
    && (f.availableStartDate.Some? ==> g.availableStartDate.Some? && g.availableStartDate.value <= f.availableStartDate.value)
    && (f.availableEndDate.Some? ==> g.availableEndDate.Some? && g.availableEndDate.value >= f.availableEndDate.value)
  }

  /** Supplying more (or tighter) filters can only shrink the result. */
  lemma MoreFiltersNarrow(listings: map<int, Listing>, f: SearchFilterStructure, g: SearchFilterStructure)
    requires AtLeastAsStrict(g, f)
    ensures SearchResults(listings, g).Keys <= SearchResults(listings, f).Keys
  {
    forall id | id in SearchResults(listings, g)
      ensures id in SearchResults(listings, f)
    {
      StricterFilterImplies(listings[id], f, g);
    }
  }

  /** A listing that meets the stricter filter meets the looser one. */
  lemma StricterFilterImplies(l: Listing, f: SearchFilterStructure, g: SearchFilterStructure)
    requires AtLeastAsStrict(g, f) && SatisfiesFilters(l, g)
    ensures SatisfiesFilters(l, f)
  {
  }

  /** With no filter at all, every listing comes back. */
  lemma NoFilterReturnsAll(listings: map<int, Listing>)
    ensures SearchResults(listings, SearchFilterStructure(None, None, None, None, None)) == listings
  {
    var r := SearchResults(listings, SearchFilterStructure(None, None, None, None, None));
    assert r.Keys == listings.Keys;
  }

  /** The homepage's text test as the query is written: q is put between two
      `%` and handed to ILIKE, so a `%` or `_` inside q is a wildcard and a
      backslash escapes the character after it. */
  predicate IlikeContains(s: string, q: string) {
    ILike(s, "%" + q + "%")
  }

  /** The evidently intended text test: q occurs in s, ignoring case. */
  predicate ContainsIgnoreCase(s: string, q: string) {
    Contains(Lower(s), Lower(q))
  }

  /** The two tests agree on every query without a wildcard or escape
      character. */
  lemma IlikeAgreesWithoutWildcards(s: string, q: string)
    requires NoWildcards(q)
    ensures IlikeContains(s, q) == ContainsIgnoreCase(s, q)
  {
    ILikeSurroundedIsContainsIgnoringCase(s, q);
  }

  /** As written, the query "%" matches every text, and even one without a
      percent sign, which does not contain "%". */
  lemma PercentQueryMatchesEverything(s: string)
    ensures IlikeContains(s, "%")
    ensures '%' !in s ==> IlikeContains(s, "%") && !ContainsIgnoreCase(s, "%")
  {
    var t := Lower(s);
    var p := "%" + "%" + "%";
    assert p == "%%%";
    assert Lower(p) == p by {
      forall k | 0 <= k < |p| ensures Lower(p)[k] == p[k] {
        assert LowerChar(p[k]) == p[k];
      }
    }
    PercentMatchesAll(t);
    assert "%%"[1..] == "%";
    assert LikeMatch(t, "%%");
    assert p[1..] == "%%";
    assert LikeMatch(t, p);
    PercentIsLiteral(s);
  }

  /** q sits at position i of s once both are lower-cased. */
  predicate FoundAt(s: string, q: string, i: int) {
    0 <= i && i + |q| <= |s| && Lower(s[i..i + |q|]) == Lower(q)
  }

  /** The intended test finds q itself: some stretch of s equals q once both
      are lower-cased. */
  lemma ContainsIgnoreCaseMeans(s: string, q: string)
    ensures ContainsIgnoreCase(s, q) <==> exists i :: FoundAt(s, q, i)
  {
    if ContainsIgnoreCase(s, q) {
      var i :| 0 <= i <= |Lower(s)| - |Lower(q)| && OccursAt(Lower(s), Lower(q), i);
      LowerSlice(s, i, i + |q|);
      assert FoundAt(s, q, i);
    }
    if exists i :: FoundAt(s, q, i) {
      var i :| FoundAt(s, q, i);
      LowerSlice(s, i, i + |q|);
      assert OccursAt(Lower(s), Lower(q), i);
    }
  }

  /** Under the intended test "%" is an ordinary character: it is found
      exactly in the texts that contain it. */
  lemma PercentIsLiteral(s: string)
    ensures ContainsIgnoreCase(s, "%") <==> '%' in s
  {
    var t := Lower(s);
    assert Lower("%") == "%" by {
      assert LowerChar('%') == '%';
    }
    if '%' in s {
      var i :| 0 <= i < |s| && s[i] == '%';
      assert t[i..i + 1] == [t[i]] && t[i] == LowerChar(s[i]);
      assert OccursAt(t, "%", i);
    } else {
      forall i | 0 <= i <= |t| - 1
        ensures !OccursAt(t, "%", i)
      {
        assert s[i] != '%';
        assert t[i] == LowerChar(s[i]) != '%';
        assert t[i..i + 1][0] == t[i];
      }
    }
  }

  /** The homepage's price filter: a missing price, or 0 (`if price:` is
      false for it), sets no cap; any other price caps the monthly cost. */
  predicate WithinPrice(l: Listing, price: Option<real>) {
    price.None? || price.value == 0.0 || l.costPerMonth <= price.value
  }

  /** The text filter as written: `%q%` is ILIKE-matched against the title,
      the city and the address, and one hit is enough. */
  predicate TextHit(l: Listing, q: string) {
    IlikeContains(l.title, q) || IlikeContains(l.city, q) || IlikeContains(l.address, q)
  }

  /** The text filter as intended: q itself occurs, ignoring case, in the
      title, the city or the address. */
  predicate TextHitIntended(l: Listing, q: string) {
    ContainsIgnoreCase(l.title, q) || ContainsIgnoreCase(l.city, q) || ContainsIgnoreCase(l.address, q)
  }

  /** The homepage filters as written: a non-empty q must hit, and the price
      filter must pass. */
  predicate HomepageMatches(l: Listing, q: Option<string>, price: Option<real>) {
    (q.None? || q.value == [] || TextHit(l, q.value)) && WithinPrice(l, price)
  }

  /** The same filters with the intended text test. */
  predicate HomepageMatchesIntended(l: Listing, q: Option<string>, price: Option<real>) {
    (q.None? || q.value == [] || TextHitIntended(l, q.value)) && WithinPrice(l, price)
  }

  /** The query chain of the homepage: narrowed by the text test hit when q
      is non-empty (`if q:`), then by the price cap when one is set. */
  function FilterByTextAndPrice(listings: map<int, Listing>, q: Option<string>, price: Option<real>,
                                hit: (Listing, string) -> bool): (r: map<int, Listing>)
    ensures forall id :: id in r <==>
      id in listings && (q.None? || q.value == [] || hit(listings[id], q.value)) && WithinPrice(listings[id], price)
    ensures forall id :: id in r ==> r[id] == listings[id]
  {
    var byText := match q
      case None => listings
      case Some(text) => if text == [] then listings else Where(listings, (l: Listing) => hit(l, text));
    match price
    case None => byText
    case Some(p) => if p == 0.0 then byText else Where(byText, (l: Listing) => l.costPerMonth <= p)
  }

  /** The homepage query as written: exactly the listings passing the
      filters, unchanged. */
  function HomepageQuery(listings: map<int, Listing>, q: Option<string>, price: Option<real>): (r: map<int, Listing>)
    ensures forall id :: id in r <==> id in listings && HomepageMatches(listings[id], q, price)
    ensures forall id :: id in r ==> r[id] == listings[id]
  {
    FilterByTextAndPrice(listings, q, price, TextHit)
  }

  /** The homepage query with the intended text test. */
  function HomepageQueryIntended(listings: map<int, Listing>, q: Option<string>, price: Option<real>): (r: map<int, Listing>)
    ensures forall id :: id in r <==> id in listings && HomepageMatchesIntended(listings[id], q, price)
    ensures forall id :: id in r ==> r[id] == listings[id]
  {
    FilterByTextAndPrice(listings, q, price, TextHitIntended)
  }

  /** For a query without `%`, `_` or a backslash, the query as written
      returns exactly what the intended one does. */
  lemma HomepageQueriesAgree(listings: map<int, Listing>, q: Option<string>, price: Option<real>)
    requires q.None? || NoWildcards(q.value)
    ensures HomepageQuery(listings, q, price) == HomepageQueryIntended(listings, q, price)
  {
    var written, intended := HomepageQuery(listings, q, price), HomepageQueryIntended(listings, q, price);
    forall id | id in listings && q.Some?
      ensures TextHit(listings[id], q.value) == TextHitIntended(listings[id], q.value)
    {
      var l := listings[id];
      IlikeAgreesWithoutWildcards(l.title, q.value);
      IlikeAgreesWithoutWildcards(l.city, q.value);
      IlikeAgreesWithoutWildcards(l.address, q.value);
    }
    assert written.Keys == intended.Keys;
  }

  /** As written, searching for "%" filters nothing: the homepage shows what
      it shows with no search text at all. */
  lemma PercentQueryKeepsEverything(listings: map<int, Listing>, price: Option<real>)
    ensures HomepageQuery(listings, Some("%"), price) == HomepageQuery(listings, None, price)
  {
    var withText, without := HomepageQuery(listings, Some("%"), price), HomepageQuery(listings, None, price);
    forall id | id in listings
      ensures TextHit(listings[id], "%")
    {
      PercentQueryMatchesEverything(listings[id].title);
    }
    assert withText.Keys == without.Keys;
  }

  /** As intended, searching for "%" keeps exactly the listings whose title,
      city or address contains a percent sign. */
  lemma PercentQueryFindsPercentSign(listings: map<int, Listing>, price: Option<real>)
    ensures forall id :: id in HomepageQueryIntended(listings, Some("%"), price) <==>
      id in listings && WithinPrice(listings[id], price) &&
      ('%' in listings[id].title || '%' in listings[id].city || '%' in listings[id].address)
  {
    forall id | id in listings
      ensures TextHitIntended(listings[id], "%") <==>
        ('%' in listings[id].title || '%' in listings[id].city || '%' in listings[id].address)
    {
      PercentIsLiteral(listings[id].title);
      PercentIsLiteral(listings[id].city);
      PercentIsLiteral(listings[id].address);
    }
  }

  /** A tighter price cap never lets more listings through. */
  lemma LowerPriceNarrows(listings: map<int, Listing>, q: Option<string>, p: real, p': real)
    requires p != 0.0 && p' != 0.0 && p' <= p
    ensures HomepageQuery(listings, q, Some(p')).Keys <= HomepageQuery(listings, q, Some(p)).Keys
  {
  }

  /** Dropping the empty strings from a list distributes over concatenation. */
  lemma {:induction false} NonEmptyConcat(xs: seq<string>, ys: seq<string>)
    ensures NonEmpty(xs + ys) == NonEmpty(xs) + NonEmpty(ys)
  {
    if xs != [] {
      assert (xs + ys)[1..] == xs[1..] + ys;
      NonEmptyConcat(xs[1..], ys);
    } else {
      assert xs + ys == ys;
    }
  }

  /** An empty part adds nothing to the join, not even a separator. */
  lemma EmptyPartIsSkipped(sep: string, xs: seq<string>, ys: seq<string>)
    ensures Join(sep, NonEmpty(xs + [""] + ys)) == Join(sep, NonEmpty(xs + ys))
  {
    var empty: seq<string> := [""];
    NonEmptyConcat(xs + empty, ys);
    NonEmptyConcat(xs, empty);
    NonEmptyConcat(xs, ys);
    assert empty[1..] == [];
    assert NonEmpty(empty) == [];
    assert NonEmpty(xs) + [] == NonEmpty(xs);
  }

  /** A list with no empty string passes the filter unchanged. */
  lemma {:induction false} NonEmptyKeepsNonEmpty(parts: seq<string>)
    requires forall k :: 0 <= k < |parts| ==> parts[k] != []
    ensures NonEmpty(parts) == parts
  {
    if parts != [] {
      NonEmptyKeepsNonEmpty(parts[1..]);
    }
  }

  /** Four non-empty parts are all kept, with one separator between each two. */
  lemma AllPartsJoined(a: string, b: string, c: string, d: string)
    ensures a != [] && b != [] && c != [] && d != [] ==>
      Join(", ", NonEmpty([a, b, c, d])) == a + ", " + b + ", " + c + ", " + d
  {
    if a != [] && b != [] && c != [] && d != [] {
      var parts := [a, b, c, d];
      NonEmptyKeepsNonEmpty(parts);
      assert parts[1..] == [b, c, d] && parts[1..][1..] == [c, d] && parts[1..][1..][1..] == [d];
      var cd := Join(", ", [c, d]);
      assert [c, d][1..] == [d] && Join(", ", [d]) == d;
      assert cd == c + ", " + d;
      var bcd := Join(", ", [b, c, d]);
      assert [b, c, d][1..] == [c, d];
      assert bcd == b + ", " + cd;
      assert Join(", ", parts) == a + ", " + bcd;
    }
  }

  /** The join is empty exactly when every part is. */
  lemma NoPartsJoined(a: string, b: string, c: string, d: string)
    ensures Join(", ", NonEmpty([a, b, c, d])) == [] <==> a == [] && b == [] && c == [] && d == []
  {
    var parts := [a, b, c, d];
    var kept := NonEmpty(parts);
    JoinOfNonEmptyIsEmpty(", ", kept);
    assert a in parts && b in parts && c in parts && d in parts;
    assert kept != [] ==> kept[0] in parts && kept[0] != [];
  }

  /** full_address: the non-empty parts among address, city, state and zip
      code, in that order, joined by ", ". */
  function FullAddress(address: string, city: string, state: string, zipCode: string): (r: string)
    ensures r == [] <==> address == [] && city == [] && state == [] && zipCode == []
    ensures address != [] && city != [] && state != [] && zipCode != [] ==>
      r == address + ", " + city + ", " + state + ", " + zipCode
  {
    AllPartsJoined(address, city, state, zipCode);
    NoPartsJoined(address, city, state, zipCode);
    Join(", ", NonEmpty([address, city, state, zipCode]))
  }

  /** One listing as the homepage shows it. */
  datatype HomepageCard = HomepageCard(
    id: int,
    title: string,
    address: string,
    city: string,
    state: string,
    zipCode: string,
    fullAddress: string,
    costPerMonth: real,
    latitude: Option<real>,
    longitude: Option<real>)

  function CardFor(id: int, l: Listing): (c: HomepageCard)
    ensures c.id == id && c.fullAddress == FullAddress(l.address, l.city, l.state, l.zipCode)
  {
    HomepageCard(id, l.title, l.address, l.city, l.state, l.zipCode,
                 FullAddress(l.address, l.city, l.state, l.zipCode), l.costPerMonth, l.latitude, l.longitude)
  }

  /** show_homepage: the signed-in user's name if the id is known, and one
      card per listing that passes the filters, each exactly once, in no
      particular order. */
  method ShowHomepage(users: map<int, User>, listings: map<int, Listing>, q: Option<string>, price: Option<real>, userId: Option<int>)
    returns (userName: Option<string>, cards: seq<HomepageCard>)
    ensures userId.Some? && userId.value in users ==> userName == Some(users[userId.value].name)
    ensures !(userId.Some? && userId.value in users) ==> userName == None
    ensures forall c :: c in cards ==>
      c.id in listings && HomepageMatches(listings[c.id], q, price) && c == CardFor(c.id, listings[c.id])
    ensures forall id :: id in listings && HomepageMatches(listings[id], q, price) ==> exists c :: c in cards && c.id == id
    ensures forall i, j :: 0 <= i < j < |cards| ==> cards[i].id != cards[j].id
  {
    userName := None;
    if userId.Some? && userId.value in users {
      userName := Some(users[userId.value].name);
    }
    var results := HomepageQuery(listings, q, price);
    cards := CardsFor(results);
  }

  /** The loop building the homepage cards: one card per row, each row once. */
  method CardsFor(rows: map<int, Listing>) returns (cards: seq<HomepageCard>)
    ensures forall c :: c in cards ==> c.id in rows && c == CardFor(c.id, rows[c.id])
    ensures forall id :: id in rows ==> exists c :: c in cards && c.id == id
    ensures forall i, j :: 0 <= i < j < |cards| ==> cards[i].id != cards[j].id
  {
    var remaining := rows.Keys;
    ghost var done: set<int> := {};
    cards := [];
    while remaining != {}
      invariant remaining <= rows.Keys && remaining !! done
      invariant forall x :: x in rows ==> x in remaining || x in done
      invariant CardsCover(rows, done, cards)
      decreases |remaining|
    {
      NonEmptyHasMember(remaining);
      var id :| id in remaining;
      cards := AddCard(rows, done, cards, id);
      remaining, done := remaining - {id}, done + {id};
    }
  }

  /** `cards` holds exactly one card for each id in `done`. */
  ghost predicate CardsCover(rows: map<int, Listing>, done: set<int>, cards: seq<HomepageCard>) {
    && (forall c :: c in cards ==> c.id in done && c.id in rows && c == CardFor(c.id, rows[c.id]))
    && (forall id :: id in done ==> exists c :: c in cards && c.id == id)
    && (forall i, j :: 0 <= i < j < |cards| ==> cards[i].id != cards[j].id)
  }

  /** One step of the loop: append the card of a row not yet shown. */
  method AddCard(rows: map<int, Listing>, ghost done: set<int>, cards: seq<HomepageCard>, id: int)
    returns (cards': seq<HomepageCard>)
    requires id in rows && id !in done && CardsCover(rows, done, cards)
    ensures CardsCover(rows, done + {id}, cards')
  {
    var card := CardFor(id, rows[id]);
    cards' := cards + [card];
    assert cards'[|cards'| - 1] == card;
    forall id' | id' in done + {id}
      ensures exists c :: c in cards' && c.id == id'
    {
      if id' != id {
        var c :| c in cards && c.id == id';
        assert c in cards';
      }
    }
  }

  /** api_listings: exactly the listings with both coordinates present. */
  function ListingsWithCoordinates(listings: map<int, Listing>): (r: map<int, Listing>)
    ensures forall id :: id in r <==> id in listings && listings[id].latitude.Some? && listings[id].longitude.Some?
    ensures forall id :: id in r ==> r[id] == listings[id]
  {
    Where(listings, (l: Listing) => l.latitude.Some? && l.longitude.Some?)
  }

  /** A listing made by the listing store has no coordinates, so creating
      one leaves the map's list exactly as it was. */
  lemma CreatedListingIsNotOnTheMap(listings: map<int, Listing>, newId: int, data: ListingStructure)
    requires newId !in listings
    ensures ListingsWithCoordinates(listings[newId := ListingCrud.FromStructure(data)]) == ListingsWithCoordinates(listings)
  {
    var after := ListingsWithCoordinates(listings[newId := ListingCrud.FromStructure(data)]);
    assert after.Keys == ListingsWithCoordinates(listings).Keys;
  }
}

/** The sweet operations of service/SweetService.java over the catalog database: the
    stock movements, the edits of a stored sweet, and the combined search. Every failed
    operation leaves the tables as they were, since its transaction is rolled back. */
module SweetServices {
  import opened Wrappers
  import opened Seqs
  import opened CatalogEntities
  import opened CatalogTables
  import opened CatalogStore
  import opened SweetQueries
  import Clock = RefreshTokenEntity

  /** The request body of a create or an update (dto/SweetDto.java). The category id
      may be absent (`null`). */
  datatype SweetDto = SweetDto(
    name: string,
    description: string,
    price: Cents,
    quantity: int,
    categoryId: Option<int>,
    imageUrl: string)

  /** The search request (dto/SweetSearchCriteria.java); every field but the
      availability flag may be absent. */
  datatype SearchCriteria = SearchCriteria(
    name: Option<string>,
    categoryId: Option<int>,
    minPrice: Option<Cents>,
    maxPrice: Option<Cents>,
    onlyAvailable: bool)

  /** `findById`. */
  function FindSweet(sweets: seq<SweetRow>, id: int): (r: Result<SweetRow, CatalogError>)
    ensures r.Failure? <==> forall s :: s in sweets ==> s.id != id
    ensures r.Failure? ==> r.error == SweetNotFound(id)
    ensures r.Success? ==> r.value in sweets && r.value.id == id
  {
    match SweetWithId(sweets, id)
    case None => Failure(SweetNotFound(id))
    case Some(s) => Success(s)
  }

  /** `purchaseSweet` on the stored `sweet`: the stock is checked against the request
      first, then the entity rejects a non-positive amount; a sale takes exactly the
      amount off the stock and changes nothing else. */
  function Purchased(sweet: SweetRow, quantity: int): (r: Result<SweetRow, CatalogError>)
    ensures sweet.quantity < quantity ==> r == Failure(InsufficientStock(sweet.quantity, quantity))
    ensures quantity <= sweet.quantity && quantity <= 0 ==> r == Failure(InvalidAmount(AmountNotPositive))
    ensures r.Success? <==> 0 < quantity <= sweet.quantity
    ensures r.Success? ==> r.value == sweet.(quantity := sweet.quantity - quantity)
  {
    if sweet.quantity < quantity then Failure(InsufficientStock(sweet.quantity, quantity))
    else
      match Decreased(Some(sweet.quantity), quantity)
      case Failure(e) => Failure(InvalidAmount(e))
      case Success(q) => Success(sweet.(quantity := q))
  }

  /** `restockSweet` on the stored `sweet`: a positive amount is added to the stock and
      nothing else changes. */
  function Restocked(sweet: SweetRow, quantity: int): (r: Result<SweetRow, CatalogError>)
    ensures r.Failure? <==> quantity <= 0
    ensures r.Failure? ==> r.error == InvalidAmount(AmountNotPositive)
    ensures r.Success? ==> r.value == sweet.(quantity := sweet.quantity + quantity)
  {
    match Increased(Some(sweet.quantity), quantity)
    case Failure(e) => Failure(InvalidAmount(e))
    case Success(q) => Success(sweet.(quantity := q))
  }

  /** Restocking what a sale took gives back the sweet and, in the table, every row as
      it was before the sale. */
  lemma PurchaseUndoneByRestock(rows: seq<SweetRow>, sweet: SweetRow, quantity: int)
    requires UniqueSweetIds(rows) && sweet in rows
    requires Purchased(sweet, quantity).Success?
    ensures Restocked(Purchased(sweet, quantity).value, quantity) == Success(sweet)
    ensures ReplaceSweet(ReplaceSweet(rows, Purchased(sweet, quantity).value), sweet) == rows
  {
    var sold := Purchased(sweet, quantity).value;
    assert sold.quantity + quantity == sweet.quantity;
    assert Restocked(sold, quantity).value == sweet;
    ReplaceSweetRestores(rows, sold, sweet);
  }

  /** A sale never takes the stock below zero, and it leaves the sweet out of stock
      exactly when it sold all of it. */
  lemma PurchaseKeepsStockNonNegative(sweet: SweetRow, quantity: int)
    requires sweet.quantity >= 0 && Purchased(sweet, quantity).Success?
    ensures Purchased(sweet, quantity).value.quantity >= 0
    ensures Purchased(sweet, quantity).value.quantity == 0 <==> quantity == sweet.quantity
  {
    DecreaseKeepsStockNonNegative(sweet.quantity, quantity);
  }

  /** The category an update asks for is acceptable: none, the sweet's own, or a
      stored one. */
  predicate CategoryChangeResolves(sweet: SweetRow, dto: SweetDto, categories: seq<CategoryRow>)
  {
    dto.categoryId.None? || dto.categoryId.value == sweet.categoryId || CategoryWithId(categories, dto.categoryId.value).Some?
  }

  /** `updateSweet` on the stored `sweet`: every field of the body replaces the
      sweet's, the category only when the body names a different one, which must then
      exist; the id and creation time stay. The written row must meet the entity's
      constraints. A missing category is reported before a constraint violation. */
  function Updated(sweet: SweetRow, dto: SweetDto, categories: seq<CategoryRow>): (r: Result<SweetRow, CatalogError>)
    ensures !CategoryChangeResolves(sweet, dto, categories) ==> r == Failure(CategoryNotFound(dto.categoryId.value))
    ensures r.Success? <==> CategoryChangeResolves(sweet, dto, categories) && dto.quantity >= 0 && dto.price > 0
    ensures r.Failure? && CategoryChangeResolves(sweet, dto, categories) ==> r == Failure(ConstraintViolation)
    ensures r.Success? ==>
      && r.value.id == sweet.id && r.value.createdAt == sweet.createdAt
      && r.value.name == dto.name && r.value.description == dto.description && r.value.price == dto.price
      && r.value.quantity == dto.quantity && r.value.imageUrl == dto.imageUrl
      && r.value.categoryId == (if dto.categoryId.Some? then dto.categoryId.value else sweet.categoryId)
  {
    var categoryId := if dto.categoryId.Some? then dto.categoryId.value else sweet.categoryId;
    if categoryId != sweet.categoryId && CategoryWithId(categories, categoryId).None? then
      Failure(CategoryNotFound(categoryId))
    else
      var row := SweetRow(sweet.id, dto.name, dto.description, dto.price, dto.quantity, dto.imageUrl, categoryId, sweet.createdAt);
      if SweetColumnsValid(row) then Success(row) else Failure(ConstraintViolation)
  }

  /** Sending the same update twice stores the same row as sending it once. */
  lemma UpdateIsIdempotent(sweet: SweetRow, dto: SweetDto, categories: seq<CategoryRow>)
    requires Updated(sweet, dto, categories).Success?
    ensures Updated(Updated(sweet, dto, categories).value, dto, categories) == Updated(sweet, dto, categories)
  {
  }

  /** The search text is absent when it is null or trims to nothing: `trim` strips
      every character up to U+0020. */
  predicate Blank(s: string)
  {
    forall i :: 0 <= i < |s| ==> s[i] <= ' '
  }

  predicate SearchesByName(criteria: SearchCriteria)
  {
    criteria.name.Some? && !Blank(criteria.name.value)
  }

  /** The candidates a search starts from: the name matches when a search text is
      given, else the sweets of the category when one is given, else every sweet. */
  predicate MatchesBase(s: SweetRow, criteria: SearchCriteria)
  {
    if SearchesByName(criteria) then ContainsIgnoreCase(s.name, criteria.name.value)
    else if criteria.categoryId.Some? then s.categoryId == criteria.categoryId.value
    else true
  }

  /** The price lies within each bound that is given, both bounds inclusive. */
  predicate WithinPrice(s: SweetRow, minPrice: Option<Cents>, maxPrice: Option<Cents>)
  {
    (minPrice.None? || s.price >= minPrice.value) && (maxPrice.None? || s.price <= maxPrice.value)
  }

  /** The search falls back to a category that is not stored. */
  predicate NamesMissingCategory(categories: seq<CategoryRow>, criteria: SearchCriteria)
  {
    !SearchesByName(criteria) && criteria.categoryId.Some? && CategoryWithId(categories, criteria.categoryId.value).None?
  }

  function SearchBase(sweets: seq<SweetRow>, categories: seq<CategoryRow>, criteria: SearchCriteria)
    : (r: Result<seq<SweetRow>, CatalogError>)
    ensures r.Failure? <==> NamesMissingCategory(categories, criteria)
    ensures r.Failure? ==> r.error == CategoryNotFound(criteria.categoryId.value)
    ensures r.Success? ==> forall s :: s in r.value <==> s in sweets && MatchesBase(s, criteria)
  {
    if SearchesByName(criteria) then Success(FindByNameContainingIgnoreCase(sweets, criteria.name.value))
    else if criteria.categoryId.Some? then
      match CategoryWithId(categories, criteria.categoryId.value)
      case None => Failure(CategoryNotFound(criteria.categoryId.value))
      case Some(c) => Success(FindByCategory(sweets, c.id))
    else Success(sweets)
  }

  /** The price stage: applied only when some bound is given. */
  function PriceFiltered(rows: seq<SweetRow>, criteria: SearchCriteria): (r: seq<SweetRow>)
    ensures forall s :: s in r <==> s in rows && WithinPrice(s, criteria.minPrice, criteria.maxPrice)
    ensures Subsequence(r, rows)
  {
    if criteria.minPrice.Some? || criteria.maxPrice.Some? then
      FilterIsSubsequence(rows, (s: SweetRow) => WithinPrice(s, criteria.minPrice, criteria.maxPrice));
      Filter(rows, (s: SweetRow) => WithinPrice(s, criteria.minPrice, criteria.maxPrice))
    else
      FilterIsSubsequence(rows, (s: SweetRow) => true);
      FilterAll(rows, (s: SweetRow) => true);
      rows
  }

  /** The availability stage: applied only when the flag is set. */
  function AvailabilityFiltered(rows: seq<SweetRow>, onlyAvailable: bool): (r: seq<SweetRow>)
    ensures forall s :: s in r <==> s in rows && (onlyAvailable ==> Available(Some(s.quantity)))
    ensures Subsequence(r, rows)
  {
    if onlyAvailable then
      FilterIsSubsequence(rows, (s: SweetRow) => Available(Some(s.quantity)));
      Filter(rows, (s: SweetRow) => Available(Some(s.quantity)))
    else
      FilterIsSubsequence(rows, (s: SweetRow) => true);
      FilterAll(rows, (s: SweetRow) => true);
      rows
  }

  /** `searchSweets`: the candidates, narrowed by price and then by availability, in
      the order the candidates came in. */
  function SearchSweets(sweets: seq<SweetRow>, categories: seq<CategoryRow>, criteria: SearchCriteria)
    : (r: Result<seq<SweetRow>, CatalogError>)
    ensures r.Failure? <==> NamesMissingCategory(categories, criteria)
    ensures r.Failure? ==> r.error == CategoryNotFound(criteria.categoryId.value)
    ensures r.Success? ==> forall s :: s in r.value <==>
      && s in sweets && MatchesBase(s, criteria)
      && WithinPrice(s, criteria.minPrice, criteria.maxPrice)
      && (criteria.onlyAvailable ==> s.quantity > 0)
    ensures r.Success? ==> Subsequence(r.value, SearchBase(sweets, categories, criteria).value)
  {
    match SearchBase(sweets, categories, criteria)
    case Failure(e) => Failure(e)
    case Success(base) =>
      var priced := PriceFiltered(base, criteria);
      SubsequenceTransitive(AvailabilityFiltered(priced, criteria.onlyAvailable), priced, base);
      Success(AvailabilityFiltered(priced, criteria.onlyAvailable))
  }

  /** With both bounds, the price stage keeps what `findByPriceBetween` finds, in the
      same order. */
  lemma PriceStageAgreesWithPriceBetween(rows: seq<SweetRow>, criteria: SearchCriteria)
    requires criteria.minPrice.Some? && criteria.maxPrice.Some?
    ensures PriceFiltered(rows, criteria) == FindByPriceBetween(rows, criteria.minPrice.value, criteria.maxPrice.value)
  {
    var lo, hi := criteria.minPrice.value, criteria.maxPrice.value;
    FilterSamePredicate(rows, (s: SweetRow) => WithinPrice(s, criteria.minPrice, criteria.maxPrice),
      (s: SweetRow) => lo <= s.price <= hi);
  }

  /** A search that gives nothing but the default flag lists `findAvailableSweets`:
      every sweet in stock, in table order. */
  lemma DefaultSearchListsAvailableSweets(sweets: seq<SweetRow>, categories: seq<CategoryRow>)
    ensures SearchSweets(sweets, categories, SearchCriteria(None, None, None, None, true))
      == Success(FindByQuantityGreaterThan(sweets, 0))
  {
    FilterSamePredicate(sweets, (s: SweetRow) => Available(Some(s.quantity)), (s: SweetRow) => s.quantity > 0);
  }

  /** A search text made only of blanks is ignored, as if none were given. */
  lemma BlankSearchTextIsIgnored(sweets: seq<SweetRow>, categories: seq<CategoryRow>, criteria: SearchCriteria)
    requires criteria.name.Some? && Blank(criteria.name.value)
    ensures SearchSweets(sweets, categories, criteria) == SearchSweets(sweets, categories, criteria.(name := None))
  {
  }

  /** `findSweetsByCategory`. */
  function FindSweetsByCategory(sweets: seq<SweetRow>, categories: seq<CategoryRow>, categoryId: int)
    : (r: Result<seq<SweetRow>, CatalogError>)
    ensures r.Failure? <==> CategoryWithId(categories, categoryId).None?
    ensures r.Failure? ==> r.error == CategoryNotFound(categoryId)
    ensures r.Success? ==> forall s :: s in r.value <==> s in sweets && s.categoryId == categoryId
  {
    match CategoryWithId(categories, categoryId)
    case None => Failure(CategoryNotFound(categoryId))
    case Some(c) => Success(FindByCategory(sweets, c.id))
  }

  /** `findTopSellingSweets(limit)`: `PageRequest.of(0, limit)` refuses a size below
      one; otherwise the first `limit` sweets by stock, largest first. */
  function FindTopSellingSweets(sweets: seq<SweetRow>, limit: int): (r: Result<seq<SweetRow>, CatalogError>)
    ensures r.Failure? <==> limit < 1
    ensures r.Failure? ==> r.error == InvalidPageSize(limit)
    ensures r.Success? ==> |r.value| == (if |sweets| < limit then |sweets| else limit)
    ensures r.Success? ==> Sorted(r.value, QuantityDescending) && multiset(r.value) <= multiset(sweets)
    ensures r.Success? ==>
      forall s :: s in sweets && s !in r.value ==> forall t :: t in r.value ==> s.quantity <= t.quantity
  {
    if limit < 1 then Failure(InvalidPageSize(limit))
    else Success(SweetQueries.FindTopSellingSweets(sweets, limit))
  }

  class SweetService {
    const db: Catalog

    constructor (db: Catalog)
      ensures this.db == db
    {
      this.db := db;
    }

    /** `createSweet(dto)` at time `now`: the category must be named and exist, and the
        new row must meet the entity's constraints. */
    method CreateSweet(dto: SweetDto, now: Clock.Instant) returns (r: Result<SweetRow, CatalogError>)
      requires db.Valid()
      modifies db`sweets, db`nextSweetId
      ensures db.Valid()
      ensures dto.categoryId.None? ==> r == Failure(NullId)
      ensures dto.categoryId.Some? && old(CategoryWithId(db.categories, dto.categoryId.value)).None? ==>
        r == Failure(CategoryNotFound(dto.categoryId.value))
      ensures r.Success? <==>
        dto.categoryId.Some? && old(CategoryWithId(db.categories, dto.categoryId.value)).Some?
        && dto.quantity >= 0 && dto.price > 0
      ensures r.Success? ==>
        && r.value == SweetRow(old(db.nextSweetId), dto.name, dto.description, dto.price, dto.quantity,
                               dto.imageUrl, dto.categoryId.value, now)
        && db.sweets == old(db.sweets) + [r.value]
        && SweetWithId(db.sweets, r.value.id) == Some(r.value)
      ensures r.Failure? ==> db.sweets == old(db.sweets) && db.nextSweetId == old(db.nextSweetId)
    {
      if dto.categoryId.None? {
        return Failure(NullId);
      }
      var category := CategoryWithId(db.categories, dto.categoryId.value);
      if category.None? {
        return Failure(CategoryNotFound(dto.categoryId.value));
      }
      if !(dto.quantity >= 0 && dto.price > 0) {
        return Failure(ConstraintViolation);
      }
      var saved := db.InsertSweet(dto.name, dto.description, dto.price, dto.quantity, dto.imageUrl, category.value.id, now);
      SweetIdFindsTheRow(db.sweets, saved);
      return Success(saved);
    }

    /** `updateSweet(id, dto)`. */
    method UpdateSweet(id: int, dto: SweetDto) returns (r: Result<SweetRow, CatalogError>)
      requires db.Valid()
      modifies db`sweets
      ensures db.Valid()
      ensures old(FindSweet(db.sweets, id)).Failure? ==> r == Failure(SweetNotFound(id))
      ensures old(FindSweet(db.sweets, id)).Success? ==>
        r == Updated(old(FindSweet(db.sweets, id)).value, dto, db.categories)
      ensures r.Success? ==> db.sweets == ReplaceSweet(old(db.sweets), r.value)
      ensures r.Failure? ==> db.sweets == old(db.sweets)
    {
      var found := FindSweet(db.sweets, id);
      if found.Failure? {
        return Failure(found.error);
      }
      r := Updated(found.value, dto, db.categories);
      if r.Success? {
        db.SaveSweet(r.value);
      }
    }

    /** `deleteSweet(id)`. */
    method DeleteSweet(id: int) returns (r: Result<(), CatalogError>)
      requires db.Valid()
      modifies db`sweets
      ensures db.Valid()
      ensures r.Failure? <==> old(FindSweet(db.sweets, id)).Failure?
      ensures r.Failure? ==> r.error == SweetNotFound(id) && db.sweets == old(db.sweets)
      ensures r.Success? ==> db.sweets == WithoutSweet(old(db.sweets), id)
      ensures FindSweet(db.sweets, id).Failure?
    {
      var found := FindSweet(db.sweets, id);
      if found.Failure? {
        return Failure(found.error);
      }
      db.DeleteSweet(id);
      return Success(());
    }

    /** `purchaseSweet(id, quantity)`. */
    method PurchaseSweet(id: int, quantity: int) returns (r: Result<SweetRow, CatalogError>)
      requires db.Valid()
      modifies db`sweets
      ensures db.Valid()
      ensures old(FindSweet(db.sweets, id)).Failure? ==> r == Failure(SweetNotFound(id))
      ensures old(FindSweet(db.sweets, id)).Success? ==> r == Purchased(old(FindSweet(db.sweets, id)).value, quantity)
      ensures r.Success? ==> db.sweets == ReplaceSweet(old(db.sweets), r.value)
      ensures r.Failure? ==> db.sweets == old(db.sweets)
    {
      var found := FindSweet(db.sweets, id);
      if found.Failure? {
        return Failure(found.error);
      }
      var sweet := found.value;
      if sweet.quantity < quantity {
        return Failure(InsufficientStock(sweet.quantity, quantity));
      }
      r := Purchased(sweet, quantity);
      if r.Success? {
        db.SaveSweet(r.value);
      }
    }

    /** `restockSweet(id, quantity)`. */
    method RestockSweet(id: int, quantity: int) returns (r: Result<SweetRow, CatalogError>)
      requires db.Valid()
      modifies db`sweets
      ensures db.Valid()
      ensures old(FindSweet(db.sweets, id)).Failure? ==> r == Failure(SweetNotFound(id))
      ensures old(FindSweet(db.sweets, id)).Success? ==> r == Restocked(old(FindSweet(db.sweets, id)).value, quantity)
      ensures r.Success? ==> db.sweets == ReplaceSweet(old(db.sweets), r.value)
      ensures r.Failure? ==> db.sweets == old(db.sweets)
    {
      var found := FindSweet(db.sweets, id);
      if found.Failure? {
        return Failure(found.error);
      }
      r := Restocked(found.value, quantity);
      if r.Success? {
        db.SaveSweet(r.value);
      }
    }
  }
}

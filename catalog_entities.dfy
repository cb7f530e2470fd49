/** The catalog entities (entity/Sweet.java, entity/Category.java) as in-memory objects:
    a sweet's stock rules and identity, and a category's list of sweets with the
    back-pointer each sweet keeps to its category. */
module CatalogEntities {
  import opened Wrappers

  /** A `BigDecimal` price with two decimal places, as a whole number of cents. */
  type Cents = int

  /** The exceptions of the stock rules: IllegalArgumentException with "Amount must be
      positive" or "Not enough quantity available", and the NullPointerException that
      unboxing a null quantity raises. */
  datatype QuantityError = AmountNotPositive | NotEnoughQuantity | NullQuantity

  /** `isAvailable`: the quantity is set and positive. */
  predicate Available(quantity: Option<int>)
    ensures Available(quantity) <==> Decreased(quantity, 1).Success?
  {
    quantity.Some? && quantity.value > 0
  }

  /** `decreaseQuantity(amount)` on a quantity: the amount is checked first, then the
      stock; only then is it subtracted. */
  function Decreased(quantity: Option<int>, amount: int): (r: Result<int, QuantityError>)
    ensures amount <= 0 ==> r == Failure(AmountNotPositive)
    ensures amount > 0 && quantity.None? ==> r == Failure(NullQuantity)
    ensures amount > 0 && quantity.Some? && quantity.value < amount ==> r == Failure(NotEnoughQuantity)
    ensures r.Success? <==> amount > 0 && quantity.Some? && amount <= quantity.value
    ensures r.Success? ==> 0 <= r.value < quantity.value && quantity.value - r.value == amount
  {
    if amount <= 0 then Failure(AmountNotPositive)
    else if quantity.None? then Failure(NullQuantity)
    else if quantity.value < amount then Failure(NotEnoughQuantity)
    else Success(quantity.value - amount)
  }

  /** `increaseQuantity(amount)` on a quantity. */
  function Increased(quantity: Option<int>, amount: int): (r: Result<int, QuantityError>)
    ensures amount <= 0 ==> r == Failure(AmountNotPositive)
    ensures amount > 0 && quantity.None? ==> r == Failure(NullQuantity)
    ensures r.Success? <==> amount > 0 && quantity.Some?
    ensures r.Success? ==> r.value > quantity.value && r.value - quantity.value == amount
  {
    if amount <= 0 then Failure(AmountNotPositive)
    else if quantity.None? then Failure(NullQuantity)
    else Success(quantity.value + amount)
  }

  /** On a non-negative stock, restocking an amount and then selling the same amount
      restores the stock, and a successful sale is undone by restocking what was sold. */
  lemma IncreaseThenDecreaseRestores(quantity: int, amount: int)
    requires quantity >= 0
    ensures amount > 0 ==> Increased(Some(quantity), amount).Success?
    ensures amount > 0 ==> Decreased(Some(Increased(Some(quantity), amount).value), amount) == Success(quantity)
    ensures Decreased(Some(quantity), amount).Success? ==>
      Increased(Some(Decreased(Some(quantity), amount).value), amount) == Success(quantity)
  {
    if amount > 0 {
      assert Increased(Some(quantity), amount) == Success(quantity + amount);
      assert Decreased(Some(quantity + amount), amount) == Success(quantity);
    }
  }

  /** A sale never takes a non-negative stock below zero, and a sweet is left
      unavailable by a sale exactly when it sold the whole stock. */
  lemma DecreaseKeepsStockNonNegative(quantity: int, amount: int)
    requires quantity >= 0 && Decreased(Some(quantity), amount).Success?
    ensures Decreased(Some(quantity), amount).value >= 0
    ensures !Available(Some(Decreased(Some(quantity), amount).value)) <==> amount == quantity
  {
  }

  /** The value both entities' `hashCode` returns: one constant per class. */
  const SweetClassHash: int := 0x53574554
  const CategoryClassHash: int := 0x43415447

  class Sweet {
    /** Database identity; `None` until the row is persisted. */
    var id: Option<int>
    var name: string
    var description: string
    var price: Cents
    /** `Integer`, so it may be null on an object built by hand. */
    var quantity: Option<int>
    var category: Category?

    constructor (name: string, description: string, price: Cents, quantity: Option<int>, category: Category?)
      ensures this.name == name && this.description == description && this.price == price
      ensures this.quantity == quantity && this.category == category && id == None
    {
      this.id := None;
      this.name := name;
      this.description := description;
      this.price := price;
      this.quantity := quantity;
      this.category := category;
    }

    /** `isAvailable`: one unit can be sold. */
    predicate IsAvailable()
      reads this
      ensures IsAvailable() <==> Decreased(quantity, 1).Success?
    {
      Available(quantity)
    }

    /** `decreaseQuantity`: on a rejected amount the quantity is left as it was. */
    method DecreaseQuantity(amount: int) returns (r: Result<(), QuantityError>)
      modifies this`quantity
      ensures r.Success? <==> Decreased(old(quantity), amount).Success?
      ensures r.Failure? ==> r.error == Decreased(old(quantity), amount).error && quantity == old(quantity)
      ensures r.Success? ==> quantity == Some(Decreased(old(quantity), amount).value)
    {
      if amount <= 0 {
        return Failure(AmountNotPositive);
      }
      if quantity.None? {
        return Failure(NullQuantity);
      }
      if quantity.value < amount {
        return Failure(NotEnoughQuantity);
      }
      quantity := Some(quantity.value - amount);
      return Success(());
    }

    /** `increaseQuantity`: on a rejected amount the quantity is left as it was. */
    method IncreaseQuantity(amount: int) returns (r: Result<(), QuantityError>)
      modifies this`quantity
      ensures r.Success? <==> Increased(old(quantity), amount).Success?
      ensures r.Failure? ==> r.error == Increased(old(quantity), amount).error && quantity == old(quantity)
      ensures r.Success? ==> quantity == Some(Increased(old(quantity), amount).value)
    {
      if amount <= 0 {
        return Failure(AmountNotPositive);
      }
      if quantity.None? {
        return Failure(NullQuantity);
      }
      quantity := Some(quantity.value + amount);
      return Success(());
    }

    /** Entity equality: the same object, or two objects carrying the same database id. */
    predicate Equals(that: Sweet?)
      reads this, that
      ensures Equals(that) ==> that != null
      ensures that != null && that != this && (id.None? || that.id.None?) ==> !Equals(that)
    {
      this == that || (that != null && id.Some? && id == that.id)
    }

    /** Reads no field: the hash is fixed before and after the id is assigned. */
    function HashCode(): (h: int)
      ensures h == SweetClassHash
    {
      SweetClassHash
    }
  }

  /** Equality on sweets is an equivalence relation, two distinct objects are never
      equal while either is unsaved, and the constant hash agrees with it. */
  lemma SweetEqualsIsIdentityOrSavedId(a: Sweet, b: Sweet, c: Sweet)
    ensures a.Equals(a)
    ensures a.Equals(b) == b.Equals(a)
    ensures a.Equals(b) && b.Equals(c) ==> a.Equals(c)
    ensures a != b && (a.id == None || b.id == None) ==> !a.Equals(b)
    ensures a.Equals(b) ==> a.HashCode() == b.HashCode()
  {
  }

  /** The position of the first entry that `sweet` equals, if any. */
  function FirstEqualIndex(sweets: seq<Sweet>, sweet: Sweet): (r: Option<int>)
    reads sweets, sweet
    ensures r.None? <==> forall i :: 0 <= i < |sweets| ==> !sweet.Equals(sweets[i])
    ensures r.Some? ==>
      && 0 <= r.value < |sweets| && sweet.Equals(sweets[r.value])
      && forall i :: 0 <= i < r.value ==> !sweet.Equals(sweets[i])
  {
    if sweets == [] then None
    else if sweet.Equals(sweets[0]) then Some(0)
    else
      match FirstEqualIndex(sweets[1..], sweet)
      case None => None
      case Some(k) => Some(k + 1)
  }

  /** `List.remove(sweet)`: drops the first entry that `sweet` equals, if any. */
  function RemoveFirstEqual(sweets: seq<Sweet>, sweet: Sweet): (r: seq<Sweet>)
    reads sweets, sweet
    ensures FirstEqualIndex(sweets, sweet).None? ==> r == sweets
    ensures FirstEqualIndex(sweets, sweet).Some? ==>
      var k := FirstEqualIndex(sweets, sweet).value;
      |r| == |sweets| - 1 && r[..k] == sweets[..k] && r[k..] == sweets[k + 1..]
  {
    match FirstEqualIndex(sweets, sweet)
    case None => sweets
    case Some(k) => sweets[..k] + sweets[k + 1..]
  }

  /** An unsaved sweet matches only itself: removing one that is not in the list leaves
      the list as it was, even when an entry has equal fields. */
  lemma RemoveUnsavedAbsentIsNoOp(sweets: seq<Sweet>, sweet: Sweet)
    requires sweet.id == None && sweet !in sweets
    ensures RemoveFirstEqual(sweets, sweet) == sweets
  {
  }

  /** In a list whose entries are pairwise unequal, removing an entry removes exactly
      that object and keeps the rest in order. */
  lemma RemoveDistinctEntry(sweets: seq<Sweet>, k: int)
    requires 0 <= k < |sweets|
    requires forall i, j :: 0 <= i < j < |sweets| ==> !sweets[i].Equals(sweets[j])
    ensures FirstEqualIndex(sweets, sweets[k]) == Some(k)
    ensures RemoveFirstEqual(sweets, sweets[k]) == sweets[..k] + sweets[k + 1..]
  {
    var sweet := sweets[k];
    assert sweet.Equals(sweets[k]);
    var r := FirstEqualIndex(sweets, sweet);
    assert r.Some? && r.value == k;
    var rest := RemoveFirstEqual(sweets, sweet);
    assert rest == rest[..k] + rest[k..];
  }

  class Category {
    /** Database identity; `None` until the row is persisted. */
    var id: Option<int>
    var name: string
    var description: string
    /** The sweets of this category (the inverse side of `Sweet.category`). */
    var sweets: seq<Sweet>

    constructor (name: string, description: string)
      ensures this.name == name && this.description == description
      ensures id == None && sweets == []
    {
      this.id := None;
      this.name := name;
      this.description := description;
      this.sweets := [];
    }

    /** `addSweet`: appends the sweet and points it at this category. */
    method AddSweet(sweet: Sweet)
      modifies this`sweets, sweet`category
      ensures sweets == old(sweets) + [sweet]
      ensures sweet.category == this
    {
      sweets := sweets + [sweet];
      sweet.category := this;
    }

    /** `removeSweet`: drops the first entry the sweet equals and clears the sweet's
        category, whether or not an entry was found. */
    method RemoveSweet(sweet: Sweet)
      modifies this`sweets, sweet`category
      ensures sweets == old(RemoveFirstEqual(sweets, sweet))
      ensures sweet.category == null
    {
      sweets := RemoveFirstEqual(sweets, sweet);
      sweet.category := null;
    }

    /** Entity equality: the same object, or two objects carrying the same database id. */
    predicate Equals(that: Category?)
      reads this, that
      ensures Equals(that) ==> that != null
      ensures that != null && that != this && (id.None? || that.id.None?) ==> !Equals(that)
    {
      this == that || (that != null && id.Some? && id == that.id)
    }

    /** Reads no field: the hash is fixed before and after the id is assigned. */
    function HashCode(): (h: int)
      ensures h == CategoryClassHash
    {
      CategoryClassHash
    }
  }

  /** Equality on categories is an equivalence relation, two distinct objects are never
      equal while either is unsaved, and the constant hash agrees with it. */
  lemma CategoryEqualsIsIdentityOrSavedId(a: Category, b: Category, c: Category)
    ensures a.Equals(a)
    ensures a.Equals(b) == b.Equals(a)
    ensures a.Equals(b) && b.Equals(c) ==> a.Equals(c)
    ensures a != b && (a.id == None || b.id == None) ==> !a.Equals(b)
    ensures a.Equals(b) ==> a.HashCode() == b.HashCode()
  {
  }
}

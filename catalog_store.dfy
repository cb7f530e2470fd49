/** The catalog database as the two catalog services see it: the `sweets` and
    `categories` tables with the constraints the schema and the entities' bean
    validation enforce, and the writes the services issue. */
module CatalogStore {
  import opened Wrappers
  import opened Seqs
  import opened CatalogEntities
  import opened CatalogTables
  import Clock = RefreshTokenEntity

  /** The exceptions of the catalog services: SweetNotFoundException,
      CategoryNotFoundException (for an id or a name), CategoryAlreadyExistsException,
      InsufficientStockException, the entity's IllegalArgumentException, the
      IllegalStateException of a category that still has sweets, the constraint
      violation a sweet with a negative quantity or a non-positive price raises when it
      is written, the IllegalArgumentException of a lookup by a null id, and the
      IllegalArgumentException of a page size below one. */
  datatype CatalogError =
    | SweetNotFound(id: int)
    | CategoryNotFound(id: int)
    | CategoryNameNotFound(name: string)
    | CategoryAlreadyExists(name: string)
    | InsufficientStock(available: int, requested: int)
    | InvalidAmount(cause: QuantityError)
    | CategoryHasSweets
    | ConstraintViolation
    | NullId
    | InvalidPageSize(size: int)

  /** The bean-validation constraints of Sweet.java a row must meet to be written:
      `@Min(0)` on the quantity and `@DecimalMin(value = "0.0", inclusive = false)` on
      the price. */
  predicate SweetColumnsValid(s: SweetRow)
  {
    s.quantity >= 0 && s.price > 0
  }

  /** The table without the sweet `id`. */
  function WithoutSweet(rows: seq<SweetRow>, id: int): (r: seq<SweetRow>)
    ensures forall s :: s in r <==> s in rows && s.id != id
  {
    Filter(rows, (s: SweetRow) => s.id != id)
  }

  /** The table without the category `id`. */
  function WithoutCategory(rows: seq<CategoryRow>, id: int): (r: seq<CategoryRow>)
    ensures forall c :: c in r <==> c in rows && c.id != id
  {
    Filter(rows, (c: CategoryRow) => c.id != id)
  }

  /** Every sweet points at a stored category. */
  ghost predicate CategoriesExist(sweets: seq<SweetRow>, categories: seq<CategoryRow>)
  {
    forall s :: s in sweets ==> CategoryWithId(categories, s.categoryId).Some?
  }

  /** The `sweets` table's keys and constraints, with ids below the generator `next`. */
  ghost predicate SweetsConsistent(sweets: seq<SweetRow>, categories: seq<CategoryRow>, next: int)
  {
    && UniqueSweetIds(sweets)
    && (forall s :: s in sweets ==> SweetColumnsValid(s) && s.id < next)
    && CategoriesExist(sweets, categories)
  }

  /** The `categories` table's keys, with ids below the generator `next`. */
  ghost predicate CategoriesConsistent(categories: seq<CategoryRow>, next: int)
  {
    && UniqueCategoryIds(categories)
    && UniqueCategoryNames(categories)
    && (forall c :: c in categories ==> c.id < next)
  }

  /** Replacing a stored sweet by a row with a valid stock and price and a stored
      category keeps the table consistent. */
  lemma ReplacedSweetsStayValid(rows: seq<SweetRow>, categories: seq<CategoryRow>, row: SweetRow, next: int)
    requires SweetsConsistent(rows, categories, next)
    requires SweetWithId(rows, row.id).Some?
    requires SweetColumnsValid(row) && CategoryWithId(categories, row.categoryId).Some?
    ensures SweetsConsistent(ReplaceSweet(rows, row), categories, next)
  {
    ReplaceSweetKeepsIds(rows, row);
    ReplaceSweetKeepsColumns(rows, row, next);
    ReplaceSweetKeepsReferences(rows, categories, row);
  }

  lemma ReplaceSweetKeepsColumns(rows: seq<SweetRow>, row: SweetRow, next: int)
    requires forall s :: s in rows ==> SweetColumnsValid(s) && s.id < next
    requires SweetWithId(rows, row.id).Some? && SweetColumnsValid(row)
    ensures forall s :: s in ReplaceSweet(rows, row) ==> SweetColumnsValid(s) && s.id < next
  {
    var r := ReplaceSweet(rows, row);
    assert row.id < next;
    forall s | s in r ensures SweetColumnsValid(s) && s.id < next {
      var i :| 0 <= i < |r| && r[i] == s;
      assert rows[i] in rows;
    }
  }

  lemma ReplaceSweetKeepsReferences(rows: seq<SweetRow>, categories: seq<CategoryRow>, row: SweetRow)
    requires CategoriesExist(rows, categories)
    requires CategoryWithId(categories, row.categoryId).Some?
    ensures CategoriesExist(ReplaceSweet(rows, row), categories)
  {
    var r := ReplaceSweet(rows, row);
    forall s | s in r ensures CategoryWithId(categories, s.categoryId).Some? {
      var i :| 0 <= i < |r| && r[i] == s;
      assert rows[i] in rows;
    }
  }

  /** Renaming a stored category to a name no other category carries keeps names
      unique. */
  lemma RenameKeepsNamesUnique(rows: seq<CategoryRow>, row: CategoryRow)
    requires UniqueCategoryIds(rows) && UniqueCategoryNames(rows)
    requires forall c :: c in rows && c.id != row.id ==> c.name != row.name
    ensures UniqueCategoryNames(ReplaceCategory(rows, row))
  {
    var r := ReplaceCategory(rows, row);
    forall i, j | 0 <= i < j < |r| ensures r[i].name != r[j].name {
      if rows[i].id == row.id && rows[j].id != row.id {
        assert rows[j] in rows;
      } else if rows[i].id != row.id && rows[j].id == row.id {
        assert rows[i] in rows;
      }
    }
  }

  /** Replacing a stored category keeps its id, so ids stay below the generator and
      every sweet's category stays resolvable. */
  lemma ReplaceKeepsCategoryReferences(rows: seq<CategoryRow>, sweets: seq<SweetRow>, row: CategoryRow, next: int)
    requires forall c :: c in rows ==> c.id < next
    requires CategoriesExist(sweets, rows)
    requires exists c :: c in rows && c.id == row.id
    ensures forall c :: c in ReplaceCategory(rows, row) ==> c.id < next
    ensures CategoriesExist(sweets, ReplaceCategory(rows, row))
  {
    var r := ReplaceCategory(rows, row);
    forall c | c in r ensures c.id < next {
      var i :| 0 <= i < |r| && r[i] == c;
      assert rows[i] in rows;
    }
    forall s | s in sweets ensures CategoryWithId(r, s.categoryId).Some? {
      var c := CategoryWithId(rows, s.categoryId).value;
      var i :| 0 <= i < |rows| && rows[i] == c;
      assert r[i] in r && r[i].id == c.id;
    }
  }

  class Catalog {
    var sweets: seq<SweetRow>
    var categories: seq<CategoryRow>
    /** The identity generators of `sweets` and `categories`. */
    var nextSweetId: int
    var nextCategoryId: int

    ghost predicate Valid()
      reads this
    {
      SweetsConsistent(sweets, categories, nextSweetId) && CategoriesConsistent(categories, nextCategoryId)
    }

    constructor ()
      ensures Valid() && sweets == [] && categories == []
    {
      sweets := [];
      categories := [];
      nextSweetId := 1;
      nextCategoryId := 1;
    }

    /** `sweetRepository.save` of a new sweet: stored under a fresh id. */
    method InsertSweet(name: string, description: string, price: Cents, quantity: int,
                       imageUrl: string, categoryId: int, createdAt: Clock.Instant)
      returns (saved: SweetRow)
      requires Valid()
      requires CategoryWithId(categories, categoryId).Some?
      requires SweetColumnsValid(SweetRow(nextSweetId, name, description, price, quantity, imageUrl, categoryId, createdAt))
      modifies this`sweets, this`nextSweetId
      ensures Valid()
      ensures saved == SweetRow(old(nextSweetId), name, description, price, quantity, imageUrl, categoryId, createdAt)
      ensures sweets == old(sweets) + [saved] && nextSweetId == old(nextSweetId) + 1
    {
      saved := SweetRow(nextSweetId, name, description, price, quantity, imageUrl, categoryId, createdAt);
      sweets := sweets + [saved];
      nextSweetId := nextSweetId + 1;
    }

    /** `sweetRepository.save` of a stored sweet. */
    method SaveSweet(row: SweetRow)
      requires Valid()
      requires SweetWithId(sweets, row.id).Some?
      requires SweetColumnsValid(row) && CategoryWithId(categories, row.categoryId).Some?
      modifies this`sweets
      ensures Valid()
      ensures sweets == ReplaceSweet(old(sweets), row)
    {
      ReplacedSweetsStayValid(sweets, categories, row, nextSweetId);
      sweets := ReplaceSweet(sweets, row);
    }

    /** `sweetRepository.delete` of a stored sweet. */
    method DeleteSweet(id: int)
      requires Valid()
      modifies this`sweets
      ensures Valid()
      ensures sweets == WithoutSweet(old(sweets), id)
    {
      FilterKeepsDistinct(sweets, (s: SweetRow) => s.id != id, (s: SweetRow) => s.id);
      sweets := WithoutSweet(sweets, id);
    }

    /** `categoryRepository.save` of a new category: stored under a fresh id. The unique
        name column admits only a name not already stored. */
    method InsertCategory(name: string, description: string) returns (saved: CategoryRow)
      requires Valid() && forall c :: c in categories ==> c.name != name
      modifies this`categories, this`nextCategoryId
      ensures Valid()
      ensures saved == CategoryRow(old(nextCategoryId), name, description)
      ensures categories == old(categories) + [saved] && nextCategoryId == old(nextCategoryId) + 1
    {
      saved := CategoryRow(nextCategoryId, name, description);
      ghost var before := categories;
      categories := categories + [saved];
      nextCategoryId := nextCategoryId + 1;
      forall s | s in sweets ensures CategoryWithId(categories, s.categoryId).Some? {
        var c := CategoryWithId(before, s.categoryId).value;
        assert c in categories;
      }
    }

    /** `categoryRepository.save` of a stored category whose new name no other category
        carries. */
    method SaveCategory(row: CategoryRow)
      requires Valid()
      requires CategoryWithId(categories, row.id).Some?
      requires forall c :: c in categories && c.id != row.id ==> c.name != row.name
      modifies this`categories
      ensures Valid()
      ensures categories == ReplaceCategory(old(categories), row)
    {
      ReplaceCategoryKeepsIds(categories, row);
      RenameKeepsNamesUnique(categories, row);
      ReplaceKeepsCategoryReferences(categories, sweets, row, nextCategoryId);
      categories := ReplaceCategory(categories, row);
    }

    /** `categoryRepository.delete` of a category no sweet points at. */
    method DeleteCategory(id: int)
      requires Valid()
      requires forall s :: s in sweets ==> s.categoryId != id
      modifies this`categories
      ensures Valid()
      ensures categories == WithoutCategory(old(categories), id)
    {
      ghost var before := categories;
      FilterKeepsDistinct(categories, (c: CategoryRow) => c.id != id, (c: CategoryRow) => c.id);
      FilterKeepsDistinct(categories, (c: CategoryRow) => c.id != id, (c: CategoryRow) => c.name);
      categories := WithoutCategory(categories, id);
      forall s | s in sweets ensures CategoryWithId(categories, s.categoryId).Some? {
        var c := CategoryWithId(before, s.categoryId).value;
        assert c in categories;
      }
    }
  }
}

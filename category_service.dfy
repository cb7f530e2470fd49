/** The category operations of service/CategoryService.java over the catalog database.
    Category names stay unique through every write, and a category is deleted only
    once no sweet points at it. Every failed operation leaves the tables as they were. */
module CategoryServices {
  import opened Wrappers
  import opened Seqs
  import opened CatalogTables
  import opened CatalogStore
  import opened CategoryQueries

  /** The request body of a create or an update (dto/CategoryDto.java). */
  datatype CategoryDto = CategoryDto(name: string, description: string)

  /** `findById`. */
  function FindCategory(categories: seq<CategoryRow>, id: int): (r: Result<CategoryRow, CatalogError>)
    ensures r.Failure? <==> forall c :: c in categories ==> c.id != id
    ensures r.Failure? ==> r.error == CategoryNotFound(id)
    ensures r.Success? ==> r.value in categories && r.value.id == id
  {
    match CategoryWithId(categories, id)
    case None => Failure(CategoryNotFound(id))
    case Some(c) => Success(c)
  }

  /** `findByName`. */
  function FindCategoryByName(categories: seq<CategoryRow>, name: string): (r: Result<CategoryRow, CatalogError>)
    ensures r.Failure? <==> forall c :: c in categories ==> c.name != name
    ensures r.Failure? ==> r.error == CategoryNameNotFound(name)
    ensures r.Success? ==> r.value in categories && r.value.name == name
  {
    match FindByName(categories, name)
    case None => Failure(CategoryNameNotFound(name))
    case Some(c) => Success(c)
  }

  /** `isCategoryNameAvailable`: no stored category carries the name. */
  function IsCategoryNameAvailable(categories: seq<CategoryRow>, name: string): (r: bool)
    ensures r <==> forall c :: c in categories ==> c.name != name
    ensures r <==> FindCategoryByName(categories, name).Failure?
  {
    !ExistsByName(categories, name)
  }

  /** `updateCategory` on the stored `category`: the name and description of the body
      replace the category's. A new name already stored is refused; keeping the
      category's own name is never a conflict. */
  function Renamed(category: CategoryRow, dto: CategoryDto, categories: seq<CategoryRow>)
    : (r: Result<CategoryRow, CatalogError>)
    ensures r.Failure? <==> category.name != dto.name && !IsCategoryNameAvailable(categories, dto.name)
    ensures r.Failure? ==> r.error == CategoryAlreadyExists(dto.name)
    ensures r.Success? ==> r.value == CategoryRow(category.id, dto.name, dto.description)
  {
    if category.name != dto.name && ExistsByName(categories, dto.name) then
      Failure(CategoryAlreadyExists(dto.name))
    else
      Success(CategoryRow(category.id, dto.name, dto.description))
  }

  /** In a table with unique ids and names, an update is refused exactly when another
      category carries the new name. */
  lemma RenameConflictIsAnotherCategory(category: CategoryRow, dto: CategoryDto, categories: seq<CategoryRow>)
    requires UniqueCategoryIds(categories) && UniqueCategoryNames(categories) && category in categories
    ensures Renamed(category, dto, categories).Failure? <==>
      exists c :: c in categories && c.id != category.id && c.name == dto.name
  {
    if exists c :: c in categories && c.id != category.id && c.name == dto.name {
      var c :| c in categories && c.id != category.id && c.name == dto.name;
      var i :| 0 <= i < |categories| && categories[i] == c;
      var j :| 0 <= j < |categories| && categories[j] == category;
      assert i != j;
    }
  }

  /** A sweet points at the category: its `sweets` list, the rows whose category is
      `id`, is not empty. */
  predicate HasSweets(sweets: seq<SweetRow>, id: int)
    ensures HasSweets(sweets, id) <==> Filter(sweets, (s: SweetRow) => s.categoryId == id) != []
  {
    var list := Filter(sweets, (s: SweetRow) => s.categoryId == id);
    assert list != [] ==> list[0] in list;
    exists s :: s in sweets && s.categoryId == id
  }

  class CategoryService {
    const db: Catalog

    constructor (db: Catalog)
      ensures this.db == db
    {
      this.db := db;
    }

    /** `createCategory(dto)`. */
    method CreateCategory(dto: CategoryDto) returns (r: Result<CategoryRow, CatalogError>)
      requires db.Valid()
      modifies db`categories, db`nextCategoryId
      ensures db.Valid()
      ensures r.Success? <==> old(IsCategoryNameAvailable(db.categories, dto.name))
      ensures r.Failure? ==> r == Failure(CategoryAlreadyExists(dto.name))
      ensures r.Failure? ==> db.categories == old(db.categories) && db.nextCategoryId == old(db.nextCategoryId)
      ensures r.Success? ==>
        && r.value == CategoryRow(old(db.nextCategoryId), dto.name, dto.description)
        && db.categories == old(db.categories) + [r.value]
        && FindCategoryByName(db.categories, dto.name) == Success(r.value)
        && FindCategory(db.categories, r.value.id) == Success(r.value)
    {
      if ExistsByName(db.categories, dto.name) {
        return Failure(CategoryAlreadyExists(dto.name));
      }
      var saved := db.InsertCategory(dto.name, dto.description);
      UniqueNameFindsTheRow(db.categories, saved);
      CategoryIdFindsTheRow(db.categories, saved);
      return Success(saved);
    }

    /** `updateCategory(id, dto)`. */
    method UpdateCategory(id: int, dto: CategoryDto) returns (r: Result<CategoryRow, CatalogError>)
      requires db.Valid()
      modifies db`categories
      ensures db.Valid()
      ensures old(FindCategory(db.categories, id)).Failure? ==> r == Failure(CategoryNotFound(id))
      ensures old(FindCategory(db.categories, id)).Success? ==>
        r == Renamed(old(FindCategory(db.categories, id)).value, dto, old(db.categories))
      ensures r.Success? ==> db.categories == ReplaceCategory(old(db.categories), r.value)
      ensures r.Failure? ==> db.categories == old(db.categories)
    {
      var found := FindCategory(db.categories, id);
      if found.Failure? {
        return Failure(found.error);
      }
      r := Renamed(found.value, dto, db.categories);
      if r.Success? {
        RenameConflictIsAnotherCategory(found.value, dto, db.categories);
        db.SaveCategory(r.value);
      }
    }

    /** `deleteCategory(id)`: refused while any sweet points at the category. */
    method DeleteCategory(id: int) returns (r: Result<(), CatalogError>)
      requires db.Valid()
      modifies db`categories
      ensures db.Valid()
      ensures old(FindCategory(db.categories, id)).Failure? ==> r == Failure(CategoryNotFound(id))
      ensures old(FindCategory(db.categories, id)).Success? && old(HasSweets(db.sweets, id)) ==>
        r == Failure(CategoryHasSweets)
      ensures r.Success? <==> old(FindCategory(db.categories, id)).Success? && !old(HasSweets(db.sweets, id))
      ensures r.Success? ==> db.categories == WithoutCategory(old(db.categories), id)
      ensures r.Success? ==> FindCategory(db.categories, id).Failure?
      ensures r.Failure? ==> db.categories == old(db.categories)
    {
      var found := FindCategory(db.categories, id);
      if found.Failure? {
        return Failure(found.error);
      }
      if HasSweets(db.sweets, id) {
        return Failure(CategoryHasSweets);
      }
      db.DeleteCategory(id);
      return Success(());
    }
  }
}

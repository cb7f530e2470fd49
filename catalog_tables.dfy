/** The `categories` and `sweets` tables behind SweetRepository and CategoryRepository:
    one value per stored row, the keys the tables enforce, and lookups by primary key. */
module CatalogTables {
  import opened Wrappers
  import opened Seqs
  import opened CatalogEntities
  import Clock = RefreshTokenEntity

  /** One row of `categories`; its sweets are the rows of `sweets` pointing at it. */
  datatype CategoryRow = CategoryRow(id: int, name: string, description: string)

  /** One row of `sweets`. The quantity column is NOT NULL, and the category column is a
      NOT NULL foreign key into `categories`. */
  datatype SweetRow = SweetRow(
    id: int,
    name: string,
    description: string,
    price: Cents,
    quantity: int,
    imageUrl: string,
    categoryId: int,
    createdAt: Clock.Instant)

  predicate UniqueSweetIds(rows: seq<SweetRow>)
  {
    DistinctBy(rows, (s: SweetRow) => s.id)
  }

  predicate UniqueCategoryIds(rows: seq<CategoryRow>)
  {
    DistinctBy(rows, (c: CategoryRow) => c.id)
  }

  /** The `name` column of `categories` is unique. */
  predicate UniqueCategoryNames(rows: seq<CategoryRow>)
  {
    DistinctBy(rows, (c: CategoryRow) => c.name)
  }

  /** `sweetRepository.findById`. */
  function SweetWithId(rows: seq<SweetRow>, id: int): (r: Option<SweetRow>)
    ensures r.Some? <==> exists s :: s in rows && s.id == id
    ensures r.Some? ==> r.value in rows && r.value.id == id
  {
    var m := Filter(rows, (s: SweetRow) => s.id == id);
    if m == [] then None else Some(m[0])
  }

  /** `categoryRepository.findById`. */
  function CategoryWithId(rows: seq<CategoryRow>, id: int): (r: Option<CategoryRow>)
    ensures r.Some? <==> exists c :: c in rows && c.id == id
    ensures r.Some? ==> r.value in rows && r.value.id == id
  {
    var m := Filter(rows, (c: CategoryRow) => c.id == id);
    if m == [] then None else Some(m[0])
  }

  /** The table after `save` of an existing sweet: the row with `row`'s id is replaced,
      every other row stays as it was and where it was. */
  function ReplaceSweet(rows: seq<SweetRow>, row: SweetRow): (r: seq<SweetRow>)
    ensures |r| == |rows|
    ensures forall i :: 0 <= i < |r| ==> r[i] == if rows[i].id == row.id then row else rows[i]
  {
    if rows == [] then []
    else (if rows[0].id == row.id then [row] else [rows[0]]) + ReplaceSweet(rows[1..], row)
  }

  /** The table after `save` of an existing category. */
  function ReplaceCategory(rows: seq<CategoryRow>, row: CategoryRow): (r: seq<CategoryRow>)
    ensures |r| == |rows|
    ensures forall i :: 0 <= i < |r| ==> r[i] == if rows[i].id == row.id then row else rows[i]
  {
    if rows == [] then []
    else (if rows[0].id == row.id then [row] else [rows[0]]) + ReplaceCategory(rows[1..], row)
  }

  /** With unique ids, a lookup by id finds the one sweet with that id. */
  lemma SweetIdFindsTheRow(rows: seq<SweetRow>, s: SweetRow)
    requires UniqueSweetIds(rows) && s in rows
    ensures SweetWithId(rows, s.id) == Some(s)
  {
    var m := Filter(rows, (x: SweetRow) => x.id == s.id);
    var k :| 0 <= k < |rows| && rows[k] == s;
    assert m[0] in rows;
    var j :| 0 <= j < |rows| && rows[j] == m[0];
    assert j == k;
  }

  /** With unique ids, a lookup by id finds the one category with that id. */
  lemma CategoryIdFindsTheRow(rows: seq<CategoryRow>, c: CategoryRow)
    requires UniqueCategoryIds(rows) && c in rows
    ensures CategoryWithId(rows, c.id) == Some(c)
  {
    var m := Filter(rows, (x: CategoryRow) => x.id == c.id);
    var k :| 0 <= k < |rows| && rows[k] == c;
    assert m[0] in rows;
    var j :| 0 <= j < |rows| && rows[j] == m[0];
    assert j == k;
  }

  /** Replacing a stored sweet by a row with the same id keeps ids unique, and the
      replaced row is then what a lookup by that id finds. */
  lemma ReplaceSweetKeepsIds(rows: seq<SweetRow>, row: SweetRow)
    requires UniqueSweetIds(rows) && exists s :: s in rows && s.id == row.id
    ensures UniqueSweetIds(ReplaceSweet(rows, row))
    ensures row in ReplaceSweet(rows, row)
    ensures SweetWithId(ReplaceSweet(rows, row), row.id) == Some(row)
  {
    var r := ReplaceSweet(rows, row);
    ReplaceSweetKeepsIdColumn(rows, row);
    var s :| s in rows && s.id == row.id;
    var k :| 0 <= k < |rows| && rows[k] == s;
    assert r[k] == row;
    SweetIdFindsTheRow(r, row);
  }

  lemma ReplaceSweetKeepsIdColumn(rows: seq<SweetRow>, row: SweetRow)
    requires UniqueSweetIds(rows)
    ensures UniqueSweetIds(ReplaceSweet(rows, row))
  {
    var r := ReplaceSweet(rows, row);
    assert forall i :: 0 <= i < |r| ==> r[i].id == rows[i].id;
  }

  /** Putting the original row back after a replacement restores the table. */
  lemma ReplaceSweetRestores(rows: seq<SweetRow>, changed: SweetRow, original: SweetRow)
    requires UniqueSweetIds(rows) && original in rows && changed.id == original.id
    ensures ReplaceSweet(ReplaceSweet(rows, changed), original) == rows
  {
    forall x | x in rows && x.id == original.id ensures x == original {
      SweetIdFindsTheRow(rows, x);
      SweetIdFindsTheRow(rows, original);
    }
    ReplaceTwiceRestores(rows, changed, original);
  }

  /** When `original` is the only row with its id, replacing that row and putting
      `original` back gives the table back. */
  lemma ReplaceTwiceRestores(rows: seq<SweetRow>, changed: SweetRow, original: SweetRow)
    requires changed.id == original.id
    requires forall x :: x in rows && x.id == original.id ==> x == original
    ensures ReplaceSweet(ReplaceSweet(rows, changed), original) == rows
  {
    var once := ReplaceSweet(rows, changed);
    var back := ReplaceSweet(once, original);
    forall i | 0 <= i < |rows| ensures back[i] == rows[i] {
      var before, between, after := rows[i], once[i], back[i];
      if before.id == original.id {
        assert before in rows;
        assert between == changed && after == original;
      } else {
        assert between == before && after == between;
      }
    }
  }

  /** Replacing a stored category by a row with the same id keeps ids unique. */
  lemma ReplaceCategoryKeepsIds(rows: seq<CategoryRow>, row: CategoryRow)
    requires UniqueCategoryIds(rows) && exists c :: c in rows && c.id == row.id
    ensures UniqueCategoryIds(ReplaceCategory(rows, row))
    ensures row in ReplaceCategory(rows, row)
  {
    var r := ReplaceCategory(rows, row);
    ReplaceCategoryKeepsIdColumn(rows, row);
    var c :| c in rows && c.id == row.id;
    var k :| 0 <= k < |rows| && rows[k] == c;
    assert r[k] == row;
  }

  lemma ReplaceCategoryKeepsIdColumn(rows: seq<CategoryRow>, row: CategoryRow)
    requires UniqueCategoryIds(rows)
    ensures UniqueCategoryIds(ReplaceCategory(rows, row))
  {
    var r := ReplaceCategory(rows, row);
    assert forall i :: 0 <= i < |r| ==> r[i].id == rows[i].id;
  }
}

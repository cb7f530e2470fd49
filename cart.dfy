/** The shopping cart of contexts/CartContext.js: a list of entries, one per sweet id,
    each a copy of the sweet with a quantity. Every operation computes the next list
    from the previous one. */
module Cart {
  import opened Wrappers
  import opened Seqs
  import opened CatalogEntities

  /** The fields of a sweet the cart carries along (`...sweet`). */
  datatype CartSweet = CartSweet(id: int, name: string, price: Cents)

  datatype CartItem = CartItem(sweet: CartSweet, quantity: int)

  /** The quantity `addToCart` uses when the caller gives none. */
  const DefaultQuantity: int := 1

  predicate UniqueIds(items: seq<CartItem>)
  {
    forall i, j :: 0 <= i < j < |items| ==> items[i].sweet.id != items[j].sweet.id
  }

  predicate HasId(items: seq<CartItem>, id: int)
  {
    exists i :: 0 <= i < |items| && items[i].sweet.id == id
  }

  /** `getTotalItems`: the sum of the quantities. */
  function TotalItems(items: seq<CartItem>): (r: int)
    ensures (forall i :: 0 <= i < |items| ==> items[i].quantity >= 0) ==> r >= 0
    ensures items == [] ==> r == 0
  {
    if items == [] then 0 else items[0].quantity + TotalItems(items[1..])
  }

  /** The entries with that id, counted. */
  function Count(items: seq<CartItem>, id: int): (r: nat)
    ensures r <= |items|
    ensures r == 0 <==> !HasId(items, id)
  {
    if items == [] then 0
    else (if items[0].sweet.id == id then 1 else 0) + Count(items[1..], id)
  }

  /** The entries with that id get `amount` more; the others stay as they are. */
  function Bumped(items: seq<CartItem>, id: int, amount: int): (r: seq<CartItem>)
    ensures |r| == |items|
    ensures forall i :: 0 <= i < |r| ==>
      r[i] == if items[i].sweet.id == id then items[i].(quantity := items[i].quantity + amount) else items[i]
  {
    if items == [] then []
    else
      [if items[0].sweet.id == id then items[0].(quantity := items[0].quantity + amount) else items[0]]
      + Bumped(items[1..], id, amount)
  }

  /** The entries with that id get quantity `quantity`; the others stay as they are. */
  function Reassigned(items: seq<CartItem>, id: int, quantity: int): (r: seq<CartItem>)
    ensures |r| == |items|
    ensures forall i :: 0 <= i < |r| ==>
      r[i] == if items[i].sweet.id == id then items[i].(quantity := quantity) else items[i]
  {
    if items == [] then []
    else
      [if items[0].sweet.id == id then items[0].(quantity := quantity) else items[0]]
      + Reassigned(items[1..], id, quantity)
  }

  /** `addToCart(sweet, quantity)`: an entry for the sweet already in the cart gets
      the amount added, keeping its own copy of the sweet; otherwise one entry is
      appended at the end. The amount defaults to one. */
  function AddToCart(items: seq<CartItem>, sweet: CartSweet, quantity: Option<int>): (r: seq<CartItem>)
    ensures var q := if quantity.Some? then quantity.value else DefaultQuantity;
      HasId(items, sweet.id) ==> r == Bumped(items, sweet.id, q)
    ensures var q := if quantity.Some? then quantity.value else DefaultQuantity;
      !HasId(items, sweet.id) ==> r == items + [CartItem(sweet, q)]
    ensures HasId(r, sweet.id)
  {
    var q := if quantity.Some? then quantity.value else DefaultQuantity;
    if HasId(items, sweet.id) then
      var i :| 0 <= i < |items| && items[i].sweet.id == sweet.id;
      assert Bumped(items, sweet.id, q)[i].sweet.id == sweet.id;
      Bumped(items, sweet.id, q)
    else
      assert (items + [CartItem(sweet, q)])[|items|].sweet.id == sweet.id;
      items + [CartItem(sweet, q)]
  }

  /** `removeFromCart(id)`: the entries without that id, in their order. */
  function RemoveFromCart(items: seq<CartItem>, id: int): (r: seq<CartItem>)
    ensures forall x :: x in r <==> x in items && x.sweet.id != id
    ensures Subsequence(r, items)
    ensures !HasId(r, id)
  {
    FilterIsSubsequence(items, (x: CartItem) => x.sweet.id != id);
    Filter(items, (x: CartItem) => x.sweet.id != id)
  }

  /** `updateQuantity(id, quantity)`: a quantity of zero or less removes the sweet,
      any other sets the quantity of its entry. */
  function UpdateQuantity(items: seq<CartItem>, id: int, quantity: int): (r: seq<CartItem>)
    ensures quantity <= 0 ==> r == RemoveFromCart(items, id)
    ensures quantity > 0 ==> |r| == |items| && forall i :: 0 <= i < |r| ==>
      && r[i].sweet == items[i].sweet
      && r[i].quantity == (if items[i].sweet.id == id then quantity else items[i].quantity)
  {
    if quantity <= 0 then RemoveFromCart(items, id) else Reassigned(items, id, quantity)
  }

  /** `clearCart`. */
  function ClearCart(): (r: seq<CartItem>)
    ensures |r| == 0 && TotalItems(r) == 0
  {
    []
  }

  /** Setting the quantity of a sweet that is not in the cart changes nothing. */
  lemma {:induction false} UpdateAbsentIsNoOp(items: seq<CartItem>, id: int, quantity: int)
    requires quantity > 0 && !HasId(items, id)
    ensures UpdateQuantity(items, id, quantity) == items
  {
    var r := UpdateQuantity(items, id, quantity);
    forall i | 0 <= i < |r| ensures r[i] == items[i] {
      assert items[i].sweet.id != id;
    }
  }

  /** Every operation keeps one entry per sweet id. */
  lemma CartKeepsIdsUnique(items: seq<CartItem>, sweet: CartSweet, quantity: Option<int>, id: int, q: int)
    requires UniqueIds(items)
    ensures UniqueIds(AddToCart(items, sweet, quantity))
    ensures UniqueIds(RemoveFromCart(items, id))
    ensures UniqueIds(UpdateQuantity(items, id, q))
    ensures UniqueIds(ClearCart())
  {
    var added := AddToCart(items, sweet, quantity);
    forall i, j | 0 <= i < j < |added| ensures added[i].sweet.id != added[j].sweet.id {
      if j == |items| {
        assert !HasId(items, sweet.id);
        assert items[i].sweet.id != sweet.id;
      }
    }
    RemoveKeepsIdsUnique(items, id);
    if q <= 0 {
      RemoveKeepsIdsUnique(items, id);
    }
  }

  lemma {:induction false} RemoveKeepsIdsUnique(items: seq<CartItem>, id: int)
    requires UniqueIds(items)
    ensures UniqueIds(RemoveFromCart(items, id))
  {
    if items != [] {
      assert UniqueIds(items[1..]) by {
        forall i, j | 0 <= i < j < |items[1..]| ensures items[1..][i].sweet.id != items[1..][j].sweet.id {
          assert items[1..][i] == items[i + 1] && items[1..][j] == items[j + 1];
        }
      }
      RemoveKeepsIdsUnique(items[1..], id);
      var rest := RemoveFromCart(items[1..], id);
      assert forall x :: x in rest ==> x.sweet.id != items[0].sweet.id by {
        forall x | x in rest ensures x.sweet.id != items[0].sweet.id {
          var k :| 0 <= k < |items[1..]| && items[1..][k] == x;
          assert items[k + 1] == x;
        }
      }
      if items[0].sweet.id != id {
        var r := RemoveFromCart(items, id);
        assert r == [items[0]] + rest;
        forall i, j | 0 <= i < j < |r| ensures r[i].sweet.id != r[j].sweet.id {
          if i == 0 {
            assert r[j] == rest[j - 1] && rest[j - 1] in rest;
          } else {
            assert r[i] == rest[i - 1] && r[j] == rest[j - 1];
          }
        }
      }
    }
  }

  /** Adding `amount` to the one entry with the id, if any, grows the total by
      `amount`, and not at all when there is none. */
  lemma {:induction false} BumpedTotal(items: seq<CartItem>, id: int, amount: int)
    requires Count(items, id) <= 1
    ensures TotalItems(Bumped(items, id, amount)) == TotalItems(items) + (if HasId(items, id) then amount else 0)
  {
    if items != [] {
      var b := Bumped(items, id, amount);
      var tail := items[1..];
      BumpedTotal(tail, id, amount);
      assert b[1..] == Bumped(tail, id, amount);
      if items[0].sweet.id != id {
        HasIdPastHead(items, id);
      }
    }
  }

  /** Past a head with another id, the id occurs in the cart exactly when it occurs in
      the rest. */
  lemma HasIdPastHead(items: seq<CartItem>, id: int)
    requires items != [] && items[0].sweet.id != id
    ensures HasId(items, id) == HasId(items[1..], id)
  {
    var tail := items[1..];
    if HasId(items, id) {
      var k :| 0 <= k < |items| && items[k].sweet.id == id;
      assert tail[k - 1].sweet.id == id;
    }
    if HasId(tail, id) {
      var k :| 0 <= k < |tail| && tail[k].sweet.id == id;
      assert items[k + 1].sweet.id == id;
    }
  }

  /** Appending an entry grows the total by its quantity. */
  lemma {:induction false} AppendTotal(items: seq<CartItem>, item: CartItem)
    ensures TotalItems(items + [item]) == TotalItems(items) + item.quantity
  {
    if items != [] {
      assert (items + [item])[1..] == items[1..] + [item];
      AppendTotal(items[1..], item);
    }
  }

  /** A sweet present in a cart with unique ids has exactly one entry. */
  lemma {:induction false} UniquePresentCountsOnce(items: seq<CartItem>, id: int)
    requires UniqueIds(items) && HasId(items, id)
    ensures Count(items, id) == 1
  {
    var tail := items[1..];
    assert UniqueIds(tail) by {
      forall i, j | 0 <= i < j < |tail| ensures tail[i].sweet.id != tail[j].sweet.id {
        assert tail[i] == items[i + 1] && tail[j] == items[j + 1];
      }
    }
    if items[0].sweet.id == id {
      assert !HasId(tail, id) by {
        forall k | 0 <= k < |tail| ensures tail[k].sweet.id != id {
          assert tail[k] == items[k + 1];
        }
      }
    } else {
      var k :| 0 <= k < |items| && items[k].sweet.id == id;
      assert tail[k - 1].sweet.id == id;
      UniquePresentCountsOnce(tail, id);
    }
  }

  /** In a cart with unique ids, adding `q` of a sweet grows `getTotalItems` by exactly
      `q`, whether the sweet was in the cart or not. */
  lemma AddToCartGrowsTotal(items: seq<CartItem>, sweet: CartSweet, quantity: Option<int>)
    requires UniqueIds(items)
    ensures TotalItems(AddToCart(items, sweet, quantity))
      == TotalItems(items) + (if quantity.Some? then quantity.value else DefaultQuantity)
  {
    var q := if quantity.Some? then quantity.value else DefaultQuantity;
    if HasId(items, sweet.id) {
      UniquePresentCountsOnce(items, sweet.id);
      BumpedTotal(items, sweet.id, q);
    } else {
      AppendTotal(items, CartItem(sweet, q));
    }
  }

  /** Removing a sweet after adding it leaves the same cart as removing it straight
      away: an add touches no other entry. */
  lemma {:induction false} RemoveUndoesAdd(items: seq<CartItem>, sweet: CartSweet, quantity: Option<int>)
    ensures RemoveFromCart(AddToCart(items, sweet, quantity), sweet.id) == RemoveFromCart(items, sweet.id)
  {
    var q := if quantity.Some? then quantity.value else DefaultQuantity;
    if HasId(items, sweet.id) {
      RemoveIgnoresBump(items, sweet.id, q);
    } else {
      FilterAppend(items, [CartItem(sweet, q)], (x: CartItem) => x.sweet.id != sweet.id);
    }
  }

  lemma {:induction false} RemoveIgnoresBump(items: seq<CartItem>, id: int, amount: int)
    ensures RemoveFromCart(Bumped(items, id, amount), id) == RemoveFromCart(items, id)
  {
    if items != [] {
      RemoveIgnoresBump(items[1..], id, amount);
      assert Bumped(items, id, amount)[1..] == Bumped(items[1..], id, amount);
    }
  }
}

/**
 * The in-memory REST service for "items": a list of records
 * `{id, name, description}` and a counter for the next id, behind
 * GET/POST /items and GET/PUT/DELETE /items/<id>.
 */
module ItemsApi {
  import opened Wrappers
  import opened Json
  import opened Decimal
  import Seqs

  datatype Item = Item(id: int, name: Value, description: Value)

  /** What a handler answers: a JSON body, an empty body, or an `abort` page with its description. */
  datatype Body = ItemList(items: seq<Item>) | OneItem(item: Item) | NoContent | Aborted(description: string)

  datatype Response = Response(status: int, body: Body)

  const Ok := 200
  const Created := 201
  const Deleted := 204
  const BadRequest := 400
  const NotFoundStatus := 404

  const MissingNameText := "Požadavek musí obsahovat JSON s klíčem 'name'."

  const NotFoundPrefix := "Položka s ID "
  const NotFoundSuffix := " nebyla nalezena."

  /** The `abort(404, ...)` description: the fixed prefix, the id in decimal, the fixed sentence. */
  function NotFoundText(id: int): (m: string)
    ensures |m| == |NotFoundPrefix| + |ShowInt(id)| + |NotFoundSuffix|
    ensures m[..|NotFoundPrefix|] == NotFoundPrefix
    ensures m[|NotFoundPrefix|..|m| - |NotFoundSuffix|] == ShowInt(id)
    ensures m[|m| - |NotFoundSuffix|..] == NotFoundSuffix
  {
    var m := NotFoundPrefix + ShowInt(id) + NotFoundSuffix;
    assert m == NotFoundPrefix + (ShowInt(id) + NotFoundSuffix);
    m
  }

  /**
   * The id can be read back from the not-found description: the digit run
   * right after the prefix (after a '-' for a negative id) is its magnitude.
   */
  lemma NotFoundTextNamesId(id: int)
    ensures var m := NotFoundText(id);
      && (id >= 0 ==> DigitsValue(LeadingDigits(m[|NotFoundPrefix|..])) == id)
      && (id < 0 ==> m[|NotFoundPrefix|] == '-' && DigitsValue(LeadingDigits(m[|NotFoundPrefix| + 1..])) == -id)
  {
    var m := NotFoundText(id);
    var magnitude := if id < 0 then -id else id;
    var digits := ShowNat(magnitude);
    var sign := if id < 0 then "-" else "";
    assert ShowInt(id) == sign + digits;
    var rest := digits + NotFoundSuffix;
    assert m == NotFoundPrefix + sign + rest;
    assert m[|NotFoundPrefix|..] == sign + rest;
    assert m[|NotFoundPrefix| + |sign|..] == rest;
    assert NotFoundSuffix[0] == ' ';
    LeadingDigitsOfPrefix(digits, NotFoundSuffix);
    DigitsValueOfShowNat(magnitude);
  }

  /** The two records the service starts with. */
  const InitialItems := [
    Item(1, Str("Položka 1"), Str("Popis první položky")),
    Item(2, Str("Položka 2"), Str("Popis druhé položky"))
  ]

  /**
   * `request.json` is truthy and has a "name" member. A body with a key is
   * truthy, so the test comes down to the key.
   */
  predicate HasName(body: Option<Object>)
    ensures HasName(body) <==> body.Some? && "name" in body.value
  {
    IsNonEmptyObject(body) && "name" in body.value
  }

  ghost predicate UniqueIds(items: seq<Item>)
  {
    forall i, j :: 0 <= i < j < |items| ==> items[i].id != items[j].id
  }

  ghost predicate IdsBelow(items: seq<Item>, bound: int)
  {
    forall i :: 0 <= i < |items| ==> items[i].id < bound
  }

  /** `next((item for item in items if item["id"] == id), None)`: the first record with that id. */
  function Lookup(items: seq<Item>, id: int): (r: Option<Item>)
    ensures r.Some? ==> r.value in items && r.value.id == id
    ensures r.None? <==> forall i :: 0 <= i < |items| ==> items[i].id != id
  {
    if items == [] then None
    else if items[0].id == id then Some(items[0])
    else Lookup(items[1..], id)
  }

  /** The `items` list after `DELETE /items/<id>`. */
  function WithoutId(items: seq<Item>, id: int): (r: seq<Item>)
    ensures |r| <= |items|
    ensures forall i :: 0 <= i < |r| ==> r[i].id != id
  {
    Seqs.FilterAllKept(items, (it: Item) => it.id != id);
    Seqs.Filter(items, (it: Item) => it.id != id)
  }

  /** With unique ids, the record at position k is the one found for its id. */
  lemma {:induction false} LookupAt(items: seq<Item>, k: nat)
    requires UniqueIds(items) && k < |items|
    ensures Lookup(items, items[k].id) == Some(items[k])
  {
    if k > 0 {
      assert items[0].id != items[k].id;
      assert UniqueIds(items[1..]) by {
        forall i, j | 0 <= i < j < |items[1..]|
          ensures items[1..][i].id != items[1..][j].id
        {
          assert items[1..][i] == items[i + 1] && items[1..][j] == items[j + 1];
        }
      }
      LookupAt(items[1..], k - 1);
      assert items[1..][k - 1] == items[k];
    }
  }

  /** Appending a record only adds an answer for an id nobody had. */
  lemma {:induction false} LookupAfterAppend(items: seq<Item>, x: Item, id: int)
    ensures Lookup(items + [x], id) ==
      if Lookup(items, id).Some? then Lookup(items, id) else if x.id == id then Some(x) else None
  {
    if items == [] {
      assert items + [x] == [x];
    } else {
      assert (items + [x])[0] == items[0];
      assert (items + [x])[1..] == items[1..] + [x];
      LookupAfterAppend(items[1..], x, id);
    }
  }

  /** After the delete filter, the deleted id is gone and every other id is found as before. */
  lemma {:induction false} LookupAfterRemove(items: seq<Item>, id: int, other: int)
    ensures Lookup(WithoutId(items, id), other) == if other == id then None else Lookup(items, other)
  {
    if items != [] {
      LookupAfterRemove(items[1..], id, other);
      var keep := (it: Item) => it.id != id;
      assert WithoutId(items, id) == (if keep(items[0]) then [items[0]] else []) + WithoutId(items[1..], id);
      if keep(items[0]) {
        var rest := WithoutId(items[1..], id);
        assert ([items[0]] + rest)[0] == items[0];
        assert ([items[0]] + rest)[1..] == rest;
      } else {
        assert [] + WithoutId(items[1..], id) == WithoutId(items[1..], id);
      }
    }
  }

  /** Replacing a record by one with the same id changes the answer for that id only. */
  lemma {:induction false} LookupAfterReplace(items: seq<Item>, k: nat, x: Item, id: int)
    requires UniqueIds(items) && k < |items| && x.id == items[k].id
    ensures Lookup(items[k := x], id) == if id == x.id then Some(x) else Lookup(items, id)
  {
    var updated := items[k := x];
    assert UniqueIds(updated);
    if id == x.id {
      LookupAt(updated, k);
    } else if Lookup(items, id).None? {
      assert forall i :: 0 <= i < |updated| ==> updated[i].id != id;
    } else {
      var j :| 0 <= j < |items| && items[j] == Lookup(items, id).value;
      assert j != k;
      LookupAt(items, j);
      LookupAt(updated, j);
    }
  }

  /** With unique ids, deleting an existing id removes that one record and keeps the rest in order. */
  lemma RemoveUnique(items: seq<Item>, k: nat)
    requires UniqueIds(items) && k < |items|
    ensures WithoutId(items, items[k].id) == items[..k] + items[k + 1..]
  {
    var id := items[k].id;
    Seqs.FilterDropsOne(items, (it: Item) => it.id != id, k);
  }

  /** The service's state: the `items` list and the `next_id` counter. */
  class Store {
    var items: seq<Item>
    var nextId: int

    /** Ids are unique and all below the counter, so the counter is always a fresh id. */
    ghost predicate Valid()
      reads this
    {
      UniqueIds(items) && IdsBelow(items, nextId)
    }

    constructor ()
      ensures Valid() && items == InitialItems && nextId == 3
    {
      items := InitialItems;
      nextId := 3;
    }

    /** The linear search behind `next(...)`: the position of the first record with that id. */
    method Find(id: int) returns (k: Option<nat>)
      ensures k.Some? ==> k.value < |items| && items[k.value].id == id
                          && forall j :: 0 <= j < k.value ==> items[j].id != id
      ensures k.None? ==> forall j :: 0 <= j < |items| ==> items[j].id != id
    {
      var i := 0;
      while i < |items|
        invariant 0 <= i <= |items|
        invariant forall j :: 0 <= j < i ==> items[j].id != id
      {
        if items[i].id == id {
          return Some(i);
        }
        i := i + 1;
      }
      return None;
    }

    /** GET /items: every record, in list order, with 200. */
    method GetItems() returns (r: Response)
      ensures r == Response(Ok, ItemList(items))
    {
      r := Response(Ok, ItemList(items));
    }

    /** GET /items/<id>: the record with that id and 200, or 404. */
    method GetItem(id: int) returns (r: Response)
      ensures Lookup(items, id).Some? ==> r == Response(Ok, OneItem(Lookup(items, id).value))
      ensures Lookup(items, id).None? ==> r == Response(NotFoundStatus, Aborted(NotFoundText(id)))
    {
      var k := Find(id);
      if k.Some? {
        LookupFirst(items, k.value);
        r := Response(Ok, OneItem(items[k.value]));
      } else {
        r := Response(NotFoundStatus, Aborted(NotFoundText(id)));
      }
    }

    /**
     * POST /items: a body without "name" (or no body at all) is refused with
     * 400 and nothing changes; otherwise one record with the counter's id is
     * appended, the counter moves on by one, and the record comes back with 201.
     */
    method CreateItem(body: Option<Object>) returns (r: Response)
      requires Valid()
      modifies this
      ensures Valid()
      ensures !HasName(body) ==>
        r == Response(BadRequest, Aborted(MissingNameText)) && items == old(items) && nextId == old(nextId)
      ensures HasName(body) ==>
        var created := Item(old(nextId), body.value["name"], Get(body.value, "description", Str("")));
        && r == Response(Created, OneItem(created))
        && items == old(items) + [created]
        && nextId == old(nextId) + 1
        && Lookup(items, created.id) == Some(created)
    {
      if !HasName(body) {
        return Response(BadRequest, Aborted(MissingNameText));
      }
      var created := Item(nextId, body.value["name"], Get(body.value, "description", Str("")));
      LookupAfterAppend(items, created, created.id);
      items := items + [created];
      nextId := nextId + 1;
      r := Response(Created, OneItem(created));
    }

    /**
     * PUT /items/<id>: 404 for an unknown id (checked before the body), 400
     * for a body without "name"; otherwise the record's name is replaced,
     * its description replaced when the body has one, and nothing else changes.
     */
    method UpdateItem(id: int, body: Option<Object>) returns (r: Response)
      requires Valid()
      modifies this
      ensures Valid() && nextId == old(nextId)
      ensures Lookup(old(items), id).None? ==>
        r == Response(NotFoundStatus, Aborted(NotFoundText(id))) && items == old(items)
      ensures Lookup(old(items), id).Some? && !HasName(body) ==>
        r == Response(BadRequest, Aborted(MissingNameText)) && items == old(items)
      ensures Lookup(old(items), id).Some? && HasName(body) ==>
        var before := Lookup(old(items), id).value;
        var after := Item(id, body.value["name"], Get(body.value, "description", before.description));
        && r == Response(Ok, OneItem(after))
        && |items| == |old(items)|
        && (forall i :: 0 <= i < |items| ==> items[i] == if old(items)[i].id == id then after else old(items)[i])
        && (forall other :: Lookup(items, other) == if other == id then Some(after) else Lookup(old(items), other))
    {
      var k := Find(id);
      if k.None? {
        return Response(NotFoundStatus, Aborted(NotFoundText(id)));
      }
      if !HasName(body) {
        return Response(BadRequest, Aborted(MissingNameText));
      }
      var i := k.value;
      LookupFirst(items, i);
      var after := Item(id, body.value["name"], Get(body.value, "description", items[i].description));
      forall other ensures Lookup(items[i := after], other) == if other == id then Some(after) else Lookup(items, other) {
        LookupAfterReplace(items, i, after, other);
      }
      items := items[i := after];
      r := Response(Ok, OneItem(after));
    }

    /**
     * DELETE /items/<id>: 404 for an unknown id; otherwise the record is
     * filtered out, the others keep their order, the counter is left alone
     * (ids are never reused) and the answer is an empty 204.
     */
    method DeleteItem(id: int) returns (r: Response)
      requires Valid()
      modifies this
      ensures Valid() && nextId == old(nextId)
      ensures Lookup(old(items), id).None? ==>
        r == Response(NotFoundStatus, Aborted(NotFoundText(id))) && items == old(items)
      ensures Lookup(old(items), id).Some? ==>
        && r == Response(Deleted, NoContent)
        && items == WithoutId(old(items), id)
        && |items| == |old(items)| - 1
        && (forall k :: 0 <= k < |old(items)| && old(items)[k].id == id ==> items == old(items)[..k] + old(items)[k + 1..])
        && (forall other :: Lookup(items, other) == if other == id then None else Lookup(old(items), other))
    {
      var k := Find(id);
      if k.None? {
        return Response(NotFoundStatus, Aborted(NotFoundText(id)));
      }
      var i := k.value;
      RemoveUnique(items, i);
      forall j | 0 <= j < |items| && items[j].id == id
        ensures WithoutId(items, id) == items[..j] + items[j + 1..]
      {
        assert j == i;
      }
      forall other ensures Lookup(WithoutId(items, id), other) == if other == id then None else Lookup(items, other) {
        LookupAfterRemove(items, id, other);
      }
      ghost var rest := items[..i] + items[i + 1..];
      assert UniqueIds(rest) && IdsBelow(rest, nextId) by {
        forall j | 0 <= j < |rest|
          ensures rest[j] == items[if j < i then j else j + 1]
        {
        }
      }
      items := WithoutId(items, id);
      r := Response(Deleted, NoContent);
    }
  }

  /** The position a search stops at holds the record Lookup answers with. */
  lemma {:induction false} LookupFirst(items: seq<Item>, k: nat)
    requires k < |items|
    requires forall j :: 0 <= j < k ==> items[j].id != items[k].id
    ensures Lookup(items, items[k].id) == Some(items[k])
  {
    if k > 0 {
      assert forall j :: 0 <= j < k - 1 ==> items[1..][j] == items[j + 1];
      LookupFirst(items[1..], k - 1);
      assert items[1..][k - 1] == items[k];
    }
  }
}

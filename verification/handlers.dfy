/**
  The five request handlers of the product service (`GET /products`,
  `GET /products/:id`, `POST /products`, `PATCH /products/:id`,
  `DELETE /products/:id`), each one atomic step on the collection that
  yields the next collection and exactly one response.
 */
module Handlers {
  import opened ProductStore

  const NameRequired := "The name is required."
  const GetNotFound := "The product could not be found"
  const UpdateNotFound := "The product you want to update could not be found"
  const DeleteNotFound := "The product you want to delete could not be found"
  const SuccessMarker := "success"

  /** The JSON envelope a handler sends. */
  datatype Body =
    | ProductsBody(products: seq<Product>)          // { products }
    | ProductBody(product: Product)                 // { product }
    | UpdatedBody(product: Product, status: string) // { product, status }
    | MessageBody(message: string)                  // { message }
    | NoBody                                        // empty 204 reply

  datatype Response = Response(status: nat, body: Body)

  /** The collection after the handler ran, and the one response it sent. */
  datatype Outcome = Outcome(store: Store, response: Response)

  /** JavaScript truthiness of the `name` request field, restricted to strings:
      an absent field and the empty string are falsy. */
  predicate Truthy(name: Option<string>) {
    name.Some? && name.value != ""
  }

  /** `GET /products`: the whole collection, in insertion order. */
  function ListProducts(s: Store): (r: Outcome)
    ensures r.store == s
    ensures r.response.status == 200
    ensures r.response.body.ProductsBody? && r.response.body.products == s
  {
    Outcome(s, Response(200, ProductsBody(s)))
  }

  /** `GET /products/:id`: the first product with that exact id, or 404. */
  function GetProduct(s: Store, id: string): (r: Outcome)
    ensures r.store == s
    ensures r.response.status == 200 <==> HasId(s, id)
    ensures HasId(s, id) ==>
      exists i :: IsFirstMatch(s, id, i) && r.response.body == ProductBody(s[i])
    ensures !HasId(s, id) ==> r.response == Response(404, MessageBody(GetNotFound))
  {
    match Find(s, id)
    case None => Outcome(s, Response(404, MessageBody(GetNotFound)))
    case Some(p) => Outcome(s, Response(200, ProductBody(p)))
  }

  /** `POST /products`: reject a falsy name, otherwise append `{newId, name}`.
      `newId` stands for the clock-derived id the service generates. */
  function CreateProduct(s: Store, newId: string, name: Option<string>): (r: Outcome)
    ensures !Truthy(name) ==> r == Outcome(s, Response(400, MessageBody(NameRequired)))
    ensures Truthy(name) ==>
      && |r.store| == |s| + 1
      && r.store[..|s|] == s
      && r.store[|s|] == Product(newId, name.value)
      && r.response == Response(201, ProductBody(r.store[|s|]))
  {
    if !Truthy(name) then
      Outcome(s, Response(400, MessageBody(NameRequired)))
    else
      var created := Product(newId, name.value);
      Outcome(s + [created], Response(201, ProductBody(created)))
  }

  /** `PATCH /products/:id`: copy the first matching record, replace its name
      when a truthy one is given, and write the copy back in place. */
  function UpdateProduct(s: Store, id: string, name: Option<string>): (r: Outcome)
    ensures |r.store| == |s|
    ensures !HasId(s, id) ==> r == Outcome(s, Response(404, MessageBody(UpdateNotFound)))
    ensures HasId(s, id) ==>
      exists i :: IsFirstMatch(s, id, i)
        && r.store[i] == Product(s[i].id, if Truthy(name) then name.value else s[i].name)
        && (forall j :: 0 <= j < |s| && j != i ==> r.store[j] == s[j])
        && r.response == Response(200, UpdatedBody(r.store[i], SuccessMarker))
  {
    var i := FindIndex(s, id);
    if i == -1 then
      Outcome(s, Response(404, MessageBody(UpdateNotFound)))
    else
      var copy := s[i];
      var updated := if Truthy(name) then copy.(name := name.value) else copy;
      Outcome(s[i := updated], Response(200, UpdatedBody(updated, SuccessMarker)))
  }

  /** `DELETE /products/:id`: splice out the first matching record, or 404. */
  function DeleteProduct(s: Store, id: string): (r: Outcome)
    ensures !HasId(s, id) ==> r == Outcome(s, Response(404, MessageBody(DeleteNotFound)))
    ensures HasId(s, id) ==>
      && |r.store| == |s| - 1
      && (exists i :: IsFirstMatch(s, id, i) && r.store == s[..i] + s[i + 1..])
      && r.response == Response(204, NoBody)
  {
    var i := FindIndex(s, id);
    if i == -1 then
      Outcome(s, Response(404, MessageBody(DeleteNotFound)))
    else
      Outcome(s[..i] + s[i + 1..], Response(204, NoBody))
  }

  // ---------------------------------------------------------------------------
  // Properties relating several handler calls
  // ---------------------------------------------------------------------------

  /** Creating a product under an id no earlier product carries makes it
      retrievable by that id. */
  lemma GetAfterCreate(s: Store, newId: string, name: Option<string>)
    requires Truthy(name) && !HasId(s, newId)
    ensures GetProduct(CreateProduct(s, newId, name).store, newId).response
            == Response(200, ProductBody(Product(newId, name.value)))
  {
  }

  /** Because lookup is first-match, a new product whose id collides with an
      earlier one is shadowed: get returns the earlier record. */
  lemma GetAfterCreateShadowed(s: Store, newId: string, name: Option<string>)
    requires Truthy(name) && HasId(s, newId)
    ensures GetProduct(CreateProduct(s, newId, name).store, newId).response
            == Response(200, ProductBody(s[FindIndex(s, newId)]))
  {
  }

  /** After a successful update, get on the same id returns the updated record. */
  lemma GetAfterUpdate(s: Store, id: string, name: Option<string>)
    requires HasId(s, id)
    ensures GetProduct(UpdateProduct(s, id, name).store, id).response
            == Response(200, ProductBody(UpdateProduct(s, id, name).response.body.product))
  {
  }

  /** An update without a truthy name writes back an identical copy. */
  lemma UpdateWithoutNameKeepsStore(s: Store, id: string, name: Option<string>)
    requires !Truthy(name)
    ensures UpdateProduct(s, id, name).store == s
  {
  }

  /** Sending the same update twice has the same effect as sending it once. */
  lemma UpdateIdempotent(s: Store, id: string, name: Option<string>)
    ensures var t := UpdateProduct(s, id, name).store;
            UpdateProduct(t, id, name).store == t
  {
  }

  /** A successful delete removes exactly one record carrying the id and keeps
      every other record, as a multiset, and the survivors' order. */
  lemma DeleteRemovesOne(s: Store, id: string)
    requires HasId(s, id)
    ensures var t := DeleteProduct(s, id).store;
      && CountId(t, id) == CountId(s, id) - 1
      && multiset(t) + multiset{s[FindIndex(s, id)]} == multiset(s)
  {
    var k := FindIndex(s, id);
    var t := DeleteProduct(s, id).store;
    var i :| IsFirstMatch(s, id, i) && t == s[..i] + s[i + 1..];
    FirstMatchUnique(s, id, i, k);
    CountIdRemoveAt(s, k, id);
    MultisetRemoveAt(s, k);
  }

  /** Repeating a delete that succeeded yields 404 and changes nothing,
      provided at most one record carried the id. */
  lemma RepeatDeleteNotFound(s: Store, id: string)
    requires HasId(s, id) && CountId(s, id) <= 1
    ensures var t := DeleteProduct(s, id).store;
      DeleteProduct(t, id) == Outcome(t, Response(404, MessageBody(DeleteNotFound)))
  {
    var t := DeleteProduct(s, id).store;
    DeleteRemovesOne(s, id);
    CountIdPositive(t, id);
  }

  /** When at least two records share an id, the repeated delete is not a
      404: it answers 204 and removes the next record carrying that id. */
  lemma RepeatDeleteWithDuplicateId(s: Store, id: string)
    requires CountId(s, id) >= 2
    ensures var t := DeleteProduct(s, id).store;
      && DeleteProduct(t, id).response == Response(204, NoBody)
      && CountId(DeleteProduct(t, id).store, id) == CountId(s, id) - 2
  {
    CountIdPositive(s, id);
    DeleteRemovesOne(s, id);
    var t := DeleteProduct(s, id).store;
    CountIdPositive(t, id);
    DeleteRemovesOne(t, id);
  }

  /** In a collection without repeated ids, repeating a successful delete
      answers 404 and changes nothing. */
  lemma RepeatDeleteUnderUniqueIds(s: Store, id: string)
    requires UniqueIds(s) && HasId(s, id)
    ensures var t := DeleteProduct(s, id).store;
      DeleteProduct(t, id) == Outcome(t, Response(404, MessageBody(DeleteNotFound)))
  {
    UniqueIdsCountAtMostOne(s, id);
    RepeatDeleteNotFound(s, id);
  }

  /** After a successful delete of the only record with an id, get on that
      id answers 404. */
  lemma GetAfterDelete(s: Store, id: string)
    requires HasId(s, id) && CountId(s, id) <= 1
    ensures GetProduct(DeleteProduct(s, id).store, id).response
            == Response(404, MessageBody(GetNotFound))
  {
    RepeatDeleteNotFound(s, id);
  }

  /** A create under a fresh id keeps ids unique; a refused one changes nothing. */
  lemma CreatePreservesUniqueIds(s: Store, newId: string, name: Option<string>)
    requires UniqueIds(s) && (Truthy(name) ==> !HasId(s, newId))
    ensures UniqueIds(CreateProduct(s, newId, name).store)
  {
  }

  /** An update never changes an id, so it keeps ids unique. */
  lemma UpdatePreservesUniqueIds(s: Store, id: string, name: Option<string>)
    requires UniqueIds(s)
    ensures UniqueIds(UpdateProduct(s, id, name).store)
  {
  }

  /** A delete only drops a record, so it keeps ids unique. */
  lemma DeletePreservesUniqueIds(s: Store, id: string)
    requires UniqueIds(s)
    ensures UniqueIds(DeleteProduct(s, id).store)
  {
  }
}

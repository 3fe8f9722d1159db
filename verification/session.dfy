/**
  The service as a whole: requests routed to their handler and processed one
  after another against the single collection, which starts empty. Node runs
  each handler to completion before the next, so a run of requests is a fold
  of atomic steps, and each request gets exactly one response.
 */
module Session {
  import opened ProductStore
  import opened Handlers

  /** One routed request. `generatedId` of a create is the id the service
      would derive from the clock when it handles that request. */
  datatype Request =
    | ListRequest                                             // GET /products
    | GetRequest(id: string)                                  // GET /products/:id
    | CreateRequest(name: Option<string>, generatedId: string) // POST /products
    | UpdateRequest(id: string, name: Option<string>)         // PATCH /products/:id
    | DeleteRequest(id: string)                               // DELETE /products/:id

  /** The status codes the service can send. */
  predicate KnownStatus(code: nat) {
    code == 200 || code == 201 || code == 204 || code == 400 || code == 404
  }

  /** Route one request to its handler. */
  function Handle(s: Store, req: Request): (r: Outcome)
    ensures KnownStatus(r.response.status)
    ensures r.response.status >= 400 ==> r.store == s
    ensures req.ListRequest? || req.GetRequest? ==> r.store == s
  {
    match req
    case ListRequest => ListProducts(s)
    case GetRequest(id) => GetProduct(s, id)
    case CreateRequest(name, newId) => CreateProduct(s, newId, name)
    case UpdateRequest(id, name) => UpdateProduct(s, id, name)
    case DeleteRequest(id) => DeleteProduct(s, id)
  }

  /** The collection after a run of requests, and the responses in order. */
  datatype Trace = Trace(store: Store, responses: seq<Response>)

  /** Process `reqs` one at a time, starting from `s`. */
  function Run(s: Store, reqs: seq<Request>): (r: Trace)
    ensures |r.responses| == |reqs|
    decreases reqs
  {
    if |reqs| == 0 then Trace(s, [])
    else
      var o := Handle(s, reqs[0]);
      var rest := Run(o.store, reqs[1..]);
      Trace(rest.store, [o.response] + rest.responses)
  }

  /** Every response of a run carries one of the service's status codes. */
  lemma {:induction false} RunRespondsWithKnownStatus(s: Store, reqs: seq<Request>)
    ensures forall k :: 0 <= k < |reqs| ==> KnownStatus(Run(s, reqs).responses[k].status)
    decreases reqs
  {
    if |reqs| > 0 {
      var o := Handle(s, reqs[0]);
      var rest := Run(o.store, reqs[1..]);
      RunRespondsWithKnownStatus(o.store, reqs[1..]);
      forall k | 1 <= k < |reqs| ensures KnownStatus(Run(s, reqs).responses[k].status) {
        assert Run(s, reqs).responses[k] == rest.responses[k - 1];
      }
    }
  }

  /** A run in which every request was refused leaves the collection as it was. */
  lemma {:induction false} RunOfRefusalsKeepsStore(s: Store, reqs: seq<Request>)
    requires forall k :: 0 <= k < |reqs| ==> Run(s, reqs).responses[k].status >= 400
    ensures Run(s, reqs).store == s
    decreases reqs
  {
    if |reqs| > 0 {
      var o := Handle(s, reqs[0]);
      var rest := Run(o.store, reqs[1..]);
      assert Run(s, reqs).responses[0] == o.response;
      forall k | 0 <= k < |reqs| - 1 ensures rest.responses[k].status >= 400 {
        assert rest.responses[k] == Run(s, reqs).responses[k + 1];
      }
      RunOfRefusalsKeepsStore(o.store, reqs[1..]);
    }
  }

  // ---------------------------------------------------------------------------
  // Invariants of the collection
  // ---------------------------------------------------------------------------

  /** No handler ever stores a product with an empty name. */
  lemma HandlePreservesNamesPresent(s: Store, req: Request)
    requires NamesPresent(s)
    ensures NamesPresent(Handle(s, req).store)
  {
  }

  /** The names invariant holds after any run of requests. */
  lemma {:induction false} RunPreservesNamesPresent(s: Store, reqs: seq<Request>)
    requires NamesPresent(s)
    ensures NamesPresent(Run(s, reqs).store)
    decreases reqs
  {
    if |reqs| > 0 {
      HandlePreservesNamesPresent(s, reqs[0]);
      RunPreservesNamesPresent(Handle(s, reqs[0]).store, reqs[1..]);
    }
  }

  /** A create that gets past the name check and so reads the clock. */
  predicate ReadsClock(req: Request) {
    req.CreateRequest? && Truthy(req.name)
  }

  /** The request is not a create that reads the clock and gets an id
      already taken. */
  predicate FreshCreate(s: Store, req: Request) {
    ReadsClock(req) ==> !HasId(s, req.generatedId)
  }

  /** Ids stay unique under every request except a colliding create. */
  lemma HandlePreservesUniqueIds(s: Store, req: Request)
    requires UniqueIds(s) && FreshCreate(s, req)
    ensures UniqueIds(Handle(s, req).store)
  {
  }

  /** Only a create that reads the clock can introduce an id, and only its
      generated one. */
  lemma HandleIntroducesOnlyGeneratedId(s: Store, req: Request, id: string)
    requires HasId(Handle(s, req).store, id)
    ensures HasId(s, id) || (ReadsClock(req) && id == req.generatedId)
  {
  }

  /** The clock never repeats a reading: every create in `reqs` that reads
      the clock generates an id that no record of `s` and no earlier such
      create in `reqs` carries. */
  predicate DistinctClockReadings(s: Store, reqs: seq<Request>) {
    forall k :: 0 <= k < |reqs| && ReadsClock(reqs[k]) ==>
      && !HasId(s, reqs[k].generatedId)
      && forall m :: 0 <= m < k && ReadsClock(reqs[m]) ==> reqs[m].generatedId != reqs[k].generatedId
  }

  /** With distinct clock readings, ids stay unique through any run. */
  lemma {:induction false} RunPreservesUniqueIds(s: Store, reqs: seq<Request>)
    requires UniqueIds(s) && DistinctClockReadings(s, reqs)
    ensures UniqueIds(Run(s, reqs).store)
    decreases reqs
  {
    if |reqs| > 0 {
      var o := Handle(s, reqs[0]);
      HandlePreservesUniqueIds(s, reqs[0]);
      var tail := reqs[1..];
      forall k | 0 <= k < |tail| && ReadsClock(tail[k])
        ensures !HasId(o.store, tail[k].generatedId)
        ensures forall m :: 0 <= m < k && ReadsClock(tail[m]) ==> tail[m].generatedId != tail[k].generatedId
      {
        assert tail[k] == reqs[k + 1];
        if HasId(o.store, tail[k].generatedId) {
          HandleIntroducesOnlyGeneratedId(s, reqs[0], tail[k].generatedId);
          assert false;
        }
        forall m | 0 <= m < k && ReadsClock(tail[m]) ensures tail[m].generatedId != tail[k].generatedId {
          assert tail[m] == reqs[m + 1];
        }
      }
      RunPreservesUniqueIds(o.store, tail);
    }
  }

  // ---------------------------------------------------------------------------
  // Runs of requests
  // ---------------------------------------------------------------------------

  /** The create requests that add `ps` one by one, each under its own id. */
  function CreatesOf(ps: seq<Product>): (reqs: seq<Request>)
    ensures |reqs| == |ps|
    ensures forall k :: 0 <= k < |ps| ==> reqs[k] == CreateRequest(Some(ps[k].name), ps[k].id)
  {
    if |ps| == 0 then [] else [CreateRequest(Some(ps[0].name), ps[0].id)] + CreatesOf(ps[1..])
  }

  /** The first create of `CreatesOf(ps)` appends `ps[0]` and answers 201;
      the rest of the run continues from there. */
  lemma CreatesOfStep(s: Store, ps: seq<Product>)
    requires |ps| > 0 && ps[0].name != ""
    ensures var rest := Run(s + [ps[0]], CreatesOf(ps[1..]));
      Run(s, CreatesOf(ps)) == Trace(rest.store, [Response(201, ProductBody(ps[0]))] + rest.responses)
  {
  }

  /** Appending the head of `ps` and then its tail appends `ps`. */
  lemma AppendFirst(s: Store, ps: seq<Product>)
    requires |ps| > 0
    ensures s + [ps[0]] + ps[1..] == s + ps
  {
  }

  /** Every record of `ps` is non-empty-named, so is every record of its tail. */
  lemma NamesPresentTail(ps: seq<Product>)
    requires |ps| > 0 && NamesPresent(ps)
    ensures NamesPresent(ps[1..])
  {
  }

  /** A run of creates with non-empty names appends the records in order. */
  lemma {:induction false} CreatesAppendInOrder(s: Store, ps: seq<Product>)
    requires NamesPresent(ps)
    ensures Run(s, CreatesOf(ps)).store == s + ps
    decreases ps
  {
    if |ps| == 0 {
      assert s + ps == s;
    } else {
      CreatesOfStep(s, ps);
      NamesPresentTail(ps);
      CreatesAppendInOrder(s + [ps[0]], ps[1..]);
      AppendFirst(s, ps);
    }
  }

  /** A run of creates with non-empty names answers 201 with each record. */
  lemma {:induction false} CreatesAnswerCreated(s: Store, ps: seq<Product>)
    requires NamesPresent(ps)
    ensures forall k :: 0 <= k < |ps| ==>
      Run(s, CreatesOf(ps)).responses[k] == Response(201, ProductBody(ps[k]))
    decreases ps
  {
    if |ps| > 0 {
      CreatesOfStep(s, ps);
      NamesPresentTail(ps);
      CreatesAnswerCreated(s + [ps[0]], ps[1..]);
      var rest := Run(s + [ps[0]], CreatesOf(ps[1..]));
      forall k | 1 <= k < |ps| ensures Run(s, CreatesOf(ps)).responses[k] == Response(201, ProductBody(ps[k])) {
        assert Run(s, CreatesOf(ps)).responses[k] == rest.responses[k - 1];
        assert ps[1..][k - 1] == ps[k];
      }
    }
  }

  /** After any run of creates with non-empty names, every create answered 201
      with its record and list returns exactly the earlier records followed by
      the created ones, in creation order. */
  lemma ListAfterCreates(s: Store, ps: seq<Product>)
    requires NamesPresent(ps)
    ensures var tr := Run(s, CreatesOf(ps));
      && (forall k :: 0 <= k < |ps| ==> tr.responses[k] == Response(201, ProductBody(ps[k])))
      && Run(tr.store, [ListRequest]) == Trace(s + ps, [Response(200, ProductsBody(s + ps))])
  {
    CreatesAppendInOrder(s, ps);
    CreatesAnswerCreated(s, ps);
  }

  /** One step of a run: the first request is handled, then the rest. */
  lemma RunStep(s: Store, q: Request, rest: seq<Request>, o: Outcome, tail: Trace)
    requires Handle(s, q) == o && Run(o.store, rest) == tail
    ensures Run(s, [q] + rest) == Trace(tail.store, [o.response] + tail.responses)
  {
  }

  /** Running two batches back to back ends where running their concatenation
      ends: the second batch starts from the collection the first one left. */
  lemma {:induction false} RunAppendStore(s: Store, a: seq<Request>, b: seq<Request>)
    ensures Run(s, a + b).store == Run(Run(s, a).store, b).store
    decreases a
  {
    if |a| == 0 {
      assert a + b == b;
    } else {
      var o := Handle(s, a[0]);
      assert (a + b)[0] == a[0] && (a + b)[1..] == a[1..] + b;
      RunAppendStore(o.store, a[1..], b);
    }
  }

  /** The responses of a concatenated run are those of the first batch
      followed by those of the second. */
  lemma {:induction false} RunAppendResponses(s: Store, a: seq<Request>, b: seq<Request>)
    ensures Run(s, a + b).responses == Run(s, a).responses + Run(Run(s, a).store, b).responses
    decreases a
  {
    if |a| == 0 {
      assert a + b == b;
    } else {
      var o := Handle(s, a[0]);
      assert (a + b)[0] == a[0] && (a + b)[1..] == a[1..] + b;
      RunAppendResponses(o.store, a[1..], b);
      var restA := Run(o.store, a[1..]);
      var second := Run(restA.store, b);
      assert [o.response] + (restA.responses + second.responses)
          == ([o.response] + restA.responses) + second.responses;
    }
  }

  /** First half of the walk-through: two creates, a list and a rename. */
  lemma WalkthroughCreateAndRename(pen: string, book: string, penName: string, bookName: string, newName: string)
    requires pen != book
    requires penName != "" && bookName != "" && newName != ""
    ensures Run(Empty, [
        CreateRequest(Some(penName), pen),
        CreateRequest(Some(bookName), book),
        ListRequest,
        UpdateRequest(pen, Some(newName))
      ]) == Trace([Product(pen, newName), Product(book, bookName)], [
        Response(201, ProductBody(Product(pen, penName))),
        Response(201, ProductBody(Product(book, bookName))),
        Response(200, ProductsBody([Product(pen, penName), Product(book, bookName)])),
        Response(200, UpdatedBody(Product(pen, newName), SuccessMarker))
      ])
  {
    var s1 := [Product(pen, penName)];
    var s2 := [Product(pen, penName), Product(book, bookName)];
    var s3 := [Product(pen, newName), Product(book, bookName)];
    var q0 := CreateRequest(Some(penName), pen);
    var q1 := CreateRequest(Some(bookName), book);
    var q3 := UpdateRequest(pen, Some(newName));
    var r0 := Response(201, ProductBody(Product(pen, penName)));
    var r1 := Response(201, ProductBody(Product(book, bookName)));
    var r2 := Response(200, ProductsBody(s2));
    var r3 := Response(200, UpdatedBody(Product(pen, newName), SuccessMarker));
    assert Handle(s2, q3) == Outcome(s3, r3) by {
      assert FindIndex(s2, pen) == 0;
    }
    RunStep(s2, q3, [], Outcome(s3, r3), Trace(s3, []));
    assert [q3] + [] == [q3];
    RunStep(s2, ListRequest, [q3], Outcome(s2, r2), Trace(s3, [r3]));
    assert [ListRequest] + [q3] == [ListRequest, q3];
    assert Handle(s1, q1) == Outcome(s2, r1) by {
      assert s1 + [Product(book, bookName)] == s2;
    }
    RunStep(s1, q1, [ListRequest, q3], Outcome(s2, r1), Trace(s3, [r2, r3]));
    assert [q1] + [ListRequest, q3] == [q1, ListRequest, q3];
    assert Handle(Empty, q0) == Outcome(s1, r0) by {
      assert Empty + [Product(pen, penName)] == s1;
    }
    RunStep(Empty, q0, [q1, ListRequest, q3], Outcome(s1, r0), Trace(s3, [r1, r2, r3]));
    assert [q0] + [q1, ListRequest, q3] == [q0, q1, ListRequest, q3];
  }

  /** Second half of the walk-through: delete the book, list, look it up. */
  lemma WalkthroughDeleteAndLookup(pen: string, book: string, bookName: string, newName: string)
    requires pen != book
    ensures Run([Product(pen, newName), Product(book, bookName)], [
        DeleteRequest(book),
        ListRequest,
        GetRequest(book)
      ]) == Trace([Product(pen, newName)], [
        Response(204, NoBody),
        Response(200, ProductsBody([Product(pen, newName)])),
        Response(404, MessageBody(GetNotFound))
      ])
  {
    var s3 := [Product(pen, newName), Product(book, bookName)];
    var s4 := [Product(pen, newName)];
    var q4 := DeleteRequest(book);
    var q6 := GetRequest(book);
    var r4 := Response(204, NoBody);
    var r5 := Response(200, ProductsBody(s4));
    var r6 := Response(404, MessageBody(GetNotFound));
    assert Handle(s4, q6) == Outcome(s4, r6) by {
      assert !HasId(s4, book);
    }
    RunStep(s4, q6, [], Outcome(s4, r6), Trace(s4, []));
    assert [q6] + [] == [q6];
    RunStep(s4, ListRequest, [q6], Outcome(s4, r5), Trace(s4, [r6]));
    assert [ListRequest] + [q6] == [ListRequest, q6];
    assert Handle(s3, q4) == Outcome(s4, r4) by {
      assert s3[1..] == [Product(book, bookName)];
      assert FindIndex(s3, book) == 1;
      assert s3[..1] + s3[2..] == s4;
    }
    RunStep(s3, q4, [ListRequest, q6], Outcome(s4, r4), Trace(s4, [r5, r6]));
    assert [q4] + [ListRequest, q6] == [q4, ListRequest, q6];
  }

  /** The walk-through of the service: create a pen and a book, list, rename
      the pen, delete the book, list again, and look the book up. The ids
      stand for two distinct clock readings, the names for any non-empty
      names such as "Pen", "Book" and "Blue Pen". */
  lemma ExampleWalkthrough(pen: string, book: string, penName: string, bookName: string, newName: string)
    requires pen != book
    requires penName != "" && bookName != "" && newName != ""
    ensures Run(Empty, [
        CreateRequest(Some(penName), pen),
        CreateRequest(Some(bookName), book),
        ListRequest,
        UpdateRequest(pen, Some(newName)),
        DeleteRequest(book),
        ListRequest,
        GetRequest(book)
      ]).responses == [
        Response(201, ProductBody(Product(pen, penName))),
        Response(201, ProductBody(Product(book, bookName))),
        Response(200, ProductsBody([Product(pen, penName), Product(book, bookName)])),
        Response(200, UpdatedBody(Product(pen, newName), SuccessMarker)),
        Response(204, NoBody),
        Response(200, ProductsBody([Product(pen, newName)])),
        Response(404, MessageBody(GetNotFound))
      ]
  {
    var a := [
        CreateRequest(Some(penName), pen),
        CreateRequest(Some(bookName), book),
        ListRequest,
        UpdateRequest(pen, Some(newName))];
    var b := [DeleteRequest(book), ListRequest, GetRequest(book)];
    WalkthroughCreateAndRename(pen, book, penName, bookName, newName);
    WalkthroughDeleteAndLookup(pen, book, bookName, newName);
    RunAppendResponses(Empty, a, b);
    assert a + b == [
        CreateRequest(Some(penName), pen),
        CreateRequest(Some(bookName), book),
        ListRequest,
        UpdateRequest(pen, Some(newName)),
        DeleteRequest(book),
        ListRequest,
        GetRequest(book)];
  }
}

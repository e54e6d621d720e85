/** The catalog handlers of the product service as functions of the store's
    state: CreateProduct, UpdateProduct, DeleteProduct and the name search
    GetAllProductsByQuery, with the statements they issue given their meaning
    over an in-memory products table. */
module Products {
  import opened Outcomes

  /** A float32 column. The handlers only store and copy these values, so a
      value is kept as its bit pattern and never computed with. */
  datatype Float32 = Float32(bits: bv32)

  /** A reading of the store's clock, `NOW()`. */
  type Time = int

  /** The twelve columns a create or update request sets. */
  datatype ProductFields = ProductFields(
    name: string,
    sku: string,
    shortDescription: string,
    description: string,
    price: Float32,
    priceOld: Float32,
    discount: Float32,
    quantity: int,
    isActive: bool,
    brand: string,
    rating: Float32,
    categoryId: int)

  /** A row of the products table; its id is the key it is stored under. */
  datatype ProductRow = ProductRow(fields: ProductFields, createdAt: Time, updatedAt: Time)

  /** A product as the search returns it: the id and the twelve columns. */
  datatype ProductView = ProductView(id: nat, fields: ProductFields)

  datatype UpdateProductRequest = UpdateProductRequest(productId: nat, fields: ProductFields)

  /** The products table and the sequence that hands out product ids. */
  datatype ProductDb = ProductDb(products: map<nat, ProductRow>, nextId: nat)

  ghost predicate Valid(db: ProductDb) {
    && 1 <= db.nextId
    && (forall id :: id in db.products ==> 1 <= id < db.nextId)
  }

  /** CreateProduct: one INSERT ... RETURNING id carrying the request's
      columns; the store stamps both timestamps with its clock. */
  function CreateProduct(db: ProductDb, req: ProductFields, now: Time, fault: Fault): (s: Step<ProductDb, nat>)
    requires Valid(db)
    ensures Valid(s.state)
    ensures fault.Fails? ==> s == Step(Err(Raw(Driver(fault.reason))), db)
    ensures fault.Healthy? ==>
      && s.result.Ok? && 1 <= s.result.value && s.result.value !in db.products
      && s.state.products == db.products[s.result.value := ProductRow(req, now, now)]
  {
    if fault.Fails? then Step(Err(Raw(Driver(fault.reason))), db)
    else
      var id := db.nextId;
      Step(Ok(id), db.(products := db.products[id := ProductRow(req, now, now)], nextId := id + 1))
  }

  /** The row UpdateProduct writes over `row`: every request column, and the
      store's clock as the update time. */
  function Overwrite(row: ProductRow, fields: ProductFields, now: Time): ProductRow {
    row.(fields := fields, updatedAt := now)
  }

  /** UpdateProduct: one UPDATE of all twelve columns and `updated_at`, then
      the affected-row count decides between success and NotFound. */
  function UpdateProduct(db: ProductDb, req: UpdateProductRequest, now: Time, exec: Fault, rowCount: Fault)
    : (s: Step<ProductDb, nat>)
    requires Valid(db)
    ensures Valid(s.state) && s.state.nextId == db.nextId
    ensures exec.Fails? ==> s == Step(Err(Status(Internal, "db error: " + exec.reason)), db)
    ensures exec.Healthy? && req.productId in db.products ==>
      s.state.products == db.products[req.productId := ProductRow(req.fields, db.products[req.productId].createdAt, now)]
    ensures req.productId !in db.products ==> s.state == db
    ensures exec.Healthy? && rowCount.Fails? ==> s.result == Err(Status(Internal, "rows affected error: " + rowCount.reason))
    ensures s.result == Err(Status(NotFound, "product not found"))
      <==> exec.Healthy? && rowCount.Healthy? && req.productId !in db.products
    ensures s.result.Ok? <==> exec.Healthy? && rowCount.Healthy? && req.productId in db.products
    ensures s.result.Ok? ==> s.result.value == req.productId
  {
    if exec.Fails? then
      Step(Err(Status(Internal, "db error: " + exec.reason)), db)
    else
      var affected := if req.productId in db.products then 1 else 0;
      var after :=
        if affected == 1 then db.(products := db.products[req.productId := Overwrite(db.products[req.productId], req.fields, now)])
        else db;
      if rowCount.Fails? then Step(Err(Status(Internal, "rows affected error: " + rowCount.reason)), after)
      else if affected == 0 then Step(Err(Status(NotFound, "product not found")), after)
      else Step(Ok(req.productId), after)
  }

  /** DeleteProduct: `DELETE ... WHERE id = $1 RETURNING id`. Every error,
      a missing row included, is passed on as the store reported it. */
  function DeleteProduct(db: ProductDb, id: nat, fault: Fault): (s: Step<ProductDb, nat>)
    requires Valid(db)
    ensures Valid(s.state) && s.state.nextId == db.nextId
    ensures fault.Fails? ==> s == Step(Err(Raw(Driver(fault.reason))), db)
    ensures fault.Healthy? && id !in db.products ==> s == Step(Err(Raw(NoRows)), db)
    ensures s.result.Ok? <==> fault.Healthy? && id in db.products
    ensures s.result.Ok? ==> s.result.value == id && s.state.products == db.products - {id}
    ensures s.result.Err? ==> s.result.error.Raw? && s.state == db
  {
    if fault.Fails? then Step(Err(Raw(Driver(fault.reason))), db)
    else if id !in db.products then Step(Err(Raw(NoRows)), db)
    else Step(Ok(id), db.(products := db.products - {id}))
  }

  // ----- search -----

  /** `s LIKE '%' || q || '%'` for a `q` free of the pattern's special
      characters (the wildcards `%` and `_` and the default escape character
      `\`): `q` occurs in `s` at some position. */
  predicate Contains(s: string, q: string) {
    exists i | 0 <= i <= |s| - |q| :: OccursAt(s, q, i)
  }

  predicate OccursAt(s: string, q: string, i: int) {
    0 <= i <= |s| - |q| && s[i..i + |q|] == q
  }

  /** The WHERE clause of the search. */
  predicate Matches(f: ProductFields, query: string) {
    f.isActive && Contains(f.name, query)
  }

  /** `scan` lists every row of the table exactly once, in the order the
      store reads them. */
  ghost predicate IsScanOrder(scan: seq<nat>, products: map<nat, ProductRow>) {
    && (forall i, j :: 0 <= i < j < |scan| ==> scan[i] != scan[j])
    && (forall id :: id in scan <==> id in products)
  }

  /** The rows the search's SELECT yields, in scan order. */
  function Selected(products: map<nat, ProductRow>, scan: seq<nat>, query: string): (rows: seq<ProductView>)
    ensures |rows| <= |scan|
    ensures forall v :: v in rows ==>
      v.id in scan && v.id in products && v.fields == products[v.id].fields && Matches(v.fields, query)
  {
    if scan == [] then []
    else
      var rest := Selected(products, scan[1..], query);
      var id := scan[0];
      if id in products && Matches(products[id].fields, query) then [ProductView(id, products[id].fields)] + rest
      else rest
  }

  /** How the row stream of the search can fail: the Scan of one row fails,
      or the stream breaks off, so that `rows.Next()` returns false and
      `rows.Err()` holds the error. `at` counts the rows already delivered;
      a stream can break off after its last row, when `at` equals the number
      of rows. */
  datatype RowFault =
    | NoRowFault
    | ScanFails(at: nat, reason: string)
    | StreamBreaks(at: nat, reason: string)

  /** True when `f` strikes within a stream of `n` rows: a Scan needs a row
      to read, a break can come after any of the `n` rows, the last included. */
  predicate Interrupts(f: RowFault, n: nat) {
    match f
    case NoRowFault => false
    case ScanFails(at, _) => at < n
    case StreamBreaks(at, _) => at <= n
  }

  /** GetAllProductsByQuery as the source writes it: `rows.Err()` is only
      looked at inside the loop, so a stream that breaks off ends the loop
      and what was read so far is returned as a success. */
  function SearchAsWritten(db: ProductDb, query: string, scan: seq<nat>, queryFault: Fault, rowFault: RowFault)
    : (r: Result<seq<ProductView>, Error>)
    ensures r.Ok? ==> r.value <= Selected(db.products, scan, query)
  {
    if queryFault.Fails? then Err(Raw(Driver(queryFault.reason)))
    else
      var rows := Selected(db.products, scan, query);
      if rowFault.ScanFails? && rowFault.at < |rows| then Err(Raw(Driver(rowFault.reason)))
      else if rowFault.StreamBreaks? && rowFault.at < |rows| then Ok(rows[..rowFault.at])
      else Ok(rows)
  }

  /** GetAllProductsByQuery with `rows.Err()` checked once the loop ends: every
      failure of the statement or of its row stream aborts the search. */
  function Search(db: ProductDb, query: string, scan: seq<nat>, queryFault: Fault, rowFault: RowFault)
    : (r: Result<seq<ProductView>, Error>)
    requires IsScanOrder(scan, db.products)
    ensures r.Ok? <==> queryFault.Healthy? && !Interrupts(rowFault, |Selected(db.products, scan, query)|)
    ensures r.Err? ==> r.error.Raw?
    ensures r.Ok? ==> forall v :: v in r.value ==> v.id in db.products && v.fields == db.products[v.id].fields
    ensures r.Ok? ==> forall v :: v in r.value ==> v.fields.isActive && Contains(v.fields.name, query)
    ensures r.Ok? ==> forall id :: id in db.products && Matches(db.products[id].fields, query) ==>
      ProductView(id, db.products[id].fields) in r.value
    ensures r.Ok? ==> DistinctIds(r.value)
  {
    if queryFault.Fails? then Err(Raw(Driver(queryFault.reason)))
    else
      var rows := Selected(db.products, scan, query);
      if Interrupts(rowFault, |rows|) then Err(Raw(Driver(rowFault.reason)))
      else
        SelectedComplete(db.products, scan, query);
        SelectedDistinct(db.products, scan, query);
        Ok(rows)
  }

  // ----- properties of the search -----

  /** Every matching row the scan reaches is selected. */
  lemma {:induction false} SelectedComplete(products: map<nat, ProductRow>, scan: seq<nat>, query: string)
    ensures forall id :: id in scan && id in products && Matches(products[id].fields, query) ==>
      ProductView(id, products[id].fields) in Selected(products, scan, query)
  {
    if scan != [] {
      SelectedComplete(products, scan[1..], query);
      forall id | id in scan && id in products && Matches(products[id].fields, query)
        ensures ProductView(id, products[id].fields) in Selected(products, scan, query)
      {
        if id != scan[0] {
          assert id in scan[1..];
        }
      }
    }
  }

  /** No product appears twice among `rows`. */
  predicate DistinctIds(rows: seq<ProductView>) {
    forall i, j :: 0 <= i < j < |rows| ==> rows[i].id != rows[j].id
  }

  /** The search yields each row at most once. */
  lemma {:induction false} SelectedDistinct(products: map<nat, ProductRow>, scan: seq<nat>, query: string)
    requires forall i, j :: 0 <= i < j < |scan| ==> scan[i] != scan[j]
    ensures DistinctIds(Selected(products, scan, query))
  {
    if scan != [] {
      SelectedDistinct(products, scan[1..], query);
      var rest := Selected(products, scan[1..], query);
      assert scan[0] !in scan[1..];
      var rows := Selected(products, scan, query);
      if scan[0] in products && Matches(products[scan[0]].fields, query) {
        assert rows == [ProductView(scan[0], products[scan[0]].fields)] + rest;
        forall i, j | 0 <= i < j < |rows| ensures rows[i].id != rows[j].id {
          if i == 0 {
            assert rows[j] == rest[j - 1] && rows[j] in rest;
            assert rows[j].id in scan[1..];
            assert rows[i].id == scan[0];
          } else {
            assert rows[i] == rest[i - 1] && rows[j] == rest[j - 1];
            assert rest[i - 1].id != rest[j - 1].id;
          }
        }
      }
    }
  }

  /** An empty query selects exactly the active rows. */
  lemma EmptyQuerySelectsActive(products: map<nat, ProductRow>, scan: seq<nat>)
    requires IsScanOrder(scan, products)
    ensures forall id :: id in products ==>
      (ProductView(id, products[id].fields) in Selected(products, scan, "") <==> products[id].fields.isActive)
  {
    forall id | id in products
      ensures products[id].fields.isActive ==> Matches(products[id].fields, "")
    {
      assert OccursAt(products[id].fields.name, "", 0);
    }
    SelectedComplete(products, scan, "");
  }

  /** A query no active name contains selects nothing. */
  lemma {:induction false} NoMatchSelectsNothing(products: map<nat, ProductRow>, scan: seq<nat>, query: string)
    requires forall id :: id in products ==> !Matches(products[id].fields, query)
    ensures Selected(products, scan, query) == []
  {
    if scan != [] {
      NoMatchSelectsNothing(products, scan[1..], query);
    }
  }

  /** The source's search and the corrected one agree unless the row stream
      breaks off before its end. */
  lemma AsWrittenAgreesWithoutBreak(db: ProductDb, query: string, scan: seq<nat>, queryFault: Fault, rowFault: RowFault)
    requires IsScanOrder(scan, db.products)
    requires !(rowFault.StreamBreaks? && rowFault.at <= |Selected(db.products, scan, query)|)
    ensures SearchAsWritten(db, query, scan, queryFault, rowFault) == Search(db, query, scan, queryFault, rowFault)
  {
  }

  /** The discrepancy: when the stream breaks off after `at` of the selected
      rows, the source reports success with only those `at` rows, so a
      matching active row is missing from a successful reply. */
  lemma StreamBreakTruncatesAsWritten(db: ProductDb, query: string, scan: seq<nat>, at: nat, reason: string)
    requires IsScanOrder(scan, db.products)
    requires at < |Selected(db.products, scan, query)|
    ensures var rows := Selected(db.products, scan, query);
            var r := SearchAsWritten(db, query, scan, Healthy, StreamBreaks(at, reason));
            && r == Ok(rows[..at])
            && rows[at].id in db.products && Matches(rows[at].fields, query)
            && rows[at] !in r.value
            && Search(db, query, scan, Healthy, StreamBreaks(at, reason)) == Err(Raw(Driver(reason)))
  {
    var rows := Selected(db.products, scan, query);
    assert rows[at] in rows;
    SelectedDistinct(db.products, scan, query);
    forall k | 0 <= k < at ensures rows[..at][k] != rows[at] {
      assert rows[k].id != rows[at].id;
    }
  }

  // ----- properties of the mutations -----

  /** An update followed by a read of the row gives back the request's
      columns, the creation time unchanged and an update time later than
      before whenever the clock has advanced. */
  lemma UpdateProductRoundTrip(db: ProductDb, req: UpdateProductRequest, now: Time)
    requires Valid(db) && req.productId in db.products
    requires db.products[req.productId].updatedAt < now
    ensures var s := UpdateProduct(db, req, now, Healthy, Healthy);
            var before := db.products[req.productId];
            var after := s.state.products[req.productId];
            && s.result == Ok(req.productId)
            && after.fields == req.fields
            && after.createdAt == before.createdAt
            && before.updatedAt < after.updatedAt
            && forall id :: id in db.products && id != req.productId ==> s.state.products[id] == db.products[id]
  {
  }

  /** Deleting the same product twice: the id, then the store's raw no-row
      error, never a NotFound status. */
  lemma DeleteProductTwice(db: ProductDb, id: nat)
    requires Valid(db) && id in db.products
    ensures var s1 := DeleteProduct(db, id, Healthy);
            && s1.result == Ok(id)
            && DeleteProduct(s1.state, id, Healthy) == Step(Err(Raw(NoRows)), s1.state)
  {
  }
}

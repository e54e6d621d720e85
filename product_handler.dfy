/** The product service's gRPC handler, holding the products table it
    changes. Each mutating method's postcondition ties the reply and the new
    table to the functions of module Products; the search collects the rows
    of its result set one by one in a loop. */
module ProductHandler {
  import opened Outcomes
  import Products

  class ProductServer {
    var products: map<nat, Products.ProductRow>
    var nextId: nat

    /** The table as one value. */
    function Db(): Products.ProductDb
      reads this
    {
      Products.ProductDb(products, nextId)
    }

    ghost predicate Valid()
      reads this
    {
      Products.Valid(Db())
    }

    /** An empty products table. */
    constructor ()
      ensures Valid() && products == map[]
    {
      products := map[];
      nextId := 1;
    }

    method CreateProduct(req: Products.ProductFields, now: Products.Time, fault: Fault)
      returns (r: Result<nat, Error>)
      requires Valid()
      modifies this
      ensures Valid()
      ensures Step(r, Db()) == Products.CreateProduct(old(Db()), req, now, fault)
    {
      // INSERT INTO products (...) VALUES ($1, ..., $12) RETURNING id
      if fault.Fails? {
        return Err(Raw(Driver(fault.reason)));
      }
      var id := nextId;
      products := products[id := Products.ProductRow(req, now, now)];
      nextId := nextId + 1;
      return Ok(id);
    }

    method UpdateProduct(req: Products.UpdateProductRequest, now: Products.Time, exec: Fault, rowCount: Fault)
      returns (r: Result<nat, Error>)
      requires Valid()
      modifies this
      ensures Valid()
      ensures Step(r, Db()) == Products.UpdateProduct(old(Db()), req, now, exec, rowCount)
    {
      // UPDATE products SET name = $1, ..., category_id = $12, updated_at = NOW() WHERE id = $13
      if exec.Fails? {
        return Err(Status(Internal, "db error: " + exec.reason));
      }
      var affected := 0;
      if req.productId in products {
        products := products[req.productId := Products.Overwrite(products[req.productId], req.fields, now)];
        affected := 1;
      }
      if rowCount.Fails? {
        return Err(Status(Internal, "rows affected error: " + rowCount.reason));
      }
      if affected == 0 {
        return Err(Status(NotFound, "product not found"));
      }
      return Ok(req.productId);
    }

    method DeleteProduct(id: nat, fault: Fault)
      returns (r: Result<nat, Error>)
      requires Valid()
      modifies this
      ensures Valid()
      ensures Step(r, Db()) == Products.DeleteProduct(old(Db()), id, fault)
    {
      // DELETE FROM products WHERE id = $1 RETURNING id
      if fault.Fails? {
        return Err(Raw(Driver(fault.reason)));
      }
      if id !in products {
        return Err(Raw(NoRows));
      }
      products := products - {id};
      return Ok(id);
    }

    /** The search with the error check the source's loop lacks: after the
        loop, `rows.Err()` is consulted, so a stream that breaks off fails the
        call instead of returning the rows read so far (the source's reply
        is `Products.SearchAsWritten`). `scan` is the order in which the
        store reads the table. */
    method GetAllProductsByQuery(query: string, scan: seq<nat>, queryFault: Fault, rowFault: Products.RowFault)
      returns (r: Result<seq<Products.ProductView>, Error>)
      requires Products.IsScanOrder(scan, products)
      ensures r == Products.Search(Db(), query, scan, queryFault, rowFault)
    {
      // SELECT ... FROM products WHERE is_active = TRUE AND name LIKE '%' || $1 || '%'
      if queryFault.Fails? {
        return Err(Raw(Driver(queryFault.reason)));
      }
      var rows := Products.Selected(products, scan, query);
      var found: seq<Products.ProductView> := [];
      var i := 0;
      // rows.Next(): false at the end of the rows or where the stream breaks off
      while i < |rows| && !(rowFault.StreamBreaks? && rowFault.at == i)
        invariant 0 <= i <= |rows|
        invariant found == rows[..i]
        invariant !(rowFault.NoRowFault?) ==> i <= rowFault.at
      {
        // rows.Scan(...)
        if rowFault.ScanFails? && rowFault.at == i {
          return Err(Raw(Driver(rowFault.reason)));
        }
        found := found + [rows[i]];
        i := i + 1;
      }
      // rows.Err(), added after the loop: the error that ended the iteration, if any
      if rowFault.StreamBreaks? && rowFault.at == i {
        return Err(Raw(Driver(rowFault.reason)));
      }
      assert found == rows;
      return Ok(found);
    }
  }
}

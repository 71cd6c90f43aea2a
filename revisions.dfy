/**
  How the two revisions of the product handlers relate: crud.js refuses every
  body retrieve.js refuses and, beyond that, exactly the bodies whose price or
  stock is a present but falsy value (0, false or the empty string); on bodies
  both accept they send the same statements (PATCH aside, which matches a
  different id column) and answer with the same statuses.
*/
module Revisions {
  import opened Wrappers
  import opened Js
  import opened Http
  import Sql
  import Retrieve
  import Crud

  /** A value that is neither null nor undefined and yet falsy. */
  predicate PresentButFalsy(v: Value) {
    !IsNullish(v) && !Truthy(v)
  }

  lemma ValidationGap(b: Body)
    ensures Crud.FieldsTruthy(b) ==> Retrieve.FieldsPresent(b)
    ensures Retrieve.FieldsPresent(b) && !Crud.FieldsTruthy(b) <==>
              && Retrieve.FieldsPresent(b)
              && (PresentButFalsy(Get(b, "price")) || PresentButFalsy(Get(b, "stock")))
  {
  }

  /** A product priced 0 is stored by retrieve.js and refused by crud.js. */
  lemma ZeroPriceAcceptedOnlyByLaterRevision(b: Body, r: Result<OkPacket, StoreError>)
    requires Truthy(Get(b, "product_name")) && Truthy(Get(b, "description"))
    requires Get(b, "price") == Num(0.0) && !IsNullish(Get(b, "stock"))
    ensures Retrieve.AddProduct(Some(b), r).statements == [Statement(Sql.InsertProduct, Sql.ProductParams(b))]
    ensures Crud.AddProduct(Some(b), r) == Outcome([], SendText(400, Crud.FieldsRequired))
  {
  }

  /** Where both revisions accept a new product they insert the same row and agree on the status. */
  lemma AddProductAgrees(b: Body, r: Result<OkPacket, StoreError>)
    requires Crud.FieldsTruthy(b)
    ensures Retrieve.AddProduct(Some(b), r).statements == Crud.AddProduct(Some(b), r).statements
    ensures StatusOf(Retrieve.AddProduct(Some(b), r)) == StatusOf(Crud.AddProduct(Some(b), r))
  {
  }

  /** Full updates agree on the statement and the status, not on the body of a 500 or 200. */
  lemma ReplaceProductAgrees(id: string, b: Body, r: Result<OkPacket, StoreError>)
    requires Crud.FieldsTruthy(b)
    ensures Retrieve.ReplaceProduct(id, Some(b), r).statements == Crud.ReplaceProduct(id, Some(b), r).statements
    ensures StatusOf(Retrieve.ReplaceProduct(id, Some(b), r)) == StatusOf(Crud.ReplaceProduct(id, Some(b), r))
  {
  }

  /** The two PATCH statements are the same builder over the same keys and values,
      differing only in the id column: `id` in retrieve.js, `product_id` in crud.js. */
  lemma PatchDiffersOnlyInIdColumn(id: string, b: Body)
    ensures Retrieve.PatchStatement(id, b) == Sql.PartialUpdate(Keys(b), Values(b), "id", Str(id))
    ensures Crud.PatchStatement(id, b) == Sql.PartialUpdate(Keys(b), Values(b), "product_id", Str(id))
  {
  }

  lemma PatchStatusesAgree(id: string, body: Option<Body>, r: Result<OkPacket, StoreError>)
    ensures StatusOf(Retrieve.PatchProduct(id, body, r)) == StatusOf(Crud.PatchProduct(id, body, r))
  {
    if body.Some? && body.value != [] {
      var later, earlier := Retrieve.PatchProduct(id, body, r), Crud.PatchProduct(id, body, r);
      assert WriteConvention(r, later.reply) && WriteConvention(r, earlier.reply);
    }
  }

  lemma DeleteProductAgrees(id: string, r: Result<OkPacket, StoreError>)
    ensures Retrieve.DeleteProduct(id, r).statements == Crud.DeleteProduct(id, r).statements
    ensures StatusOf(Retrieve.DeleteProduct(id, r)) == StatusOf(Crud.DeleteProduct(id, r))
  {
  }
}

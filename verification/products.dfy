/**
  The product endpoints: adding a product to the caller's shop (behind the
  authentication middleware), listing all products, and fetching one by id.
*/
module ProductControllers {
  import opened Wrappers
  import opened JsValues
  import opened Store
  import opened Http
  import Schemas
  import Text

  const MissingFields: string := "Please provide all required product fields"
  const NoShop: string := "Shop not Found. You must create a shop first"
  const ProductNotFound: string := "Product not found"
  const ServerError: string := "Server Error"

  /** The fields `addProduct` reads from the request body. */
  datatype ProductBody = ProductBody(
    name: JsValue, description: JsValue, images: JsValue,
    category: JsValue, price: JsValue, stock: JsValue)

  /** The `!name || !description || ...` guard: some required field is falsy. */
  predicate AnyFalsy(b: ProductBody): (r: bool)
    ensures r <==> exists v :: v in [b.name, b.description, b.images, b.category, b.price, b.stock] && Falsy(v)
    ensures b.images.Arr? ==>
              (r <==> Falsy(b.name) || Falsy(b.description) || Falsy(b.category) || Falsy(b.price) || Falsy(b.stock))
  {
    Falsy(b.name) || Falsy(b.description) || Falsy(b.images)
    || Falsy(b.category) || Falsy(b.price) || Falsy(b.stock)
  }

  /** `Shop.findOne({ owner })`: the caller's shop, if any. */
  function ShopOf(db: Db, owner: Id): Option<Shop>
  {
    Find(db.shops, (s: Shop) => s.owner == owner)
  }

  /**
    `addProduct`: refuse a falsy field with 400, (1) look up the caller's shop
    and refuse with 404 if there is none, build the product linked to that
    shop, (2) save it and answer 201 with it.
  */
  function AddProduct(db: Db, caller: Id, body: ProductBody, newId: Id, now: nat, fault: Fault)
    : (r: (Reply<Product>, Db))
    ensures r.1.users == db.users && r.1.shops == db.shops
    ensures r.1.conversations == db.conversations && r.1.messages == db.messages
    ensures r.0.status in {201, 400, 404, 500}
    ensures r.0.status == 400 <==> AnyFalsy(body)
    ensures r.0.status == 400 ==> r.0.body == Notice(MissingFields)
    ensures r.0.status == 404 <==> !AnyFalsy(body) && fault != FailAt(1) && ShopOf(db, caller).None?
    ensures r.0.status == 404 ==> r.0.body == Notice(NoShop)
    ensures r.0.status == 500 ==> r.0.body == Notice(ServerError)
    ensures r.0.status != 201 ==> r.1 == db
    ensures r.0.status == 201 <==>
              && !AnyFalsy(body) && fault !in {FailAt(1), FailAt(2)} && ShopOf(db, caller).Some?
              && Schemas.NewProduct(newId, now, ShopOf(db, caller).value.id, body.name, body.description,
                                    body.images, body.category, body.price, body.stock).Ok?
    ensures r.0.status == 201 ==>
              r.0.body.Json?
              && ShopOf(db, caller).Some?
              && r.1.products == db.products + [r.0.body.value]
              && var p := r.0.body.value;
                 && p.id == newId && p.shop == ShopOf(db, caller).value.id
                 && (body.name.Str? ==> p.name == Text.Trim(body.name.s))
                 && (body.description.Str? ==> p.description == body.description.s)
                 && (body.category.Str? ==> p.category == body.category.s)
                 && (body.price.Num? ==> p.price == body.price.x)
                 && (body.stock.Num? ==> p.stock == body.stock.x)
                 && (body.price.Str? && Schemas.ParseDecimal(Text.Trim(body.price.s)).Some? ==>
                       p.price == Schemas.ParseDecimal(Text.Trim(body.price.s)).value)
                 && (body.stock.Str? && Schemas.ParseDecimal(Text.Trim(body.stock.s)).Some? ==>
                       p.stock == Schemas.ParseDecimal(Text.Trim(body.stock.s)).value)
                 && (body.images.Arr? ==> |p.images| == |body.images.items|)
                 && (body.images.Arr? ==> forall i :: 0 <= i < |p.images| ==> body.images.items[i] == Str(p.images[i]))
                 && (forall i :: 0 <= i < |p.images| ==> p.images[i] != "")
                 && Text.Trimmed(p.name) && p.name != ""
  {
    if AnyFalsy(body) then (Reply(400, Notice(MissingFields)), db)
    else if fault == FailAt(1) then (Reply(500, Notice(ServerError)), db)
    else
      match ShopOf(db, caller)
      case None => (Reply(404, Notice(NoShop)), db)
      case Some(shop) =>
        var made := Schemas.NewProduct(
          newId, now, shop.id, body.name, body.description, body.images,
          body.category, body.price, body.stock);
        if made.Err? || fault == FailAt(2) then (Reply(500, Notice(ServerError)), db)
        else (Reply(201, Json(made.value)), db.(products := db.products + [made.value]))
  }

  /**
    A body that passes the guard is never refused with 400, and price text
    that the Number cast reads as `x` (with nothing around it to trim) is
    saved as `x`.
  */
  lemma PriceTextKept(db: Db, caller: Id, body: ProductBody, text: string, x: real, newId: Id, now: nat, fault: Fault)
    requires !AnyFalsy(body) && body.price == Str(text)
    requires Schemas.ParseDecimal(text) == Some(x)
    ensures AddProduct(db, caller, body, newId, now, fault).0.status != 400
    ensures AddProduct(db, caller, body, newId, now, fault).0.status == 201 ==>
              AddProduct(db, caller, body, newId, now, fault).0.body.value.price == x
  {
    Schemas.ParsedIsTrimmed(text);
  }

  /** `getAllProducts`: (1) every stored product, in stored order. */
  function GetAllProducts(db: Db, fault: Fault): (r: Reply<seq<Product>>)
    ensures fault == FailAt(1) <==> r == Reply(500, Notice(ServerError))
    ensures fault != FailAt(1) ==>
              && r.status == 200 && r.body.Json?
              && |r.body.value| == |db.products|
              && forall i :: 0 <= i < |db.products| ==> r.body.value[i] == db.products[i]
  {
    if fault == FailAt(1) then Reply(500, Notice(ServerError)) else Reply(200, Json(db.products))
  }

  /** `getProductById`: (1) the stored product with the id, or 404. */
  function GetProductById(db: Db, id: Id, fault: Fault): (r: Reply<Product>)
    ensures r.status in {200, 404, 500}
    ensures r.status == 500 <==> fault == FailAt(1)
    ensures r.status == 200 ==> r.body.Json? && r.body.value in db.products && r.body.value.id == id
    ensures r.status == 404 <==>
              fault != FailAt(1) && forall i :: 0 <= i < |db.products| ==> db.products[i].id != id
    ensures r.status == 404 ==> r.body == Notice(ProductNotFound)
  {
    if fault == FailAt(1) then Reply(500, Notice(ServerError))
    else
      match Find(db.products, (p: Product) => p.id == id)
      case Some(p) => Reply(200, Json(p))
      case None => Reply(404, Notice(ProductNotFound))
  }

  /**
    A created product, under an id no stored product has, is what fetching
    that id returns, and it is the last entry of the product list.
  */
  lemma CreatedProductReadBack(db: Db, caller: Id, body: ProductBody, newId: Id, now: nat, fault: Fault)
    requires forall i :: 0 <= i < |db.products| ==> db.products[i].id != newId
    ensures var (r, db1) := AddProduct(db, caller, body, newId, now, fault);
            r.status == 201 ==>
              && GetProductById(db1, newId, NoFault) == Reply(200, r.body)
              && |GetAllProducts(db1, NoFault).body.value| == |db.products| + 1
              && GetAllProducts(db1, NoFault).body.value[|db.products|] == r.body.value
  {
    var (r, db1) := AddProduct(db, caller, body, newId, now, fault);
    if r.status == 201 {
      var p := r.body.value;
      assert db1.products[|db.products|] == p;
      FindAppend(db.products, [p], (q: Product) => q.id == newId);
      assert Find([p], (q: Product) => q.id == newId) == Some(p) by {
        assert FindIndex([p], (q: Product) => q.id == newId) == Some(0);
      }
    }
  }

  /**
    The truthiness guard rejects a price or stock of 0 and an empty name, but
    lets an empty image array through to the shop lookup.
  */
  lemma TruthinessGate(db: Db, caller: Id, body: ProductBody, newId: Id, now: nat, fault: Fault)
    ensures body.price == Num(0.0) || body.stock == Num(0.0) || body.name == Str("") ==>
              AddProduct(db, caller, body, newId, now, fault).0.status == 400
    ensures body.images == Arr([]) && body.name.Str? && body.name.s != ""
            && body.description.Str? && body.description.s != "" && body.category.Str? && body.category.s != ""
            && body.price.Num? && body.price.x != 0.0 && body.stock.Num? && body.stock.x != 0.0 ==>
              AddProduct(db, caller, body, newId, now, fault).0.status != 400
  {
  }
}

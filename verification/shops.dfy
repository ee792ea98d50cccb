/**
  The shop endpoint: a user opens at most one shop, and becomes a seller once
  the shop is saved. The handler sits behind the authentication middleware,
  which only lets through callers whose user document exists.
*/
module ShopControllers {
  import opened Wrappers
  import opened JsValues
  import opened Store
  import opened Http
  import Schemas
  import Text

  const AlreadyOwnsShop: string := "You already own a shop"
  const ServerError: string := "Server Error"

  /** The caller passed the authentication middleware, which loads their user document. */
  predicate Authenticated(db: Db, caller: Id)
  {
    caller in db.users
  }

  /** The caller already owns a shop. */
  predicate OwnsShop(db: Db, caller: Id)
  {
    exists i :: 0 <= i < |db.shops| && db.shops[i].owner == caller
  }

  /**
    `createShop`: (1) look for a shop the caller owns and refuse a second one;
    build the shop, (2) save it, (3) mark the caller as a seller, answer 201
    with the shop. Any throw answers 500 and leaves what was already written.
  */
  function CreateShop(db: Db, caller: Id, name: JsValue, description: JsValue, newId: Id, now: nat, fault: Fault)
    : (r: (Reply<Shop>, Db))
    requires Authenticated(db, caller)
    ensures r.1.products == db.products && r.1.conversations == db.conversations && r.1.messages == db.messages
    ensures r.0.status in {201, 400, 500}
    ensures r.0.status == 400 <==> fault != FailAt(1) && OwnsShop(db, caller)
    ensures r.0.status == 400 ==> r.0.body == Notice(AlreadyOwnsShop) && r.1 == db
    ensures r.0.status == 500 ==> r.0.body == Notice(ServerError)
    ensures r.0.status == 201 ==>
              r.0.body.Json?
              && r.1.shops == db.shops + [r.0.body.value]
              && r.0.body.value.owner == caller && r.0.body.value.id == newId
              && r.0.body.value.logo == Schemas.DefaultLogo
              && (name.Str? ==> r.0.body.value.name == Text.Trim(name.s))
              && (description.Str? ==> r.0.body.value.description == description.s)
    ensures r.0.status == 201 ==>
              r.1.users == db.users[caller := db.users[caller].(isSeller := true)]
    ensures r.0.status != 201 ==> r.1.users == db.users
    ensures r.1.shops == db.shops || |r.1.shops| == |db.shops| + 1
    ensures fault == FailAt(1) ==> r == (Reply(500, Notice(ServerError)), db)
    ensures fault == FailAt(2) ==> r.1 == db
    ensures fault == FailAt(3) && !OwnsShop(db, caller) && Schemas.NewShop(newId, now, caller, name, description, Undefined).Ok? ==>
              r.0 == Reply(500, Notice(ServerError))
              && r.1 == db.(shops := db.shops + [Schemas.NewShop(newId, now, caller, name, description, Undefined).value])
    ensures Schemas.OwnersUnique(db.shops) ==> Schemas.OwnersUnique(r.1.shops)
    ensures fault == NoFault && !OwnsShop(db, caller) && name.Str? && description.Str? ==>
              (r.0.status == 201 <==> Text.Trim(name.s) != "" && description.s != "")
  {
    var made := Schemas.NewShop(newId, now, caller, name, description, Undefined);
    if fault == FailAt(1) then (Reply(500, Notice(ServerError)), db)
    else if OwnsShop(db, caller) then (Reply(400, Notice(AlreadyOwnsShop)), db)
    else if made.Err? || fault == FailAt(2) || Schemas.SaveShop(db, made.value).Err? then
      (Reply(500, Notice(ServerError)), db)
    else
      var saved := Schemas.SaveShop(db, made.value).value;
      if fault == FailAt(3) then (Reply(500, Notice(ServerError)), saved)
      else
        var seller := saved.users[caller].(isSeller := true);
        (Reply(201, Json(made.value)), saved.(users := saved.users[caller := seller]))
  }
}

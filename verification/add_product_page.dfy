/**
  The add-product page's own logic: the comma-separated image field turned
  into a list of trimmed URLs, the request body built from the form, and the
  outcome of the request. The page does no validation of its own; the last
  lemmas follow its payload through the product endpoint.
*/
module AddProductPage {
  import opened Wrappers
  import opened JsValues
  import opened Store
  import opened Http
  import Text
  import Schemas
  import ProductControllers

  const AddFailed: string := "Failed to add product."

  /**
    `images.split(',').map(url => url.trim())`: one entry per comma-separated
    segment, each trimmed.
  */
  function ImageList(images: string): (r: seq<string>)
    ensures |r| == Text.Occurrences(images, ',') + 1
    ensures |r| == |Text.Split(images, ',')|
    ensures forall i :: 0 <= i < |r| ==> r[i] == Text.Trim(Text.Split(images, ',')[i])
    ensures forall i :: 0 <= i < |r| ==> Text.Trimmed(r[i]) && ',' !in r[i]
  {
    var segments := Text.Split(images, ',');
    seq(|segments|, i requires 0 <= i < |segments| => Text.Trim(segments[i]))
  }

  /** The segments the entries are trimmed from join back, with commas, into the typed text. */
  lemma ImageSegmentsRebuildInput(images: string)
    ensures Text.Join(Text.Split(images, ','), ',') == images
    ensures |Text.Split(images, ',')| == |ImageList(images)|
  {
  }

  /** An empty field gives one empty entry, not an empty list. */
  lemma EmptyImagesGiveOneBlank()
    ensures ImageList("") == [""]
  {
    Text.SplitNoSep("", ',');
    var list := ImageList("");
    assert |list| == 1;
    assert list[0] == Text.Trim("");
    assert Text.Trim("") == "" by { assert Text.Trim("") == ""[0..0]; }
  }

  /** A field without commas gives its own trimmed text as the single entry. */
  lemma SingleImage(url: string)
    requires ',' !in url
    ensures ImageList(url) == [Text.Trim(url)]
  {
    Text.SplitNoSep(url, ',');
  }

  /**
    The form state. Text inputs hold strings; the number inputs start as the
    numbers 0 (price) and 1 (stock) and hold the input's string once edited.
  */
  datatype ProductForm = ProductForm(
    name: string, description: string, price: JsValue, category: string, stock: JsValue, images: string)

  /** The form on first render. */
  const InitialForm: ProductForm := ProductForm("", "", Num(0.0), "", Num(1.0), "")

  /** Typing into the price input: its value is a string. */
  function EditPrice(f: ProductForm, text: string): (r: ProductForm)
    ensures r.price == Str(text) && r.(price := f.price) == f
  {
    f.(price := Str(text))
  }

  /** Typing into the stock input: its value is a string. */
  function EditStock(f: ProductForm, text: string): (r: ProductForm)
    ensures r.stock == Str(text) && r.(stock := f.stock) == f
  {
    f.(stock := Str(text))
  }

  /** The JSON array of strings that carries the image list. */
  function StringArray(list: seq<string>): (v: JsValue)
    ensures v.Arr? && |v.items| == |list|
    ensures forall i :: 0 <= i < |list| ==> v.items[i] == Str(list[i])
  {
    Arr(seq(|list|, i requires 0 <= i < |list| => Str(list[i])))
  }

  /** `productData`: the form's fields as they are, with `images` replaced by the split list. */
  function Payload(f: ProductForm): (b: ProductControllers.ProductBody)
    ensures b.name == Str(f.name) && b.description == Str(f.description) && b.category == Str(f.category)
    ensures b.price == f.price && b.stock == f.stock
    ensures b.images.Arr? && |b.images.items| == |ImageList(f.images)|
    ensures forall i :: 0 <= i < |b.images.items| ==> b.images.items[i] == Str(ImageList(f.images)[i])
  {
    ProductControllers.ProductBody(
      Str(f.name), Str(f.description), StringArray(ImageList(f.images)), Str(f.category), f.price, f.stock)
  }

  /** The page's request status. */
  datatype PageState = PageState(loading: bool, error: Option<string>)

  /**
    `handleSubmit`: the payload always goes out; afterwards loading ends and,
    on failure, the server's message (or the default) is shown.
  */
  function HandleSubmit(f: ProductForm, answer: Answer): (r: (PageState, ProductControllers.ProductBody))
    ensures r.1 == Payload(f) && !r.0.loading
    ensures answer.Accepted? ==> r.0.error.None?
    ensures answer.Rejected? ==> r.0.error == Some(MessageOr(answer.message, AddFailed))
  {
    match answer
    case Accepted => (PageState(false, None), Payload(f))
    case Rejected(m) => (PageState(false, Some(MessageOr(m, AddFailed))), Payload(f))
  }

  /**
    A blank image segment (an empty field, a doubled or trailing comma)
    passes the endpoint's truthiness guard but not the schema, so no product
    is ever created from such a form.
  */
  lemma BlankImageNeverCreated(
    f: ProductForm, k: nat, db: Db, caller: Id, newId: Id, now: nat, fault: Fault)
    requires k < |ImageList(f.images)| && ImageList(f.images)[k] == ""
    ensures ProductControllers.AddProduct(db, caller, Payload(f), newId, now, fault).0.status != 201
  {
  }

  /** The untouched form is refused with 400: its empty text fields and its price 0 are falsy. */
  lemma UntouchedFormRefused(db: Db, caller: Id, newId: Id, now: nat, fault: Fault)
    ensures ProductControllers.AddProduct(db, caller, Payload(InitialForm), newId, now, fault).0
            == Reply(400, Notice(ProductControllers.MissingFields))
  {
  }

  /** The endpoint's guard on a body whose image list is an array reads only the other five fields. */
  lemma GuardReadsFields(
    name: string, description: string, images: seq<string>, category: string, price: JsValue, stock: JsValue)
    ensures !ProductControllers.AnyFalsy(ProductControllers.ProductBody(
              Str(name), Str(description), StringArray(images), Str(category), price, stock)) <==>
              name != "" && description != "" && category != "" && !Falsy(price) && !Falsy(stock)
  {
  }

  /**
    The guard passes exactly when the text fields are filled and the price
    and stock are truthy: the image list is always a (truthy) array.
  */
  lemma EditedFormPassesGuard(f: ProductForm)
    ensures !ProductControllers.AnyFalsy(Payload(f)) <==>
              f.name != "" && f.description != "" && f.category != "" && !Falsy(f.price) && !Falsy(f.stock)
  {
    GuardReadsFields(f.name, f.description, ImageList(f.images), f.category, f.price, f.stock);
  }

  /**
    Once edited, the price is the input's value. A number input's value is
    either "" or decimal text without surrounding whitespace; any such text
    the Number cast reads as `x` ("0" included, which as text is truthy)
    passes the guard and, if the product is created, is saved as `x`.
  */
  lemma TypedPriceKept(f: ProductForm, text: string, x: real, db: Db, caller: Id, newId: Id, now: nat, fault: Fault)
    requires f.name != "" && f.description != "" && f.category != "" && !Falsy(f.stock)
    requires Schemas.ParseDecimal(text) == Some(x)
    ensures ProductControllers.AddProduct(db, caller, Payload(EditPrice(f, text)), newId, now, fault).0.status != 400
    ensures ProductControllers.AddProduct(db, caller, Payload(EditPrice(f, text)), newId, now, fault).0.status == 201 ==>
              ProductControllers.AddProduct(db, caller, Payload(EditPrice(f, text)), newId, now, fault).0.body.value.price == x
  {
    EditedFormPassesGuard(EditPrice(f, text));
    ProductControllers.PriceTextKept(db, caller, Payload(EditPrice(f, text)), text, x, newId, now, fault);
  }

  /** In particular a whole number typed into the price input is saved as that number. */
  lemma TypedWholePriceKept(f: ProductForm, n: nat, db: Db, caller: Id, newId: Id, now: nat, fault: Fault)
    requires f.name != "" && f.description != "" && f.category != "" && !Falsy(f.stock)
    ensures ProductControllers.AddProduct(db, caller, Payload(EditPrice(f, Schemas.DecimalString(n))), newId, now, fault).0.status == 201 ==>
              ProductControllers.AddProduct(db, caller, Payload(EditPrice(f, Schemas.DecimalString(n))), newId, now, fault).0.body.value.price == n as real
  {
    Schemas.DecimalRoundTrip(n);
    TypedPriceKept(f, Schemas.DecimalString(n), n as real, db, caller, newId, now, fault);
  }
}

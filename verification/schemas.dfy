/**
  The Shop, Product, Conversation and Message schemas as constructor
  functions: the cast of request-body values to the declared path types, the
  `trim` setter, `required` validation, defaults, timestamps, and the unique
  index on a shop's owner.
*/
module Schemas {
  import opened Wrappers
  import opened JsValues
  import opened Store
  import Text

  /** Why `save()` rejects a document. */
  datatype SaveError = CastError(path: string) | Required(path: string) | DuplicateKey(path: string)

  /** The logo a shop gets when none is given. */
  const DefaultLogo: string := "/images/default_logo.png"

  /** Cast of a body value to a String path; `None` when the value is undefined or null. */
  function CastString(path: string, v: JsValue): (r: Result<Option<string>, SaveError>)
    ensures v.Undefined? || v.Null? ==> r == Ok(None)
    ensures v.Str? ==> r == Ok(Some(v.s))
    ensures r.Err? <==> !(v.Undefined? || v.Null? || v.Bool? || v.Str?)
  {
    match v
    case Undefined => Ok(None)
    case Null => Ok(None)
    case Bool(b) => Ok(Some(if b then "true" else "false"))
    case Str(s) => Ok(Some(s))
    case _ => Err(CastError(path))
  }

  /**
    A required String path: cast, then the `trim` setter when the path has one,
    then the `required` validator, which rejects a missing or empty string.
  */
  function RequiredString(path: string, v: JsValue, trim: bool): (r: Result<string, SaveError>)
    ensures r.Ok? ==> r.value != ""
    ensures r.Ok? && trim ==> Text.Trimmed(r.value)
    ensures v.Str? ==> (r.Ok? <==> (if trim then Text.Trim(v.s) else v.s) != "")
    ensures v.Str? && r.Ok? ==> r.value == if trim then Text.Trim(v.s) else v.s
    ensures v.Undefined? || v.Null? ==> r == Err(Required(path))
  {
    match CastString(path, v)
    case Err(e) => Err(e)
    case Ok(None) => Err(Required(path))
    case Ok(Some(s)) =>
      var t := if trim then Text.Trim(s) else s;
      if t == "" then Err(Required(path)) else Ok(t)
  }

  predicate IsDigit(c: char)
  {
    '0' <= c <= '9'
  }

  predicate AllDigits(s: string)
  {
    forall i :: 0 <= i < |s| ==> IsDigit(s[i])
  }

  /** The value of a string of decimal digits. */
  function DigitsValue(s: string): nat
    requires AllDigits(s)
  {
    if |s| == 0 then 0 else DigitsValue(s[..|s| - 1]) * 10 + (s[|s| - 1] as int - '0' as int)
  }

  function Pow10(n: nat): (r: nat)
    ensures r >= 1
  {
    if n == 0 then 1 else 10 * Pow10(n - 1)
  }

  /** The digits after the decimal point, scaled down by their count. */
  function FractionValue(fraction: string): (r: real)
    requires AllDigits(fraction)
    ensures r >= 0.0
  {
    DigitsValue(fraction) as real / Pow10(|fraction|) as real
  }

  /** The value of a whole part and a fraction part. */
  function Magnitude(whole: string, fraction: string): (r: real)
    requires AllDigits(whole) && AllDigits(fraction)
    ensures r >= 0.0
  {
    DigitsValue(whole) as real + FractionValue(fraction)
  }

  /**
    A signed decimal literal `[+-]digits[.digits]` with at least one digit, as
    `Number` reads it. Empty and blank text are `CastNumber`'s to handle.
  */
  function ParseDecimal(t: string): (r: Option<real>)
    ensures t == "" ==> r.None?
    ensures r.Some? && |t| > 0 && t[0] == '-' ==> r.value <= 0.0
    ensures r.Some? && !(|t| > 0 && t[0] == '-') ==> r.value >= 0.0
  {
    Text.SplitNoSep("", '.');
    var body := if |t| > 0 && (t[0] == '-' || t[0] == '+') then t[1..] else t;
    var parts := Text.Split(body, '.');
    if |parts| > 2 then None
    else
      var whole := parts[0];
      var fraction := if |parts| == 2 then parts[1] else "";
      if !AllDigits(whole) || !AllDigits(fraction) || |whole| + |fraction| == 0 then None
      else
        var magnitude := Magnitude(whole, fraction);
        Some(if |t| > 0 && t[0] == '-' then -magnitude else magnitude)
  }

  /** The decimal digits of a whole number, as `String(n)` writes them. */
  function DecimalString(n: nat): (s: string)
    ensures s != "" && AllDigits(s)
  {
    var last := ('0' as int + n % 10) as char;
    if n < 10 then [last] else DecimalString(n / 10) + [last]
  }

  /** Reading back the digits of a whole number gives the number. */
  lemma {:induction false} DigitsValueOfDecimalString(n: nat)
    ensures DigitsValue(DecimalString(n)) == n
  {
    var s := DecimalString(n);
    if n >= 10 {
      DigitsValueOfDecimalString(n / 10);
      assert s[..|s| - 1] == DecimalString(n / 10);
    }
  }

  /** A non-empty run of digits reads as its value. */
  lemma ParseDigits(s: string)
    requires s != "" && AllDigits(s)
    ensures ParseDecimal(s) == Some(DigitsValue(s) as real)
  {
    assert '.' !in s by {
      forall i | 0 <= i < |s| ensures s[i] != '.' { assert IsDigit(s[i]); }
    }
    assert !(s[0] == '-' || s[0] == '+') by { assert IsDigit(s[0]); }
    Text.SplitNoSep(s, '.');
    assert AllDigits("");
    assert DigitsValue("") == 0;
  }

  /** The digits of a whole number read back as that number. */
  lemma DecimalRoundTrip(n: nat)
    ensures ParseDecimal(DecimalString(n)) == Some(n as real)
  {
    ParseDigits(DecimalString(n));
    DigitsValueOfDecimalString(n);
  }

  /** Text without the decimal point. */
  lemma NoPoint(s: string)
    requires AllDigits(s)
    ensures '.' !in s
  {
    forall i | 0 <= i < |s| ensures s[i] != '.' { assert IsDigit(s[i]); }
  }

  /** Unsigned text with a point: the whole part plus the fraction scaled by its digit count. */
  lemma ParseFraction(whole: string, d: string)
    requires whole != "" && AllDigits(whole) && d != "" && AllDigits(d)
    ensures ParseDecimal(whole + "." + d)
            == Some(Magnitude(whole, d))
  {
    var body := whole + "." + d;
    NoPoint(whole);
    NoPoint(d);
    assert body == whole + ['.'] + d;
    Text.SplitPrefix(whole, d, '.');
    Text.SplitNoSep(d, '.');
    var parts := Text.Split(body, '.');
    assert parts == [whole, d];
    assert parts[0] == whole && parts[1] == d;
    assert !(body[0] == '-' || body[0] == '+') by { assert body[0] == whole[0] && IsDigit(whole[0]); }
  }

  /** A leading '-' before unsigned text negates what the text reads as. */
  lemma ParseNegated(body: string)
    requires body != "" && IsDigit(body[0]) && ParseDecimal(body).Some?
    ensures ParseDecimal("-" + body) == Some(-ParseDecimal(body).value)
  {
    var t := "-" + body;
    assert t[0] == '-' && t[1..] == body;
  }

  /**
    Decimal text with a fractional part reads as the whole part plus the
    digits after the point scaled by their count.
  */
  lemma FractionRoundTrip(n: nat, d: string)
    requires d != "" && AllDigits(d)
    ensures ParseDecimal(DecimalString(n) + "." + d) == Some(n as real + FractionValue(d))
  {
    ParseFraction(DecimalString(n), d);
    DigitsValueOfDecimalString(n);
  }

  /** A leading '-' before decimal text with a fractional part negates its value. */
  lemma NegativeFractionRoundTrip(n: nat, d: string)
    requires d != "" && AllDigits(d)
    ensures ParseDecimal("-" + DecimalString(n) + "." + d) == Some(-(n as real + FractionValue(d)))
  {
    var whole := DecimalString(n);
    FractionRoundTrip(n, d);
    SignedText(whole, d);
    ParseNegated(whole + "." + d);
  }

  /** Signed decimal text is the sign followed by the unsigned text, which starts with a digit. */
  lemma SignedText(whole: string, d: string)
    requires whole != "" && AllDigits(whole)
    ensures "-" + whole + "." + d == "-" + (whole + "." + d)
    ensures IsDigit((whole + "." + d)[0])
  {
    assert (whole + "." + d)[0] == whole[0];
  }

  /** Joining runs of digits with a separator gives only digits and separators. */
  lemma {:induction false} JoinOfDigits(parts: seq<string>, sep: char)
    requires |parts| >= 1 && forall k :: 0 <= k < |parts| ==> AllDigits(parts[k])
    ensures forall i :: 0 <= i < |Text.Join(parts, sep)| ==>
              Text.Join(parts, sep)[i] == sep || IsDigit(Text.Join(parts, sep)[i])
  {
    if |parts| > 1 {
      JoinOfDigits(parts[1..], sep);
      var rest := Text.Join(parts[1..], sep);
      var joined := Text.Join(parts, sep);
      assert joined == parts[0] + [sep] + rest;
      forall i | 0 <= i < |joined| ensures joined[i] == sep || IsDigit(joined[i]) {
        if i < |parts[0]| {
          assert joined[i] == parts[0][i];
        } else if i > |parts[0]| {
          assert joined[i] == rest[i - |parts[0]| - 1];
        }
      }
    }
  }

  /** What a successful read of decimal text says about its shape. */
  lemma ParsedShape(t: string)
    requires ParseDecimal(t).Some?
    ensures var body := if |t| > 0 && (t[0] == '-' || t[0] == '+') then t[1..] else t;
            var parts := Text.Split(body, '.');
            && 1 <= |parts| <= 2
            && (forall k :: 0 <= k < |parts| ==> AllDigits(parts[k]))
            && (|parts[0]| > 0 || (|parts| == 2 && |parts[1]| > 0))
  {
  }

  /**
    Text the Number cast reads is made of a sign, digits and a point only, so
    it has no whitespace to trim: the value of a number input reads as itself.
  */
  lemma ParsedIsTrimmed(t: string)
    requires ParseDecimal(t).Some?
    ensures t != "" && forall i :: 0 <= i < |t| ==> !Text.IsSpace(t[i])
    ensures Text.Trim(t) == t
  {
    var signed := |t| > 0 && (t[0] == '-' || t[0] == '+');
    var body := if signed then t[1..] else t;
    var parts := Text.Split(body, '.');
    ParsedShape(t);
    assert t != "" by {
      if t == "" {
        Text.SplitNoSep("", '.');
        assert false;
      }
    }
    JoinOfDigits(parts, '.');
    assert Text.Join(parts, '.') == body;
    forall i | 0 <= i < |t| ensures !Text.IsSpace(t[i]) {
      if signed && i == 0 {
      } else {
        var c := body[if signed then i - 1 else i];
        assert t[i] == c;
        assert c == '.' || IsDigit(c);
      }
    }
    assert Text.Trimmed(t);
    Text.TrimmedIsFixed(t);
  }

  /**
    Cast of a body value to a Number path: undefined, null and "" are absent;
    other strings go through `Number`, which ignores surrounding whitespace and
    reads a blank string as 0; booleans become 1 and 0; NaN, arrays and objects
    are cast errors.
  */
  function CastNumber(path: string, v: JsValue): (r: Result<Option<real>, SaveError>)
    ensures v.Null? || v == Str("") ==> r == Ok(None)
    ensures v.Num? ==> r == Ok(Some(v.x))
    ensures v.Str? && ParseDecimal(Text.Trim(v.s)).Some? ==> r == Ok(ParseDecimal(Text.Trim(v.s)))
    ensures v.Str? && Text.Trim(v.s) != "" && ParseDecimal(Text.Trim(v.s)).None? ==> r.Err?
    ensures v.Str? && v.s != "" && Text.AllSpace(v.s) ==> r == Ok(Some(0.0))
    ensures v.Bool? ==> r == Ok(Some(if v.b then 1.0 else 0.0))
    ensures v.Undefined? ==> r == Ok(None)
    ensures v.NaN? || v.Arr? || v.Obj? ==> r.Err?
  {
    match v
    case Undefined => Ok(None)
    case Null => Ok(None)
    case Bool(b) => Ok(Some(if b then 1.0 else 0.0))
    case Num(x) => Ok(Some(x))
    case Str(s) =>
      Text.TrimEmptyIffAllSpace(s);
      if s == "" then Ok(None)
      else if Text.Trim(s) == "" then Ok(Some(0.0))
      else
        (match ParseDecimal(Text.Trim(s))
         case None => Err(CastError(path))
         case Some(x) => Ok(Some(x)))
    case _ => Err(CastError(path))
  }

  /**
    A required Number path with `default: 0`: an undefined value takes the
    default, while a value that casts to null (null itself, or "") fails the
    `required` validator.
  */
  function RequiredNumber(path: string, v: JsValue): (r: Result<real, SaveError>)
    ensures v.Undefined? ==> r == Ok(0.0)
    ensures v.Num? ==> r == Ok(v.x)
    ensures v.Null? || v == Str("") ==> r == Err(Required(path))
    ensures v.Str? && ParseDecimal(Text.Trim(v.s)).Some? ==> r == Ok(ParseDecimal(Text.Trim(v.s)).value)
    ensures v.Str? && Text.Trim(v.s) != "" && ParseDecimal(Text.Trim(v.s)).None? ==> r.Err?
  {
    if v.Undefined? then Ok(0.0)
    else
      match CastNumber(path, v)
      case Err(e) => Err(e)
      case Ok(None) => Err(Required(path))
      case Ok(Some(x)) => Ok(x)
  }

  /** Every element of a string array satisfies the element's `required` validator. */
  function RequiredElements(path: string, xs: seq<string>): (r: Result<seq<string>, SaveError>)
    ensures r.Ok? <==> forall i :: 0 <= i < |xs| ==> xs[i] != ""
    ensures r.Ok? ==> r.value == xs
  {
    if forall i :: 0 <= i < |xs| ==> xs[i] != "" then Ok(xs) else Err(Required(path))
  }

  /** The strings of an array whose every item is a string. */
  function Strings(items: seq<JsValue>): (r: Option<seq<string>>)
    ensures r.Some? <==> forall i :: 0 <= i < |items| ==> items[i].Str?
    ensures r.Some? ==> |r.value| == |items| && forall i :: 0 <= i < |items| ==> r.value[i] == items[i].s
  {
    if |items| == 0 then Some([])
    else if !items[0].Str? then None
    else
      match Strings(items[1..])
      case None => None
      case Some(rest) => Some([items[0].s] + rest)
  }

  /**
    Cast of a body value to the `[String]` images path (each element
    `required`): an array of strings as it is, a lone string as a one-element
    array, undefined or null as the empty default.
  */
  function CastImages(v: JsValue): (r: Result<seq<string>, SaveError>)
    ensures v.Undefined? || v.Null? ==> r == Ok([])
    ensures r.Ok? ==> forall i :: 0 <= i < |r.value| ==> r.value[i] != ""
    ensures r.Ok? && v.Arr? ==> |r.value| == |v.items| && forall i :: 0 <= i < |v.items| ==> v.items[i] == Str(r.value[i])
    ensures v.Arr? ==> (r.Ok? <==> forall i :: 0 <= i < |v.items| ==> v.items[i].Str? && v.items[i].s != "")
    ensures v.Str? ==> (r.Ok? <==> v.s != "") && (r.Ok? ==> r.value == [v.s])
    ensures v.Arr? && (exists i :: 0 <= i < |v.items| && v.items[i] == Str("")) ==> r.Err?
  {
    match v
    case Undefined => Ok([])
    case Null => Ok([])
    case Str(s) =>
      assert [s][0] == s;
      RequiredElements("images", [s])
    case Arr(items) =>
      (match Strings(items)
       case None => Err(CastError("images"))
       case Some(xs) => RequiredElements("images", xs))
    case _ => Err(CastError("images"))
  }

  /**
    `new Shop({ name, description, owner })` followed by validation: the name
    is trimmed and must not be empty, the description must not be empty, the
    logo defaults to a placeholder, and both timestamps are the save time.
  */
  function NewShop(id: Id, now: nat, owner: Id, name: JsValue, description: JsValue, logo: JsValue)
    : (r: Result<Shop, SaveError>)
    ensures r.Ok? ==> r.value.id == id && r.value.owner == owner
    ensures r.Ok? ==> r.value.name != "" && Text.Trimmed(r.value.name) && r.value.description != ""
    ensures name.Str? && description.Str? && (logo.Undefined? || logo.Str?) ==>
              (r.Ok? <==> Text.Trim(name.s) != "" && description.s != "")
    ensures r.Ok? && name.Str? ==> r.value.name == Text.Trim(name.s)
    ensures r.Ok? && description.Str? ==> r.value.description == description.s
    ensures r.Ok? && logo.Undefined? ==> r.value.logo == DefaultLogo
    ensures r.Ok? && logo.Str? ==> r.value.logo == logo.s
    ensures name.Undefined? || name.Null? || description.Undefined? || description.Null? ==> r.Err?
    ensures r.Ok? ==> r.value.createdAt == now && r.value.updatedAt == now
  {
    var n := RequiredString("name", name, true);
    var d := RequiredString("description", description, false);
    var l := CastString("logo", logo);
    assert logo.Undefined? || logo.Str? ==> l.Ok?;
    assert name.Str? ==> (n.Ok? <==> Text.Trim(name.s) != "");
    assert description.Str? ==> (d.Ok? <==> description.s != "");
    if n.Err? then Err(n.error)
    else if d.Err? then Err(d.error)
    else if l.Err? then Err(l.error)
    else Ok(Shop(id, owner, n.value, d.value, l.value.GetOr(DefaultLogo), now, now))
  }

  /** No two shops share an owner: what the unique index on `owner` enforces. */
  predicate OwnersUnique(shops: seq<Shop>)
  {
    forall i, j :: 0 <= i < j < |shops| ==> shops[i].owner != shops[j].owner
  }

  /** `shop.save()` against the unique index on `owner`: a second shop for the same owner is refused. */
  function SaveShop(db: Db, shop: Shop): (r: Result<Db, SaveError>)
    ensures r.Err? <==> exists i :: 0 <= i < |db.shops| && db.shops[i].owner == shop.owner
    ensures r.Ok? ==> r.value == db.(shops := db.shops + [shop])
    ensures r.Ok? && OwnersUnique(db.shops) ==> OwnersUnique(r.value.shops)
  {
    if exists i :: 0 <= i < |db.shops| && db.shops[i].owner == shop.owner then Err(DuplicateKey("owner"))
    else Ok(db.(shops := db.shops + [shop]))
  }

  /**
    `new Product({...})` followed by validation: shop reference set, name
    trimmed and required, description and category required, images an array
    of non-empty strings, price and stock numbers defaulting to 0.
  */
  function NewProduct(
    id: Id, now: nat, shop: Id, name: JsValue, description: JsValue, images: JsValue,
    category: JsValue, price: JsValue, stock: JsValue): (r: Result<Product, SaveError>)
    ensures r.Ok? ==> r.value.id == id && r.value.shop == shop
    ensures r.Ok? ==> r.value.name != "" && Text.Trimmed(r.value.name)
    ensures r.Ok? ==> r.value.description != "" && r.value.category != ""
    ensures r.Ok? ==> forall i :: 0 <= i < |r.value.images| ==> r.value.images[i] != ""
    ensures r.Ok? && name.Str? ==> r.value.name == Text.Trim(name.s)
    ensures r.Ok? && description.Str? ==> r.value.description == description.s
    ensures r.Ok? && category.Str? ==> r.value.category == category.s
    ensures r.Ok? && images.Arr? ==> |r.value.images| == |images.items|
    ensures r.Ok? && images.Arr? ==> forall i :: 0 <= i < |images.items| ==> images.items[i] == Str(r.value.images[i])
    ensures r.Ok? && price.Num? ==> r.value.price == price.x
    ensures r.Ok? && price.Undefined? ==> r.value.price == 0.0
    ensures r.Ok? && stock.Num? ==> r.value.stock == stock.x
    ensures r.Ok? && stock.Undefined? ==> r.value.stock == 0.0
    ensures r.Ok? && price.Str? && ParseDecimal(Text.Trim(price.s)).Some? ==> r.value.price == ParseDecimal(Text.Trim(price.s)).value
    ensures r.Ok? && stock.Str? && ParseDecimal(Text.Trim(stock.s)).Some? ==> r.value.stock == ParseDecimal(Text.Trim(stock.s)).value
    ensures images.Arr? && (exists i :: 0 <= i < |images.items| && images.items[i] == Str("")) ==> r.Err?
    ensures r.Ok? ==> r.value.createdAt == now && r.value.updatedAt == now
    ensures r.Ok? <==>
              && RequiredString("name", name, true).Ok? && RequiredString("description", description, false).Ok?
              && CastImages(images).Ok? && RequiredString("category", category, false).Ok?
              && RequiredNumber("price", price).Ok? && RequiredNumber("stock", stock).Ok?
  {
    var n := RequiredString("name", name, true);
    var d := RequiredString("description", description, false);
    var imgs := CastImages(images);
    var c := RequiredString("category", category, false);
    var p := RequiredNumber("price", price);
    var k := RequiredNumber("stock", stock);
    if n.Ok? && d.Ok? && imgs.Ok? && c.Ok? && p.Ok? && k.Ok? then
      Ok(Product(id, shop, n.value, d.value, imgs.value, c.value, p.value, k.value, now, now))
    else
      // the first failing path in schema order
      Err(if n.Err? then n.error else if d.Err? then d.error else if imgs.Err? then imgs.error
          else if c.Err? then c.error else if p.Err? then p.error else k.error)
  }

  /** `Conversation.create({ participants })`: the participant list is stored as given. */
  function NewConversation(id: Id, now: nat, participants: seq<Id>): (c: Conversation)
    ensures c.id == id && c.participants == participants
    ensures c.createdAt == now && c.updatedAt == now
  {
    Conversation(id, participants, now, now)
  }

  /** `Message.create({ conversationId, sender, body })`: the body is stored verbatim. */
  function NewMessage(id: Id, now: nat, conversationId: Id, sender: Id, body: string): (m: Message)
    ensures m.id == id && m.conversationId == conversationId && m.sender == sender && m.body == body
    ensures m.createdAt == now && m.updatedAt == now
  {
    Message(id, conversationId, sender, body, now, now)
  }
}

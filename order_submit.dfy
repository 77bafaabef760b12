/** The order submitter behind the "send by WhatsApp" button: the guards, the order saved to the
    back end, the WhatsApp message built from the cart, and the cart reset after a saved order. */
module OrderSubmit {
  import opened JsValues
  import opened CartEngine
  import opened HalfHalf

  /** The body of the save request: the cart lines, their total, the delivery type and the
      address (`null` for pickup). */
  datatype Order = Order(items: seq<CartLine>, total: int, deliveryType: string, address: Option<string>)

  datatype OrderRefusal =
    | EmptyCart       // the cart holds no line
    | NoDeliveryType  // neither delivery nor pickup is checked
    | MissingAddress  // delivery is checked and the address field is blank

  /** The value of the home delivery radio button; any other value means pickup. */
  const HomeDelivery := "domicilio"

  /** The guards of the button, in order, and the order they let through. The total is computed
      with `reduce` over the lines. */
  function PrepareOrder(lines: seq<CartLine>, deliveryType: Option<string>, addressInput: string)
    : (r: Result<Order, OrderRefusal>)
    ensures r == Err(EmptyCart) <==> lines == []
    ensures r == Err(NoDeliveryType) <==> lines != [] && deliveryType.None?
    ensures r == Err(MissingAddress) <==>
      lines != [] && deliveryType == Some(HomeDelivery) && AllWhitespace(addressInput)
    ensures r.Ok? ==> r.value.items == lines && r.value.total == Sum(lines)
    ensures r.Ok? ==> Some(r.value.deliveryType) == deliveryType
    ensures r.Ok? ==> (r.value.address.Some? <==> r.value.deliveryType == HomeDelivery)
    ensures r.Ok? && r.value.address.Some? ==>
      r.value.address.value == Trim(addressInput) && r.value.address.value != ""
  {
    if lines == [] then Err(EmptyCart)
    else if deliveryType.None? then Err(NoDeliveryType)
    else
      TrimEmptyIff(addressInput);
      var address := if deliveryType.value == HomeDelivery then Some(Trim(addressInput)) else None;
      if address.Some? && address.value == "" then Err(MissingAddress)
      else
        Ok(Order(lines, Reduce(0, lines), deliveryType.value, address))
  }

  // ----- the WhatsApp message -----

  /** The item name as written into the message URL: `&`, `%` and `#` are spelled out, so the
      cleaned name contains none of the three characters that would break the URL. */
  function CleanName(name: string): (clean: string)
    ensures '&' !in clean && '%' !in clean && '#' !in clean
  {
    var s1 := ReplaceAll(name, '&', "y");
    var s2 := ReplaceAll(s1, '%', "por ciento");
    ReplaceAllRemoves(name, '&', "y");
    ReplaceAllKeepsAbsent(s1, '%', "por ciento", '&');
    ReplaceAllRemoves(s1, '%', "por ciento");
    ReplaceAllKeepsAbsent(s2, '#', "num", '&');
    ReplaceAllKeepsAbsent(s2, '#', "num", '%');
    ReplaceAllRemoves(s2, '#', "num");
    ReplaceAll(s2, '#', "num")
  }

  lemma CleanNameConcat(a: string, b: string)
    ensures CleanName(a + b) == CleanName(a) + CleanName(b)
  {
    ReplaceAllConcat(a, b, '&', "y");
    var a1, b1 := ReplaceAll(a, '&', "y"), ReplaceAll(b, '&', "y");
    ReplaceAllConcat(a1, b1, '%', "por ciento");
    var a2, b2 := ReplaceAll(a1, '%', "por ciento"), ReplaceAll(b1, '%', "por ciento");
    ReplaceAllConcat(a2, b2, '#', "num");
  }

  /** A name without `&`, `%` or `#` is written as it is. */
  lemma CleanNameOfPlain(s: string)
    requires '&' !in s && '%' !in s && '#' !in s
    ensures CleanName(s) == s
  {
    ReplaceAllAbsent(s, '&', "y");
    ReplaceAllAbsent(s, '%', "por ciento");
    ReplaceAllAbsent(s, '#', "num");
  }

  /** How one character of an item name is written into the message URL. */
  function CleanChar(c: char): string {
    if c == '&' then "y"
    else if c == '%' then "por ciento"
    else if c == '#' then "num"
    else [c]
  }

  /** The cleaning as a single left-to-right pass, one character at a time. */
  function CleanAll(s: string): string {
    if s == [] then [] else CleanChar(s[0]) + CleanAll(s[1..])
  }

  lemma ReplaceAllOfChar(c: char, x: char, rep: string)
    ensures ReplaceAll([c], x, rep) == if c == x then rep else [c]
  {
    assert [c][1..] == [];
  }

  lemma CleanNameOfChar(c: char)
    ensures CleanName([c]) == CleanChar(c)
  {
    ReplaceAllOfChar(c, '&', "y");
    if c == '&' {
      CleanNameOfPlain("y");
    } else {
      ReplaceAllOfChar(c, '%', "por ciento");
      if c == '%' {
        ReplaceAllAbsent("por ciento", '#', "num");
      } else {
        ReplaceAllOfChar(c, '#', "num");
      }
    }
  }

  /** The three successive replacements amount to spelling out `&` as "y", `%` as "por ciento"
      and `#` as "num", each character on its own. */
  lemma {:induction false} CleanNameIsCharwise(s: string)
    ensures CleanName(s) == CleanAll(s)
  {
    if s != [] {
      assert s == [s[0]] + s[1..];
      CleanNameConcat([s[0]], s[1..]);
      CleanNameOfChar(s[0]);
      CleanNameIsCharwise(s[1..]);
    }
  }

  /** "Pizza & Fainá" is sent as "Pizza y Fainá". */
  lemma CleanAmpersandExample(a: string, b: string)
    requires a == "Pizza " && b == " Fain\U{e1}"
    ensures CleanName(a + ['&'] + b) == a + "y" + b
  {
    CleanNameConcat(a + ['&'], b);
    CleanNameConcat(a, ['&']);
    CleanNameOfPlain(a);
    CleanNameOfPlain(b);
    CleanNameOfChar('&');
  }

  /** The heading the message code recognises a composite line by. */
  const HalfPrefix := Heading + ":"

  /** The two halves as the source reads them back from the cleaned name: the text after the first
      `:`, split at every `/`, the first two pieces trimmed; a missing second piece prints as
      "undefined". */
  function HalvesAsWritten(clean: string): (halves: (string, string))
    requires StartsWith(clean, HalfPrefix)
    ensures '/' !in halves.0 && '/' !in halves.1
  {
    assert clean[|Heading|] == HalfPrefix[|Heading|] == ':';
    var parts := Split(clean, ':');
    var pieces := Split(parts[1], '/');
    TrimKeepsAbsent(pieces[0], '/');
    if |pieces| >= 2 then
      TrimKeepsAbsent(pieces[1], '/');
      (Trim(pieces[0]), Trim(pieces[1]))
    else (Trim(pieces[0]), "undefined")
  }

  /** The halves as evidently intended: the text after the heading, cut at the first " / ", the
      separator the composite name is written with. */
  function HalvesIntended(clean: string): (string, string)
    requires StartsWith(clean, HalfPrefix)
  {
    var rest := clean[|HalfPrefix|..];
    match FindInfix(rest, " / ")
    case Some(k) => (Trim(rest[..k]), Trim(rest[k + 3..]))
    case None => (Trim(rest), "undefined")
  }

  function HalfLineText(halves: (string, string), price: int): string {
    Bulleted("Pizza Mitad y Mitad (mitad " + halves.0 + " / mitad " + halves.1 + ") - $" + IntToString(price))
  }

  /** ` (variant)` when the line has a non-empty variant. */
  function VariantSuffix(v: Option<string>): string {
    if v.Some? && v.value != "" then " (" + v.value + ")" else ""
  }

  function PlainLineText(clean: string, item: CartLine): string {
    Bulleted(clean + VariantSuffix(item.variant) + " - $" + IntToString(item.price))
  }

  /** The halves of a composite name, read back as the source does (`intended` false) or as
      intended. */
  function Halves(clean: string, intended: bool): (string, string)
    requires StartsWith(clean, HalfPrefix)
  {
    if intended then HalvesIntended(clean) else HalvesAsWritten(clean)
  }

  /** The message line of one cart line. With `intended` false it is the line the source writes.
      Each cart line gives one bullet line ending in an encoded line break. */
  function LineText(item: CartLine, intended: bool): (line: string)
    ensures StartsWith(line, "\U{2022} ")
    ensures |line| >= 3 && line[|line| - 3..] == "%0A"
  {
    var clean := CleanName(item.name);
    if StartsWith(clean, HalfPrefix) then HalfLineText(Halves(clean, intended), item.price)
    else PlainLineText(clean, item)
  }

  /** A message line: a bullet, the text, and an encoded line break. */
  function Bulleted(body: string): (t: string)
    ensures StartsWith(t, "\U{2022} ") && |t| >= 3 && t[|t| - 3..] == "%0A"
  {
    var t := "\U{2022} " + body + "%0A";
    assert t[..2] == "\U{2022} ";
    t
  }

  lemma SuffixOfConcat(a: string, b: string, t: string)
    requires |t| <= |b| && b[|b| - |t|..] == t
    ensures |t| <= |a + b| && (a + b)[|a + b| - |t|..] == t
  {
    assert (a + b)[|a + b| - |t|..] == b[|b| - |t|..];
  }

  /** The composite name regrouped around its first `:` and around the separator. */
  lemma CompositeShape(c1: string, c2: string)
    ensures CompositeName(c1, c2) == HalfPrefix + (" " + c1 + " / " + c2)
    ensures CompositeName(c1, c2) == Heading + [':'] + (" " + c1 + " / " + c2)
    ensures StartsWith(CompositeName(c1, c2), HalfPrefix)
  {
    var h, t := Heading, " " + c1 + " / " + c2;
    assert h + ": " + c1 + " / " + c2 == (h + ":") + t;
    assert (h + ":") + t == h + [':'] + t;
  }

  lemma CleanAround(h: string, a: string, sep: string, b: string)
    requires CleanName(h) == h && CleanName(sep) == sep
    ensures CleanName(h + a + sep + b) == h + CleanName(a) + sep + CleanName(b)
  {
    CleanNameConcat(h + a + sep, b);
    CleanNameConcat(h + a, sep);
    CleanNameConcat(h, a);
  }

  lemma HeadingIsPlain()
    ensures CleanName(Heading + ": ") == Heading + ": " && CleanName(" / ") == " / "
  {
    CleanNameOfPlain(Heading + ": ");
    CleanNameOfPlain(" / ");
  }

  /** Cleaning the composite name cleans each flavour name and leaves the rest as it is. */
  lemma CleanComposite(n1: string, n2: string)
    ensures CleanName(CompositeName(n1, n2)) == CompositeName(CleanName(n1), CleanName(n2))
  {
    HeadingIsPlain();
    CleanAround(Heading + ": ", n1, " / ", n2);
  }

  /** Reading the halves back, as intended, from a composite name gives both flavour names,
      trimmed, as long as the first one does not itself contain " / ". */
  lemma HalvesOfComposite(c1: string, c2: string)
    requires !HasInfix(" " + c1 + " /", " / ")
    ensures StartsWith(CompositeName(c1, c2), HalfPrefix)
    ensures HalvesIntended(CompositeName(c1, c2)) == (Trim(c1), Trim(c2))
  {
    CompositeShape(c1, c2);
    var rest := CompositeName(c1, c2)[|HalfPrefix|..];
    assert rest == (" " + c1) + " / " + c2;
    assert " / "[..2] == " /";
    FindInfixAfter(" " + c1, " / ", c2);
    var k := |c1| + 1;
    assert rest[..k] == " " + c1 && rest[k + 3..] == c2;
    TrimLeadingSpace(c1);
  }

  /** A flavour name with no `/` cannot contain the separator " / " when followed by it. */
  lemma NoSeparatorInSlashFree(c1: string)
    requires '/' !in c1
    ensures !HasInfix(" " + c1 + " /", " / ")
  {
    var t := " " + c1 + " /";
    forall j: nat | j + 3 <= |t|
      ensures !InfixAt(t, " / ", j)
    {
      assert t[j..j + 3][1] == t[j + 1];
      if j + 1 <= |c1| {
        assert t[j + 1] == c1[j];
      }
    }
  }

  /** Splitting the composite name the source's way when neither flavour has a `/` or a `:`. */
  lemma SplitPlainComposite(c1: string, c2: string)
    requires '/' !in c1 && ':' !in c1 && '/' !in c2 && ':' !in c2
    ensures StartsWith(CompositeName(c1, c2), HalfPrefix)
    ensures HalvesAsWritten(CompositeName(c1, c2)) == (Trim(" " + c1 + " "), Trim(" " + c2))
  {
    CompositeShape(c1, c2);
    var r := " " + c1 + " / " + c2;
    assert ':' !in Heading;
    SplitAt(Heading, ':', r);
    assert Split(r, ':') == [r];
    assert r == (" " + c1 + " ") + ['/'] + (" " + c2);
    SplitAt(" " + c1 + " ", '/', " " + c2);
  }

  lemma PlainCompositeAsWritten(c1: string, c2: string)
    requires '/' !in c1 && ':' !in c1 && '/' !in c2 && ':' !in c2
    requires Unpadded(c1) && Unpadded(c2)
    ensures StartsWith(CompositeName(c1, c2), HalfPrefix)
    ensures HalvesAsWritten(CompositeName(c1, c2)) == (c1, c2)
  {
    SplitPlainComposite(c1, c2);
    TrimAround(" ", c1, " ");
    TrimAround(" ", c2, "");
    assert " " + c2 + "" == " " + c2;
  }

  lemma PlainCompositeIntended(c1: string, c2: string)
    requires '/' !in c1 && Unpadded(c1) && Unpadded(c2)
    ensures StartsWith(CompositeName(c1, c2), HalfPrefix)
    ensures HalvesIntended(CompositeName(c1, c2)) == (c1, c2)
  {
    NoSeparatorInSlashFree(c1);
    HalvesOfComposite(c1, c2);
    TrimAround("", c1, "");
    TrimAround("", c2, "");
    assert "" + c1 + "" == c1 && "" + c2 + "" == c2;
  }

  /** On flavour names without `/` or `:` and with no surrounding whitespace, the source's parse and
      the intended one agree, and both give the two flavours back. */
  lemma HalvesAgreeOnPlainNames(c1: string, c2: string)
    requires '/' !in c1 && ':' !in c1 && '/' !in c2 && ':' !in c2
    requires Unpadded(c1) && Unpadded(c2)
    ensures StartsWith(CompositeName(c1, c2), HalfPrefix)
    ensures HalvesAsWritten(CompositeName(c1, c2)) == (c1, c2)
    ensures HalvesIntended(CompositeName(c1, c2)) == (c1, c2)
  {
    PlainCompositeAsWritten(c1, c2);
    PlainCompositeIntended(c1, c2);
  }

  /** When the first flavour's name has a `/`, the source reads the text before it as the first half
      and the text after it as the second half; the second flavour is lost. */
  lemma SlashInFirstFlavour(a: string, b: string, c2: string)
    requires ':' !in a && ':' !in b && ':' !in c2
    requires '/' !in a && '/' !in b
    ensures StartsWith(CompositeName(a + "/" + b, c2), HalfPrefix)
    ensures HalvesAsWritten(CompositeName(a + "/" + b, c2)) == (Trim(" " + a), Trim(b + " "))
  {
    var c1 := a + "/" + b;
    CompositeShape(c1, c2);
    var r := " " + c1 + " / " + c2;
    assert ':' !in r;
    SplitAt(Heading, ':', r);
    assert Split(r, ':') == [r];
    assert r == (" " + a) + ['/'] + ((b + " ") + ['/'] + (" " + c2));
    SplitAt(" " + a, '/', (b + " ") + ['/'] + (" " + c2));
    SplitAt(b + " ", '/', " " + c2);
  }

  lemma ExampleTrims()
    ensures Trim(" " + "Muzza c") == "Muzza c" && Trim(" ajo" + " ") == "ajo"
    ensures Trim("Muzza c/ ajo") == "Muzza c/ ajo" && Trim("Napolitana") == "Napolitana"
  {
    TrimAround(" ", "Muzza c", "");
    assert " " + "Muzza c" + "" == " " + "Muzza c";
    TrimAround(" ", "ajo", " ");
    assert " " + "ajo" + " " == " ajo" + " ";
    TrimAround("", "Muzza c/ ajo", "");
    TrimAround("", "Napolitana", "");
    assert "" + "Muzza c/ ajo" + "" == "Muzza c/ ajo" && "" + "Napolitana" + "" == "Napolitana";
  }

  /** The pizza "Muzza c/ ajo" halved with "Napolitana" is printed as halves "Muzza c" and "ajo". */
  lemma SlashInFlavourGarbled()
    ensures StartsWith(CompositeName("Muzza c/ ajo", "Napolitana"), HalfPrefix)
    ensures HalvesAsWritten(CompositeName("Muzza c/ ajo", "Napolitana")) == ("Muzza c", "ajo")
  {
    assert "Muzza c/ ajo" == "Muzza c" + "/" + " ajo";
    SlashInFirstFlavour("Muzza c", " ajo", "Napolitana");
    ExampleTrims();
  }

  /** The intended reading gives both flavours of that pizza back. */
  lemma SlashInFlavourReadAsIntended()
    ensures StartsWith(CompositeName("Muzza c/ ajo", "Napolitana"), HalfPrefix)
    ensures HalvesIntended(CompositeName("Muzza c/ ajo", "Napolitana")) == ("Muzza c/ ajo", "Napolitana")
  {
    NoSlashSeparatorExample();
    HalvesOfComposite("Muzza c/ ajo", "Napolitana");
    ExampleTrims();
  }

  lemma NoSlashSeparatorExample()
    ensures !HasInfix(" " + "Muzza c/ ajo" + " /", " / ")
  {
    var t := " " + "Muzza c/ ajo" + " /";
    assert t == " Muzza c/ ajo /";
    forall j: nat | j + 3 <= |t|
      ensures !InfixAt(t, " / ", j)
    {
      assert t[j..j + 3][0] == t[j] && t[j..j + 3][1] == t[j + 1];
      assert t[j] != ' ' || t[j + 1] != '/';
    }
  }

  /** The message line of a half & half line names both flavours, cleaned and trimmed. */
  lemma CompositeLineText(item: CartLine, n1: string, n2: string)
    requires item.name == CompositeName(n1, n2)
    requires !HasInfix(" " + CleanName(n1) + " /", " / ")
    ensures LineText(item, true) == HalfLineText((Trim(CleanName(n1)), Trim(CleanName(n2))), item.price)
  {
    CleanComposite(n1, n2);
    HalvesOfComposite(CleanName(n1), CleanName(n2));
  }

  /** A flavour name the message reads back unchanged: no `/` or `:`, nothing the cleaning
      replaces, and no whitespace at either end. */
  predicate PlainFlavour(n: string) {
    '/' !in n && ':' !in n && '&' !in n && '%' !in n && '#' !in n && Unpadded(n)
  }

  /** The source's line and the intended one for a composite of two plain flavours are the same
      line, naming both flavours. */
  lemma PlainCompositeLine(item: CartLine, n1: string, n2: string)
    requires item.name == CompositeName(n1, n2)
    requires PlainFlavour(n1) && PlainFlavour(n2)
    ensures LineText(item, false) == HalfLineText((n1, n2), item.price)
    ensures LineText(item, true) == HalfLineText((n1, n2), item.price)
  {
    CleanComposite(n1, n2);
    CleanNameOfPlain(n1);
    CleanNameOfPlain(n2);
    HalvesAgreeOnPlainNames(n1, n2);
  }

  /** A cart line whose message line does not depend on how the halves are read back: it is not a
      composite, or it is a composite of two plain flavours. */
  ghost predicate ReadsBackAlike(item: CartLine) {
    !StartsWith(CleanName(item.name), HalfPrefix)
    || exists n1, n2 :: item.name == CompositeName(n1, n2) && PlainFlavour(n1) && PlainFlavour(n2)
  }

  lemma LineReadsBackAlike(item: CartLine)
    requires ReadsBackAlike(item)
    ensures LineText(item, false) == LineText(item, true)
  {
    if StartsWith(CleanName(item.name), HalfPrefix) {
      var n1, n2 :| item.name == CompositeName(n1, n2) && PlainFlavour(n1) && PlainFlavour(n2);
      PlainCompositeLine(item, n1, n2);
    }
  }

  /** The composer's line for two plain flavours reads back alike. */
  lemma ComposerLineReadsBackAlike(s1: Selection, s2: Selection)
    requires s1.Some? ==> Offered(s1.value)
    requires s2.Some? ==> Offered(s2.value)
    requires HalfHalfLine(s1, s2).Ok?
    requires PlainFlavour(SelectedName(s1)) && PlainFlavour(SelectedName(s2))
    ensures ReadsBackAlike(HalfHalfLine(s1, s2).value)
  {
    var n1, n2 := SelectedName(s1), SelectedName(s2);
    assert HalfHalfLine(s1, s2).value.name == CompositeName(n1, n2);
  }

  // ----- the whole message -----

  const Greeting := "Hola! quiero hacer este pedido:%0A%0A"

  /** The item lines, one per cart line, in cart order. */
  function ItemsText(items: seq<CartLine>, intended: bool): string
    decreases |items|
  {
    if items == [] then ""
    else ItemsText(items[..|items| - 1], intended) + LineText(items[|items| - 1], intended)
  }

  /** `${address}` in a template: "null" for no address. */
  function AddressText(a: Option<string>): string {
    if a.None? then "null" else a.value
  }

  /** The total line and the delivery line. */
  function Closing(order: Order): string {
    "%0ATotal: $" + IntToString(order.total) + "%0A"
    + if order.deliveryType == HomeDelivery
      then "%0AEnv\U{ed}o a domicilio \U{2022} Direcci\U{f3}n: " + AddressText(order.address)
      else "%0ARetiro en el local"
  }

  /** The whole message. With `intended` false it is the message the source writes. It opens with
      the greeting and ends with the pickup line, or with the address for a home delivery. */
  function MessageOf(order: Order, intended: bool): (message: string)
    ensures StartsWith(message, Greeting)
    ensures |DeliveryTail(order)| <= |message|
    ensures message[|message| - |DeliveryTail(order)|..] == DeliveryTail(order)
  {
    MessageEnds(Greeting, ItemsText(order.items, intended), order);
    Greeting + ItemsText(order.items, intended) + Closing(order)
  }

  lemma MessageEnds(greeting: string, items: string, order: Order)
    ensures StartsWith(greeting + items + Closing(order), greeting)
    ensures var m := greeting + items + Closing(order);
      |DeliveryTail(order)| <= |m| && m[|m| - |DeliveryTail(order)|..] == DeliveryTail(order)
  {
    ClosingEndsWithDelivery(order);
    SuffixOfConcat(greeting + items, Closing(order), DeliveryTail(order));
    assert (greeting + items + Closing(order))[..|greeting|] == greeting;
  }

  /** The last part of the message: the pickup line, or the address for a home delivery. */
  function DeliveryTail(order: Order): string {
    if order.deliveryType == HomeDelivery then AddressText(order.address) else "%0ARetiro en el local"
  }

  lemma ClosingEndsWithDelivery(order: Order)
    ensures |DeliveryTail(order)| <= |Closing(order)|
    ensures Closing(order)[|Closing(order)| - |DeliveryTail(order)|..] == DeliveryTail(order)
  {
    var total := "%0ATotal: $" + IntToString(order.total) + "%0A";
    var tail := DeliveryTail(order);
    assert tail[|tail| - |tail|..] == tail;
    if order.deliveryType == HomeDelivery {
      var sent := "%0AEnv\U{ed}o a domicilio \U{2022} Direcci\U{f3}n: ";
      assert Closing(order) == total + (sent + tail);
      SuffixOfConcat(sent, tail, tail);
      SuffixOfConcat(total, sent + tail, tail);
    } else {
      assert Closing(order) == total + tail;
      SuffixOfConcat(total, tail, tail);
    }
  }

  /** When every line reads back alike, the message the source writes is the intended one. */
  lemma {:induction false} ItemsTextReadsBackAlike(items: seq<CartLine>)
    requires forall i :: 0 <= i < |items| ==> ReadsBackAlike(items[i])
    ensures ItemsText(items, false) == ItemsText(items, true)
    decreases |items|
  {
    if items != [] {
      ItemsTextReadsBackAlike(items[..|items| - 1]);
      LineReadsBackAlike(items[|items| - 1]);
    }
  }

  lemma MessageReadsBackAlike(order: Order)
    requires forall i :: 0 <= i < |order.items| ==> ReadsBackAlike(order.items[i])
    ensures MessageOf(order, false) == MessageOf(order, true)
  {
    ItemsTextReadsBackAlike(order.items);
  }

  /** One more cart line adds its message line at the end of whatever precedes the lines. */
  lemma ItemsTextStep(head: string, items: seq<CartLine>, i: nat, intended: bool)
    requires i < |items|
    ensures head + ItemsText(items[..i + 1], intended) == head + ItemsText(items[..i], intended) + LineText(items[i], intended)
  {
    assert items[..i + 1][..i] == items[..i];
  }

  /** The message loop: the greeting, one line per cart line appended in order, then the total and
      the delivery line, each line written as the source writes it. */
  method BuildMessage(order: Order) returns (message: string)
    ensures message == MessageOf(order, false)
  {
    message := Greeting;
    var i := 0;
    while i < |order.items|
      invariant 0 <= i <= |order.items|
      invariant message == Greeting + ItemsText(order.items[..i], false)
    {
      var line := LineText(order.items[i], false);
      ItemsTextStep(Greeting, order.items, i, false);
      message := message + line;
      i := i + 1;
    }
    assert order.items[..i] == order.items;
    message := message + Closing(order);
  }

  lemma IntToStringHasOnlyDigits(i: int, x: char)
    requires x == '&' || x == '#'
    ensures x !in IntToString(i)
  {
    var s := IntToString(i);
    forall k | 0 <= k < |s|
      ensures s[k] != x
    {
      if i < 0 && k > 0 {
        assert s[1..][k - 1] == s[k];
      }
    }
  }

  /** The halves read back, either way, from a name without `x` contain no `x`. */
  lemma HalvesKeepOut(clean: string, intended: bool, x: char)
    requires StartsWith(clean, HalfPrefix)
    requires x == '&' || x == '#'
    requires x !in clean
    ensures x !in Halves(clean, intended).0 && x !in Halves(clean, intended).1
  {
    if intended {
      HalvesIntendedKeepOut(clean, x);
    } else {
      HalvesAsWrittenKeepOut(clean, x);
    }
  }

  lemma HalvesAsWrittenKeepOut(clean: string, x: char)
    requires StartsWith(clean, HalfPrefix)
    requires x == '&' || x == '#'
    requires x !in clean
    ensures x !in HalvesAsWritten(clean).0 && x !in HalvesAsWritten(clean).1
  {
    assert clean[|Heading|] == HalfPrefix[|Heading|] == ':';
    var parts := Split(clean, ':');
    SplitKeepsAbsent(clean, ':', x);
    var halves := Split(parts[1], '/');
    SplitKeepsAbsent(parts[1], '/', x);
    TrimKeepsAbsent(halves[0], x);
    if |halves| >= 2 {
      TrimKeepsAbsent(halves[1], x);
    }
  }

  lemma HalvesIntendedKeepOut(clean: string, x: char)
    requires StartsWith(clean, HalfPrefix)
    requires x == '&' || x == '#'
    requires x !in clean
    ensures x !in HalvesIntended(clean).0 && x !in HalvesIntended(clean).1
  {
    var rest := clean[|HalfPrefix|..];
    assert x !in rest;
    match FindInfix(rest, " / ")
    case Some(k) =>
      assert x !in rest[..k] && x !in rest[k + 3..];
      TrimKeepsAbsent(rest[..k], x);
      TrimKeepsAbsent(rest[k + 3..], x);
    case None =>
      TrimKeepsAbsent(rest, x);
  }

  lemma HalfLineKeepsOut(h: (string, string), price: int, x: char)
    requires x == '&' || x == '#'
    requires x !in h.0 && x !in h.1
    ensures x !in HalfLineText(h, price)
  {
    IntToStringHasOnlyDigits(price, x);
    FixedTextKeepsOut(x);
  }

  lemma FixedTextKeepsOut(x: char)
    requires x == '&' || x == '#'
    ensures x !in "\U{2022} Pizza Mitad y Mitad (mitad " && x !in " / mitad " && x !in ") - $" && x !in "%0A"
  {
  }

  lemma PlainLineKeepsOut(clean: string, item: CartLine, x: char)
    requires x == '&' || x == '#'
    requires x !in clean
    requires item.variant.Some? ==> x !in item.variant.value
    ensures x !in PlainLineText(clean, item)
  {
    IntToStringHasOnlyDigits(item.price, x);
  }

  /** A message line holds no `&` and no `#` other than those of the line's variant. */
  lemma LineTextKeepsOut(item: CartLine, intended: bool, x: char)
    requires x == '&' || x == '#'
    requires item.variant.Some? ==> x !in item.variant.value
    ensures x !in LineText(item, intended)
  {
    var clean := CleanName(item.name);
    if StartsWith(clean, HalfPrefix) {
      HalvesKeepOut(clean, intended, x);
      HalfLineKeepsOut(Halves(clean, intended), item.price, x);
    } else {
      PlainLineKeepsOut(clean, item, x);
    }
  }

  /** The items part of the message, which goes into the URL unencoded, contains no `&` and no `#`
      unless a variant brings one in. */
  lemma {:induction false} ItemsTextKeepsOut(items: seq<CartLine>, intended: bool, x: char)
    requires x == '&' || x == '#'
    requires forall i :: 0 <= i < |items| && items[i].variant.Some? ==> x !in items[i].variant.value
    ensures x !in ItemsText(items, intended)
    decreases |items|
  {
    if items != [] {
      ItemsTextKeepsOut(items[..|items| - 1], intended, x);
      LineTextKeepsOut(items[|items| - 1], intended, x);
    }
  }

  lemma EightThousand()
    ensures IntToString(8000) == "8000"
  {
    assert "8"[..0] == [] && "80"[..1] == "8" && "800"[..2] == "80" && "8000"[..3] == "800";
    assert DecimalValue("8") == 8;
    assert DecimalValue("80") == 80;
    assert DecimalValue("800") == 800;
    assert DecimalValue("8000") == 8000;
    NatToStringOfNumeral("8000");
  }

  lemma MuzzaLine(line: CartLine)
    requires line == CartLine(Some(Int(1)), "Muzza", 8000, 1, None, false)
    ensures LineText(line, false) == "\U{2022} " + ("Muzza" + "" + " - $" + "8000") + "%0A"
  {
    MuzzaIsPlain();
    EightThousand();
    assert VariantSuffix(line.variant) == "";
    assert LineText(line, false) == Bulleted("Muzza" + "" + " - $" + "8000");
  }

  /** A line that is not a half & half composite is written as the bullet, the cleaned name, the
      variant in parentheses when there is a non-empty one, the price, and a line break. */
  lemma PlainLineShape(item: CartLine, intended: bool)
    requires !StartsWith(CleanName(item.name), HalfPrefix)
    ensures LineText(item, intended)
      == "\U{2022} " + CleanName(item.name)
         + (if item.variant.Some? && item.variant.value != "" then " (" + item.variant.value + ")" else "")
         + " - $" + IntToString(item.price) + "%0A"
  {
  }

  /** A large Muzza: the chosen variant is written after the name. */
  lemma MuzzaGrandeLine(line: CartLine, v: string)
    requires v == "Grande" && line == CartLine(Some(Int(1)), "Muzza", 8000, 1, Some(v), false)
    ensures LineText(line, false) == "\U{2022} " + ("Muzza" + " (" + v + ")" + " - $" + "8000") + "%0A"
  {
    assert v != "" by { assert |v| == 6; }
    MuzzaIsPlain();
    PlainLineOfVariant(line, "Muzza", v);
    EightThousand();
  }

  lemma PlainLineOfVariant(line: CartLine, name: string, v: string)
    requires line.name == name && CleanName(name) == name && !StartsWith(name, HalfPrefix)
    requires line.variant == Some(v) && v != ""
    ensures LineText(line, false) == "\U{2022} " + (name + " (" + v + ")" + " - $" + IntToString(line.price)) + "%0A"
  {
    assert LineText(line, false) == PlainLineText(name, line);
  }

  lemma MuzzaIsPlain()
    ensures CleanName("Muzza") == "Muzza" && !StartsWith("Muzza", HalfPrefix)
  {
    CleanNameOfPlain("Muzza");
  }

  /** A one-pizza pickup order: one bullet line, the total, and the pickup line. */
  lemma PickupExample(line: CartLine)
    requires line == CartLine(Some(Int(1)), "Muzza", 8000, 1, None, false)
    ensures MessageOf(Order([line], 8000, "retiro", None), false)
      == Greeting + ("\U{2022} " + ("Muzza" + "" + " - $" + "8000") + "%0A")
         + ("%0ATotal: $" + "8000" + "%0A" + "%0ARetiro en el local")
  {
    MuzzaLine(line);
    SingleItemText(line, false);
    PickupClosing(Order([line], 8000, "retiro", None));
  }

  lemma SingleItemText(line: CartLine, intended: bool)
    ensures ItemsText([line], intended) == LineText(line, intended)
  {
    assert [line][..0] == [];
  }

  lemma PickupClosing(order: Order)
    requires order.total == 8000 && order.deliveryType == "retiro"
    ensures Closing(order) == "%0ATotal: $" + "8000" + "%0A" + "%0ARetiro en el local"
  {
    EightThousand();
  }

  /** What pressing the button does. */
  datatype Outcome =
    | Refused(reason: OrderRefusal)     // a guard stopped it; nothing was sent
    | SaveFailed                        // the save request failed or was not accepted
    | Sent(order: Order, message: string)  // saved, and the WhatsApp message was opened

  /** The button handler. `saved` is the outcome of the save request. The cart is emptied only once
      the order is saved and the message built; a refusal or a failed save keeps it. */
  method SendWhatsApp(cart: Cart, deliveryType: Option<string>, addressInput: string, saved: bool)
    returns (outcome: Outcome)
    modifies cart
    ensures var r := PrepareOrder(old(cart.lines), deliveryType, addressInput);
      && (r.Err? ==> outcome == Refused(r.error) && cart.lines == old(cart.lines))
      && (r.Ok? && !saved ==> outcome == SaveFailed && cart.lines == old(cart.lines))
      && (r.Ok? && saved ==> outcome == Sent(r.value, MessageOf(r.value, false)) && cart.lines == [])
  {
    var r := PrepareOrder(cart.lines, deliveryType, addressInput);
    if r.Err? {
      return Refused(r.error);
    }
    if !saved {
      return SaveFailed;
    }
    var message := BuildMessage(r.value);
    outcome := Sent(r.value, message);
    cart.Clear();
  }
}

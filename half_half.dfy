/** The half & half composer: the flavour options offered in its two selects, the price preview
    shown while choosing, and the composite line `addHalfHalfToCart` appends to the cart. */
module HalfHalf {
  import opened JsValues
  import opened CartEngine

  /** One `<option>` of a flavour select: its value (the pizza's name) and its `data-price`. */
  datatype FlavourOption = FlavourOption(value: string, priceAttr: string)

  /** The state of one select: the disabled placeholder (`None`) or a flavour option. */
  type Selection = Option<FlavourOption>

  /** The name the composer itself is listed under, which is never offered as a flavour. */
  const HalfHalfName := "Pizza Mitad & Mitad"

  /** An option as the composer builds it: its price attribute reads back as a positive integer. */
  predicate Offered(o: FlavourOption) {
    ParseInt(o.priceAttr).Int? && ParseInt(o.priceAttr).i > 0
  }

  /** Whether a pizza of the pizzas section is offered as a flavour, and at which price. */
  predicate IsFlavour(item: MenuItem) {
    !item.isHalfHalfItem && item.name != HalfHalfName
    && ParseInt(item.priceAttr).Int? && ParseInt(item.priceAttr).i > 0
  }

  function OptionOf(item: MenuItem): FlavourOption
    requires ParseInt(item.priceAttr).Int?
  {
    FlavourOption(item.name, IntToString(ParseInt(item.priceAttr).i))
  }

  /** The options `openHalfHalfModal` appends to each select, in menu order: every pizza that is
      not the composer entry and has a positive price, with its price written back as an integer. */
  function HalfHalfOptions(pizzas: seq<MenuItem>): (opts: seq<FlavourOption>)
    ensures |opts| <= |pizzas|
    ensures forall o :: o in opts ==> Offered(o) && o.value != HalfHalfName
    ensures forall o :: o in opts ==> exists item :: item in pizzas && IsFlavour(item) && o == OptionOf(item)
    ensures forall item :: item in pizzas && IsFlavour(item) ==> OptionOf(item) in opts
  {
    if pizzas == [] then []
    else
      var rest := HalfHalfOptions(pizzas[1..]);
      var item := pizzas[0];
      assert forall x :: x in pizzas[1..] ==> x in pizzas;
      assert forall x :: x in pizzas ==> x == item || x in pizzas[1..];
      if IsFlavour(item) then
        var o := OptionOf(item);
        ParseIntOfIntToString(ParseInt(item.priceAttr).i);
        assert Offered(o) && item in pizzas;
        var r := [o] + rest;
        assert forall x :: x in r ==> x == o || x in rest;
        r
      else rest
  }

  /** Building the options over two runs of pizzas gives the options of the first run followed by
      those of the second, so the options keep the menu order. */
  lemma {:induction false} HalfHalfOptionsConcat(a: seq<MenuItem>, b: seq<MenuItem>)
    ensures HalfHalfOptions(a + b) == HalfHalfOptions(a) + HalfHalfOptions(b)
  {
    if a == [] {
      assert a + b == b;
    } else {
      assert (a + b)[0] == a[0] && (a + b)[1..] == a[1..] + b;
      HalfHalfOptionsConcat(a[1..], b);
    }
  }

  /** One pizza gives exactly one option when it qualifies, and none otherwise. */
  lemma HalfHalfOptionsOfOne(item: MenuItem)
    ensures HalfHalfOptions([item]) == if IsFlavour(item) then [OptionOf(item)] else []
  {
    assert [item][1..] == [];
  }

  /** The select's `value`: "" for the placeholder. */
  function SelectedName(s: Selection): string {
    if s.None? then "" else s.value.value
  }

  /** The price the preview reads: `dataset.price ? parseInt(dataset.price) : 0`. */
  function PreviewPrice(s: Selection): Number {
    if s.Some? && s.value.priceAttr != "" then ParseInt(s.value.priceAttr) else Int(0)
  }

  /** `parseInt(selectedOptions[0]?.dataset.price)`: NaN for the placeholder. */
  function ChargedPrice(s: Selection): Number {
    if s.None? then NaN else ParseInt(s.value.priceAttr)
  }

  function Max(a: int, b: int): int {
    if a >= b then a else b
  }

  /** What the composer shows: the amount after "Total: $" and the description line. */
  datatype PreviewShown = PreviewShown(total: int, description: string)

  /** `updateHalfHalfPrice`: with two priced selections the dearer price and both names, otherwise
      0 and a prompt to choose. */
  function Preview(s1: Selection, s2: Selection): (p: PreviewShown)
    ensures p.total > 0 <==> PreviewPrice(s1).Int? && PreviewPrice(s1).i > 0 && PreviewPrice(s2).Int? && PreviewPrice(s2).i > 0
    ensures p.total > 0 ==> p.total >= PreviewPrice(s1).i && p.total >= PreviewPrice(s2).i
    ensures p.total > 0 ==> p.total == PreviewPrice(s1).i || p.total == PreviewPrice(s2).i
    ensures !(PreviewPrice(s1).Int? && PreviewPrice(s1).i > 0 && PreviewPrice(s2).Int? && PreviewPrice(s2).i > 0) ==>
      p == PreviewShown(0, "Elegí dos sabores diferentes")
    ensures p.total > 0 ==> p.description == "Mitad " + SelectedName(s1) + " + Mitad " + SelectedName(s2)
  {
    var p1, p2 := PreviewPrice(s1), PreviewPrice(s2);
    if p1.Int? && p1.i > 0 && p2.Int? && p2.i > 0 then
      PreviewShown(Max(p1.i, p2.i), "Mitad " + SelectedName(s1) + " + Mitad " + SelectedName(s2))
    else PreviewShown(0, "Elegí dos sabores diferentes")
  }

  /** The heading of the composite line's name. */
  const Heading := "Pizza Mitad y Mitad"

  /** The name of the composite line: both flavours after the heading, separated by " / ". */
  function CompositeName(n1: string, n2: string): string {
    Heading + ": " + n1 + " / " + n2
  }

  datatype HalfHalfRefusal =
    | MissingFlavour  // a select still shows the placeholder
    | SameFlavour     // both halves are the same pizza

  /** `addHalfHalfToCart`: the line appended for two distinct flavours, priced at the dearer half. */
  function HalfHalfLine(s1: Selection, s2: Selection): (r: Result<CartLine, HalfHalfRefusal>)
    requires s1.Some? ==> Offered(s1.value)
    requires s2.Some? ==> Offered(s2.value)
    ensures r == Err(MissingFlavour) <==> SelectedName(s1) == "" || SelectedName(s2) == ""
    ensures r == Err(SameFlavour) <==>
      SelectedName(s1) != "" && SelectedName(s2) != "" && SelectedName(s1) == SelectedName(s2)
    ensures r.Ok? ==> s1.Some? && s2.Some?
    ensures r.Ok? ==> var p1, p2 := ChargedPrice(s1).i, ChargedPrice(s2).i;
      r.value.price >= p1 && r.value.price >= p2 && (r.value.price == p1 || r.value.price == p2)
    ensures r.Ok? ==> r.value.productId.None? && r.value.variant.None? && r.value.isCustom && r.value.quantity == 1
    ensures r.Ok? ==> r.value.name == CompositeName(SelectedName(s1), SelectedName(s2))
  {
    var n1, n2 := SelectedName(s1), SelectedName(s2);
    if n1 == "" || n2 == "" then Err(MissingFlavour)
    else if n1 == n2 then Err(SameFlavour)
    else
      var price := Max(ChargedPrice(s1).i, ChargedPrice(s2).i);
      Ok(CartLine(None, CompositeName(n1, n2), price, 1, None, true))
  }

  /** A half & half pizza costs less than two whole pizzas of its flavours, and no less than either. */
  lemma HalfHalfBelowTwoWholes(s1: Selection, s2: Selection)
    requires s1.Some? && Offered(s1.value) && s2.Some? && Offered(s2.value)
    requires HalfHalfLine(s1, s2).Ok?
    ensures var price := HalfHalfLine(s1, s2).value.price;
      price < ChargedPrice(s1).i + ChargedPrice(s2).i
      && price >= ChargedPrice(s1).i && price >= ChargedPrice(s2).i
  {
  }

  /** The total previewed is the price charged when the line is added, and a preview of 0 means the
      line is refused. */
  lemma PreviewMatchesCharge(s1: Selection, s2: Selection)
    requires s1.Some? ==> Offered(s1.value)
    requires s2.Some? ==> Offered(s2.value)
    ensures HalfHalfLine(s1, s2).Ok? ==> Preview(s1, s2).total == HalfHalfLine(s1, s2).value.price
    ensures Preview(s1, s2).total == 0 ==> HalfHalfLine(s1, s2).Err?
  {
    if s1.Some? {
      assert s1.value.priceAttr != "" by { assert ParseInt(s1.value.priceAttr).Int?; EmptyParsesAsNaN(); }
    }
    if s2.Some? {
      assert s2.value.priceAttr != "" by { assert ParseInt(s2.value.priceAttr).Int?; EmptyParsesAsNaN(); }
    }
  }

  lemma EmptyParsesAsNaN()
    ensures ParseInt("") == NaN
  {
  }

  /** The preview does not compare the two flavours: the same pizza twice is previewed with a price,
      but adding it is refused. */
  lemma SameFlavourPreviewedButRefused(o: FlavourOption)
    requires Offered(o) && o.value != ""
    ensures Preview(Some(o), Some(o)).total == ParseInt(o.priceAttr).i
    ensures HalfHalfLine(Some(o), Some(o)) == Err(SameFlavour)
  {
    EmptyParsesAsNaN();
  }

  /** The options built from the menu are what `HalfHalfLine` may be given, and choosing two
      distinct named flavours from them always adds a line priced at the dearer menu price. */
  lemma ChoosingFromMenu(pizzas: seq<MenuItem>, a: MenuItem, b: MenuItem)
    requires a in pizzas && b in pizzas && IsFlavour(a) && IsFlavour(b)
    requires a.name != "" && b.name != "" && a.name != b.name
    ensures var s1, s2 := Some(OptionOf(a)), Some(OptionOf(b));
      s1.value in HalfHalfOptions(pizzas) && s2.value in HalfHalfOptions(pizzas)
      && HalfHalfLine(s1, s2).Ok?
      && HalfHalfLine(s1, s2).value.price == Max(ParseInt(a.priceAttr).i, ParseInt(b.priceAttr).i)
  {
    var opts := HalfHalfOptions(pizzas);
    var o1, o2 := OptionOf(a), OptionOf(b);
    assert o1 in opts && o2 in opts;
    ParseIntOfIntToString(ParseInt(a.priceAttr).i);
    ParseIntOfIntToString(ParseInt(b.priceAttr).i);
    assert ChargedPrice(Some(o1)) == ParseInt(a.priceAttr);
    assert ChargedPrice(Some(o2)) == ParseInt(b.priceAttr);
    var r := HalfHalfLine(Some(o1), Some(o2));
    assert r.Ok?;
  }

  /** The confirm button of the composer: a refused choice leaves the cart as it is; otherwise the
      composite line is appended. */
  method AddHalfHalfToCart(cart: Cart, s1: Selection, s2: Selection)
    returns (r: Result<CartLine, HalfHalfRefusal>)
    requires s1.Some? ==> Offered(s1.value)
    requires s2.Some? ==> Offered(s2.value)
    modifies cart
    ensures r == HalfHalfLine(s1, s2)
    ensures cart.lines == if r.Ok? then old(cart.lines) + [r.value] else old(cart.lines)
  {
    r := HalfHalfLine(s1, s2);
    if r.Ok? {
      cart.AddLine(r.value);
    }
  }
}

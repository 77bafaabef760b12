/** The cart engine: the page's `cart` array of order lines, the add-to-order handler of the menu
    items, and `updateCart`, which recomputes the line count and the total shown in the cart. */
module CartEngine {
  import opened JsValues

  /** One order line. `productId` is absent for promotions and for the half & half composite;
      `quantity` is always 1, so `price` is also the line total. */
  datatype CartLine = CartLine(
    productId: Option<Number>,
    name: string,
    price: int,
    quantity: nat,
    variant: Option<string>,
    isCustom: bool)

  /** The sum of the line prices, accumulated in cart order. */
  function Sum(lines: seq<CartLine>): int
    decreases |lines|
  {
    if lines == [] then 0 else Sum(lines[..|lines| - 1]) + lines[|lines| - 1].price
  }

  /** `lines.reduce((acc, i) => acc + i.price, acc)`, the total sent with the order. Folding from
      the front gives `acc` plus the same sum `updateCart` accumulates. */
  function Reduce(acc: int, lines: seq<CartLine>): (r: int)
    ensures r == acc + Sum(lines)
    decreases |lines|
  {
    if lines == [] then acc
    else
      assert lines == [lines[0]] + lines[1..];
      SumConcat([lines[0]], lines[1..]);
      assert Sum([lines[0]]) == lines[0].price by { assert [lines[0]][..0] == []; }
      Reduce(acc + lines[0].price, lines[1..])
  }

  lemma {:induction false} SumConcat(a: seq<CartLine>, b: seq<CartLine>)
    ensures Sum(a + b) == Sum(a) + Sum(b)
    decreases |b|
  {
    if b == [] {
      assert a + b == a;
    } else {
      assert (a + b)[..|a + b| - 1] == a + b[..|b| - 1];
      SumConcat(a, b[..|b| - 1]);
    }
  }

  /** A rendered `.menu-item` element as the add-to-order handler reads it: `data-id`, `data-item`,
      `data-price`, and the value of its variant `<select>` when it has one. */
  datatype MenuItem = MenuItem(
    id: Option<string>,
    name: string,
    priceAttr: string,
    variantSelect: Option<string>,
    isHalfHalfItem: bool)

  datatype AddRefusal =
    | VariantNotChosen  // the item has a variant select and nothing is chosen
    | OpensHalfHalf     // the half & half promotion button opens the composer instead

  /** `parseInt(price) || 0`. */
  function LinePrice(priceAttr: string): int {
    match ParseInt(priceAttr)
    case NaN => 0
    case Int(p) => p
  }

  /** `dataset.id ? Number(dataset.id) : null`. */
  function ProductIdOf(id: Option<string>): Option<Number> {
    if id.None? || id.value == "" then None else Some(StringToNumber(id.value))
  }

  /** The click handler of an add-to-order button: the variant check, then the half & half
      promotion check, then the new line. */
  function ItemLine(item: MenuItem, isPromoButton: bool): (r: Result<CartLine, AddRefusal>)
    ensures r == Err(VariantNotChosen) <==> item.variantSelect == Some("")
    ensures r == Err(OpensHalfHalf) <==>
      item.variantSelect != Some("") && isPromoButton && HasInfix(ToLowerAscii(item.name), "mitad")
    ensures r.Ok? ==> r.value.quantity == 1 && !r.value.isCustom && r.value.name == item.name
    ensures r.Ok? ==> r.value.variant == item.variantSelect && r.value.price == LinePrice(item.priceAttr)
    ensures r.Ok? ==> r.value.productId == ProductIdOf(item.id)
  {
    if item.variantSelect == Some("") then Err(VariantNotChosen)
    else if isPromoButton && item.name != "" && HasInfix(ToLowerAscii(item.name), "mitad") then Err(OpensHalfHalf)
    else Ok(CartLine(ProductIdOf(item.id), item.name, LinePrice(item.priceAttr), 1, item.variantSelect, false))
  }

  /** A product rendered with `data-price` set to its integer price is added at that price; a
      price attribute with no leading integer is added at 0. */
  lemma ItemPriceFromCatalogue(p: int, junk: string)
    ensures LinePrice(IntToString(p)) == p
    ensures ParseInt(junk).NaN? ==> LinePrice(junk) == 0
  {
    ParseIntOfIntToString(p);
  }

  /** The cart of the page session. */
  class Cart {
    var lines: seq<CartLine>

    constructor ()
      ensures lines == []
    {
      lines := [];
    }

    /** The total the cart shows: the same amount the order computes with `reduce`. */
    function Total(): (t: int)
      reads this
      ensures t == Reduce(0, lines)
    {
      Sum(lines)
    }

    /** `cart.push(line)`. */
    method AddLine(line: CartLine)
      modifies this
      ensures lines == old(lines) + [line]
      ensures Total() == old(Total()) + line.price
    {
      lines := lines + [line];
      assert lines[..|lines| - 1] == old(lines);
    }

    /** `cart = []`. */
    method Clear()
      modifies this
      ensures lines == [] && Total() == 0
    {
      lines := [];
    }

    /** The add-to-order handler: a refused click leaves the cart as it is; otherwise exactly one
        line is appended. */
    method AddToOrder(item: MenuItem, isPromoButton: bool) returns (r: Result<CartLine, AddRefusal>)
      modifies this
      ensures r == ItemLine(item, isPromoButton)
      ensures lines == if r.Ok? then old(lines) + [r.value] else old(lines)
    {
      r := ItemLine(item, isPromoButton);
      if r.Ok? {
        AddLine(r.value);
      }
    }

    /** `updateCart`: the line count, and the running total over the lines in order; an empty
        cart shows no total. */
    method Refresh() returns (count: nat, total: int, totalText: string)
      ensures count == |lines| && total == Sum(lines)
      ensures totalText == if lines == [] then "" else "Total: $" + IntToString(Sum(lines))
    {
      count := |lines|;
      total := 0;
      if |lines| == 0 {
        totalText := "";
        return;
      }
      var i := 0;
      while i < |lines|
        invariant 0 <= i <= |lines|
        invariant total == Sum(lines[..i])
      {
        assert lines[..i + 1][..i] == lines[..i];
        total := total + lines[i].price;
        i := i + 1;
      }
      assert lines[..i] == lines;
      totalText := "Total: $" + IntToString(total);
    }
  }
}

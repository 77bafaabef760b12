/** The promotion filter applied on every refresh of the promotions list: only active promotions
    restricted to today's weekday are shown ("day-limited only"). */
module Promos {
  import opened JsValues
  import opened HtmlEscape

  /** A promotion as the promotions endpoint returns it; the fields are raw JSON values. */
  datatype Promo = Promo(title: Value, price: Value, dayOfWeek: Value, active: Value)

  /** `day_of_week !== null && day_of_week !== undefined`. */
  predicate HasDayRestriction(p: Promo) {
    p.dayOfWeek != Null && p.dayOfWeek != Undefined
  }

  /** The filter callback: an inactive promotion (`active != 1`) is rejected; one with a day
      restriction is kept when `Number(day_of_week) === today`; one without is rejected. */
  predicate IsPromoOfTheDay(p: Promo, today: int)
    ensures IsPromoOfTheDay(p, today) ==> LooseEqualsNumber(p.active, 1) && HasDayRestriction(p)
    ensures IsPromoOfTheDay(p, today) ==> ToNumber(p.dayOfWeek) == Int(today)
  {
    if !LooseEqualsNumber(p.active, 1) then false
    else if HasDayRestriction(p) then ToNumber(p.dayOfWeek) == Int(today)
    else false
  }

  /** `promos.filter(...)`: the promotions shown today, in the order received. */
  function PromosOfTheDay(promos: seq<Promo>, today: int): (shown: seq<Promo>)
    ensures |shown| <= |promos|
    ensures forall p :: p in shown ==> p in promos && IsPromoOfTheDay(p, today)
    ensures forall p :: p in promos && IsPromoOfTheDay(p, today) ==> p in shown
  {
    if promos == [] then []
    else
      var rest := PromosOfTheDay(promos[1..], today);
      assert forall p :: p in promos[1..] ==> p in promos;
      assert forall p :: p in promos ==> p == promos[0] || p in promos[1..];
      if IsPromoOfTheDay(promos[0], today) then [promos[0]] + rest else rest
  }

  /** Filtering two runs of promotions gives the promotions shown from the first run followed by
      those shown from the second, so the filter keeps the order it receives. */
  lemma {:induction false} PromosOfTheDayConcat(a: seq<Promo>, b: seq<Promo>, today: int)
    ensures PromosOfTheDay(a + b, today) == PromosOfTheDay(a, today) + PromosOfTheDay(b, today)
  {
    if a == [] {
      assert a + b == b;
    } else {
      assert (a + b)[0] == a[0] && (a + b)[1..] == a[1..] + b;
      PromosOfTheDayConcat(a[1..], b, today);
    }
  }

  /** One promotion is shown once when it passes the test, and not at all otherwise. */
  lemma PromosOfTheDayOfOne(p: Promo, today: int)
    ensures PromosOfTheDay([p], today) == if IsPromoOfTheDay(p, today) then [p] else []
  {
    assert [p][1..] == [];
  }

  /** A promotion is shown exactly when it is active, carries a day restriction, and that
      restriction is numerically today's weekday. */
  lemma ShownIff(promos: seq<Promo>, p: Promo, today: int)
    requires p in promos
    ensures p in PromosOfTheDay(promos, today) <==>
      (LooseEqualsNumber(p.active, 1) && HasDayRestriction(p) && ToNumber(p.dayOfWeek) == Int(today))
  {
  }

  /** A promotion without a day restriction is never shown, on any day. */
  lemma UnrestrictedNeverShown(promos: seq<Promo>, p: Promo, today: int)
    requires !HasDayRestriction(p)
    ensures p !in PromosOfTheDay(promos, today)
  {
  }

  /** An active promotion for weekday `d` (a number, or its decimal text) is shown on day `d` and
      on no other day. */
  lemma DayRestrictionDecides(title: Value, price: Value, d: int, asText: bool, today: int)
    ensures var p := Promo(title, price, if asText then Str(IntToString(d)) else Num(Int(d)), Num(Int(1)));
      IsPromoOfTheDay(p, today) <==> d == today
  {
    StringToNumberOfIntToString(d);
  }

  /** The menu entry a promotion is rendered as: `data-item` holds the escaped title and
      `data-price` the price written with `String` (`promo.price ?? 0`). */
  function ItemName(p: Promo): string {
    Unescape(EscapeHTML(p.title))
  }

  function PriceAttribute(p: Promo): string {
    ToString(if p.price == Null || p.price == Undefined then Num(Int(0)) else p.price)
  }

  /** Reading the rendered entry back gives the promotion's own title and price. */
  lemma RenderedPromoReadsBack(p: Promo, title: string, price: int)
    requires p.title == Str(title) && p.price == Num(Int(price))
    ensures ItemName(p) == title
    ensures ParseInt(PriceAttribute(p)) == Int(price)
  {
    AttributeRoundTrip(p.title);
    ParseIntOfIntToString(price);
  }
}

# MenuOneMore storefront logic

This is a model of the browser-side logic of the MenuOneMore restaurant page (`script.js`).
MenuOneMore is a menu with an order cart that ends in a WhatsApp message. The model covers these parts:

- **Cart engine.** The page keeps a list of order lines.
  - A menu item's "add to order" button appends one line. It first asks for a variant when the item has a variant select, and the half & half promotion button opens the composer instead.
  - `updateCart` shows the number of lines and their running total. An empty cart shows no total.
- **Half & half composer.** This is the modal where the customer picks two pizza flavours.
  - Its selects offer every pizza except the composer entry, provided the pizza has a positive price.
  - The preview shows the dearer of the two prices.
  - Confirming refuses a missing or repeated flavour. Otherwise it appends a custom line named `Pizza Mitad y Mitad: <first> / <second>`, priced at the dearer half.
- **Promotions.** Only active promotions restricted to today's weekday are shown. A promotion is rendered with its escaped title and its price as data attributes.
- **Opening hours.** `isOpenNow` checks the configuration, which sets an opening and closing time, the open weekdays and closed dates. A window whose closing time is earlier than its opening time runs past midnight.
- **HTML escaping.** `escapeHTML` makes five replacements, `&` first.
- **Order submission.** The WhatsApp button works in four stages:
  - It refuses an empty cart, a missing delivery choice, and a home delivery with a blank address.
  - It totals the cart with `reduce`.
  - It saves the order; the model takes the result of the save as a boolean.
  - It writes the WhatsApp message line by line, then empties the cart.

The modules follow these parts:

- `CartEngine` (`cart.dfy`):
  - the `Cart` class, whose `lines` field is the page's `cart` array;
  - the add-to-order handler;
  - `updateCart`, written as a loop.
- `HalfHalf` (`half_half.dfy`).
- `Promos` (`promos.dfy`).
- `SiteHours` (`site_hours.dfy`). The clock enters as a parameter.
- `HtmlEscape` (`html_escape.dfy`).
- `OrderSubmit` (`order_submit.dfy`):
  - the guards;
  - the message, built by a loop;
  - the submit handler.
- `JsValues` (`js_values.dfy`) holds the JavaScript coercions the code relies on:
  - `Number(...)`, `parseInt`, `String(...)`;
  - `trim`, `split`, global `replace`;
  - truthiness, `includes` and `startsWith`.

  JavaScript numbers are modelled as `NaN` or an unbounded integer (`Number = NaN | Int(int)`).

## Model

| member | source | states |
|---|---|---|
| CartEngine.ItemLine | script.js:590-620 | An unchosen variant refuses the click. The half & half promotion button (case-insensitive "mitad") opens the composer. Each case holds exactly when its condition holds. Otherwise the new line has quantity 1, is not custom, and has the item's name, its variant, the parsed price, or 0 when it does not parse, as price, and `Number(data-id)` as product id (or null). |
| CartEngine.ItemPriceFromCatalogue | script.js:590 | A price attribute holding an integer's decimal text is added at that integer; one with no leading integer is added at 0. |
| CartEngine.Reduce | script.js:687 | `reduce((acc, i) => acc + i.price, acc)` is `acc` plus the running sum `updateCart` computes. |
| CartEngine.Cart.constructor | script.js:415 | The cart starts empty. |
| CartEngine.Cart.Total | script.js:424-443 | The total the cart shows equals the total the order computes with `reduce` from 0. |
| CartEngine.Cart.AddLine | script.js:614-620 | `push` appends exactly the given line, and the total grows by its price. |
| CartEngine.Cart.Clear | script.js:739 | The cart is emptied, and its total is 0. |
| CartEngine.Cart.AddToOrder | script.js:590-621 | A refused click leaves the lines unchanged; otherwise exactly the line `ItemLine` describes is appended. |
| CartEngine.Cart.Refresh | script.js:417-444 | The count is the number of lines and the loop's total is their sum. An empty cart shows no total text; otherwise the text is "Total: $" followed by the sum. |
| HalfHalf.HalfHalfOptions | script.js:465-480 | There are no more options than pizzas. Each option has a positive price and is never the composer entry. Every option comes from a pizza that qualifies, and every qualifying pizza is offered. |
| HalfHalf.HalfHalfOptionsConcat | script.js:465-480 | The options for two runs of pizzas are those of the first run followed by those of the second, so the options follow menu order. |
| HalfHalf.HalfHalfOptionsOfOne | script.js:466-479 | One pizza gives exactly one option, with its name and its price written back as an integer, when it qualifies, and no option otherwise. With the previous row this fixes the options' order and number: one per qualifying pizza. |
| HalfHalf.Preview | script.js:497-514 | The preview total is positive exactly when both selections carry positive prices. That total is the larger of the two prices, and the description is "Mitad <first> + Mitad <second>". In every other case the total is 0 and the prompt "Elegí dos sabores diferentes" is shown. |
| HalfHalf.HalfHalfLine | script.js:516-546 | A placeholder in either select refuses, as does the same flavour twice; each refusal holds exactly when its condition holds. Otherwise the line is custom, has quantity 1, no product id and no variant, costs the dearer half, and is named heading, first flavour, " / ", second flavour. |
| HalfHalf.HalfHalfBelowTwoWholes | script.js:536 | A half & half costs less than both whole pizzas together and no less than either. |
| HalfHalf.PreviewMatchesCharge | script.js:503-536 | The previewed total is the price the added line is charged, and a preview of 0 means the line is refused. |
| HalfHalf.SameFlavourPreviewedButRefused | script.js:506-534 | The same flavour twice is previewed at its price, but adding it is refused. |
| HalfHalf.ChoosingFromMenu | script.js:465-546 | Two distinct pizzas from the menu appear among the options. Choosing them adds a line at the dearer menu price. |
| HalfHalf.AddHalfHalfToCart | script.js:516-546 | The cart is unchanged on a refusal; otherwise it gains exactly the composite line. |
| Promos.IsPromoOfTheDay | script.js:53-61 | A promotion that passes the test is active, has a day restriction, and has `Number(day_of_week)` equal to today's weekday. |
| Promos.PromosOfTheDay | script.js:53-61 | The filter returns no more promotions than it receives. Every one it returns passes the test, and every received promotion that passes is returned. |
| Promos.PromosOfTheDayConcat | script.js:53-61 | Filtering two runs of promotions gives the first run's shown promotions followed by the second's, so the filter keeps the order it receives. |
| Promos.PromosOfTheDayOfOne | script.js:53-61 | One promotion is shown once when it passes the test, and not at all otherwise. With the previous row this fixes the result's order and multiplicity. |
| Promos.ShownIff | script.js:53-61 | A promotion is shown iff `active == 1`, it has a day restriction, and `Number(day_of_week)` is today's weekday. |
| Promos.UnrestrictedNeverShown | script.js:56-60 | A promotion without a day restriction is never shown. |
| Promos.DayRestrictionDecides | script.js:57 | An active promotion for weekday d, given as a number or as its text, is shown on day d and on no other day. |
| Promos.RenderedPromoReadsBack | script.js:80-85 | The rendered entry's `data-item` decodes to the title, and its `data-price` parses back to the price. |
| SiteHours.IsOpenNow | script.js:154-178 | "Open" implies all of the following: a configuration exists, both times are set, today is not a closed date, and today is an open weekday. An hour or minute part that `Number` reads as NaN, in either time (an opening time "ab:30", say), means closed. |
| SiteHours.IsOpenNowIntended | script.js:164-167 | The corrected check gives "open" only when each time has an hour and a minute part that `Number` reads as integers, and the calendar allows today. A NaN part in either time means closed here too. |
| SiteHours.IntendedAgreesWithColon | script.js:165-167 | When each time contains a `:`, the source's check and the corrected one agree. |
| SiteHours.InWindow | script.js:173-177 | An empty window (opening minute equal to closing minute) is never open. When the opening minute is NaN, the window is open exactly before the closing minute. When the closing minute is NaN, it is open exactly from the opening minute on. |
| SiteHours.WindowIsElapsedBelowLength | script.js:173-177 | The two-branch window test is the same as asking whether the minutes since opening, counted modulo a day, are fewer than the length of the window. |
| SiteHours.OpenMeansElapsedBelowWindow | script.js:169-177 | Take well-formed times within one day and a day not closed by the calendar. The shop is then open exactly when the minutes since opening are fewer than the window's length. |
| SiteHours.DayWindow | script.js:173-174 | When opening is no later than closing, the shop is open exactly from the opening minute up to, but not including, the closing minute. |
| SiteHours.OvernightWindow | script.js:176-177 | When closing is earlier than opening, the shop is open from the opening minute on, and before the closing minute. |
| SiteHours.OvernightExample | script.js:176 | The configuration 20:00-02:00 is open exactly at minutes ≥ 1200 or < 120. |
| SiteHours.HourOnlyReadsAsOpen | script.js:165-177 | An opening time with no `:` whose hour part `Number` reads as an integer (such as "08") is not well-formed. Before closing time, the source still reports the shop open, while the corrected check reports it closed. An opening time such as "ab" is caught by the NaN guard and means closed in both. |
| SiteHours.HourOnlyCloseReadsAsOpen | script.js:165-177 | A closing time with no `:` whose hour part `Number` reads as an integer (such as "22") is not well-formed. From opening time on, the source still reports the shop open, while the corrected check reports it closed. |
| SiteHours.HourOnlyCloseExample | script.js:165-177 | Opening "08:00", closing "22", at 23:00: the source says open and the corrected check says closed. |
| SiteHours.HourOnlyExample | script.js:165-177 | Opening "08", closing "22:00", at midnight: the source says open and the corrected check says closed. |
| HtmlEscape.EscapeHTML | script.js:224-232 | Falsy values other than 0 give "". No result contains a raw `<`, `>`, `"` or `'`. |
| HtmlEscape.EscapeTextIsCharwise | script.js:226-231 | The five successive replacements amount to encoding each character on its own. |
| HtmlEscape.EscapeTextHasNoMarkup | script.js:226-231 | Escaped text contains no raw `<`, `>`, `"` or `'`. |
| HtmlEscape.EscapeTextRoundTrip | script.js:227-231 | Decoding the references gives back the original text, so no `&` is escaped twice. |
| HtmlEscape.EscapeHTMLOfFalsy | script.js:225 | Falsy values other than 0 give "", and 0 gives "0". |
| HtmlEscape.AttributeRoundTrip | script.js:224-232 | An escaped attribute reads back as `String(v)`, or as "" for falsy values other than 0. |
| OrderSubmit.PrepareOrder | script.js:667-687 | The guards run in order: an empty cart, then no delivery choice, then a home delivery with a blank address. Each refusal holds exactly when its condition holds. An accepted order carries the lines and a `reduce` total equal to their sum. It carries an address exactly for home delivery, and that address is the trimmed, non-empty input. |
| OrderSubmit.CleanName | script.js:716-719 | A cleaned name contains no `&`, `%` or `#`; what each of them becomes is stated by `CleanNameIsCharwise`. |
| OrderSubmit.HalvesAsWritten | script.js:722-723 | Neither half the source reads back contains a `/`, so a flavour with a `/` in its name is never read back whole. |
| OrderSubmit.LineText | script.js:715-727 | Every cart line, half & half or not, gives one message line that starts with the bullet "• " and ends with an encoded line break `%0A`. |
| OrderSubmit.PlainLineShape | script.js:725-726 | A line whose cleaned name is not a half & half composite is written as "• ", the cleaned name, " (variant)" exactly when the variant is a non-empty string, " - $", the price, and `%0A`. |
| OrderSubmit.MuzzaGrandeLine | script.js:725-726 | A "Muzza" at 8000 with the variant "Grande" gives the line "• Muzza (Grande) - $8000%0A". |
| OrderSubmit.MessageOf | script.js:713-733 | The message starts with the greeting and ends with the pickup line, or with the address for a home delivery. |
| OrderSubmit.CleanNameOfPlain | script.js:716-719 | Cleaning leaves a name without those characters unchanged. |
| OrderSubmit.CleanNameIsCharwise | script.js:716-719 | The three successive replacements equal a one-pass, per-character rewrite: `&` becomes "y", `%` becomes "por ciento", `#` becomes "num", and every other character stays as it is. |
| OrderSubmit.CleanAmpersandExample | script.js:716-717 | "Pizza & Fainá" is written into the message as "Pizza y Fainá". |
| OrderSubmit.CleanComposite | script.js:716-719 | Cleaning a composite name cleans each flavour and keeps the composite shape. |
| OrderSubmit.HalvesAgreeOnPlainNames | script.js:721-723 | For flavours that contain no `/` or `:` and are not padded with spaces, the source's parse and the corrected one both give back the two flavours. |
| OrderSubmit.SlashInFirstFlavour | script.js:722-723 | When the first flavour is `a/b`, the source's parse reads the halves as `a` and `b`. The real second flavour is lost. |
| OrderSubmit.SlashInFlavourGarbled | script.js:722-723 | "Muzza c/ ajo" with "Napolitana" is read as "Muzza c" and "ajo". |
| OrderSubmit.HalvesOfComposite | script.js:721-724 | When the first flavour does not hold the separator " / ", the corrected parse gives back both flavours, trimmed. |
| OrderSubmit.SlashInFlavourReadAsIntended | script.js:721-724 | The corrected parse reads "Muzza c/ ajo" with "Napolitana" as those two flavours. |
| OrderSubmit.CompositeLineText | script.js:721-724 | With the corrected parse, the message line of a composite names both cleaned, trimmed flavours and the line's price, whatever the flavours contain apart from " / " in the first. |
| OrderSubmit.PlainCompositeLine | script.js:721-724 | For a composite of two plain flavours (no `/`, `:`, `&`, `%` or `#`, and no surrounding whitespace), the line the source writes and the corrected line are the same. Both name the two flavours and the price. |
| OrderSubmit.LineReadsBackAlike | script.js:716-727 | A line that is not a composite, or is a composite of two plain flavours, is written the same by the source's parse and the corrected one. |
| OrderSubmit.ComposerLineReadsBackAlike | script.js:537 | The composer's line for two plain flavours is such a line. |
| OrderSubmit.ItemsTextReadsBackAlike | script.js:715-728 | When every cart line is such a line, the source's items text is the corrected one. |
| OrderSubmit.MessageReadsBackAlike | script.js:713-733 | When every cart line is such a line, the source's whole message is the corrected one. |
| OrderSubmit.HalvesKeepOut | script.js:721-723 | The halves read back from a name without `&` or `#` contain neither, with the source's parse and with the corrected one. |
| OrderSubmit.LineTextKeepsOut | script.js:715-727 | A message line, the source's or the corrected one, contains no `&` or `#` unless its variant brings one. |
| OrderSubmit.ItemsTextKeepsOut | script.js:715-728 | The items text, the source's or the corrected one, contains no `&` or `#` unless a variant brings one. |
| OrderSubmit.BuildMessage | script.js:713-733 | The loop builds the message the source writes: the greeting, one line per item in cart order with the source's half & half parse, the total, and the delivery or pickup closing. That is exactly `MessageOf(order, false)`. |
| OrderSubmit.PickupExample | script.js:713-733 | One "Muzza" at 8000 for pickup gives the greeting, "• Muzza - $8000", the total and "Retiro en el local". |
| OrderSubmit.SendWhatsApp | script.js:667-740 | A refusal keeps the cart, and so does a failed save. A saved order sends exactly the source's message for the prepared order and empties the cart. |

## Left out

- Network, storage and JSON are not modelled: fetching products, promotions and configuration over the network, the local storage cache, and JSON decoding. Their results enter as parameters: the menu items, the promotions, the configuration, and a boolean for whether the order was saved.
- The DOM is not modelled: rendering, tabs, modals, `alert` texts, the pulse animation and event-listener wiring. The values the handlers read from the page are parameters.
- `window.open` of the WhatsApp link (script.js:736) is not modelled. The model stops at the message text.
- Timers are not modelled.
- `formatPrice` is not modelled: it only formats displayed prices, through the browser's locale formatting.
- `slugify`, `esJueves` and `coincideDia` are not modelled: they are never called.
- The first `escapeHTML` declaration (script.js:26) is not modelled. The later declaration replaces it.
- menu-data.js is not part of this model.
- Numbers are integers or NaN. Fractions, exponents, the `0x`, `0b` and `0o` spellings and `Infinity` are not modelled, so `Number` of such text is NaN in the model (JavaScript reads `Number("0b101")` as 5). `parseInt` does not read the `0x` prefix either: JavaScript reads `parseInt("0x1A")` as 26, the model as 0. JavaScript numbers are exact integers only up to 2^53, while the model's integers are unbounded, so sums and products past that bound are not rounded as they would be in the browser.
- `toLowerCase` is modelled for ASCII letters only.
- Unicode is not normalised; strings are sequences of characters.
- Opening hours: `Today` takes the weekday, the date text and the minutes since midnight as given. The model does not derive them from a clock.
- SiteHours.IsOpenNow: `open_days` is modelled as an array of numbers. If the configuration held the weekdays as strings, `includes(todayIdx)` would never match and the source would always report the shop closed; the model cannot express such an array.
- OrderSubmit.SendWhatsApp: it assumes the cart does not change while the save is pending. The source awaits the save, then reads the live cart again for the message and empties it. A second click, or an item added meanwhile, is not modelled: the duplicate order, the message whose lines no longer match its total, and the added lines cleared without ever being saved.
- HalfHalf.HalfHalfLine: it requires each chosen option to carry a positive integer price. An option whose price has no leading digits would make the charged price NaN. One priced 0 or below would still be charged, through `Math.max`, an ordinary number. The requirement holds of every option `HalfHalfOptions` builds, so neither case is modelled.
- HalfHalf.AddHalfHalfToCart: the same requirement on chosen options as `HalfHalfLine`.
- HtmlEscape.AttributeRoundTrip and Promos.RenderedPromoReadsBack: reading back is modelled as decoding the five character references only. The browser's HTML parser also turns CR and CRLF into LF and NUL into U+FFFD, so a title containing "\r\n" reads back with "\n"; that normalisation is not modelled.
- OrderSubmit.PickupExample: the message is stated as a concatenation of its parts rather than as a single literal string.

## Findings

| source | as written | input that shows it | evidently intended | confidence | as-written member | corrected member |
|---|---|---|---|---|---|---|
| script.js:165-177 | The NaN check misses a missing minutes part. For an opening time without `:` whose hour part `Number` reads as an integer (such as "08"), the minutes part is `undefined`, which `Number.isNaN` does not flag. The opening minute becomes NaN, every comparison with it is false, and the overnight branch answers. A closing time such as "22" is missed the same way (`HourOnlyCloseExample`: "08:00"-"22" is reported open at 23:00). | Opening "08", closing "22:00", at 00:00: the shop is reported open. | A time that is not `HH:MM` should mean closed. | not executed | SiteHours.HourOnlyExample | SiteHours.IsOpenNowIntended |
| script.js:721-724 | The half & half name is split on `:` and then on every `/`. A flavour containing `/` is cut in two, and the real second flavour is dropped. | "Muzza c/ ajo" with "Napolitana": the message says "mitad Muzza c / mitad ajo". | Remove the fixed heading and split at the " / " the composer inserted. | not executed | OrderSubmit.SlashInFlavourGarbled | OrderSubmit.HalvesOfComposite |

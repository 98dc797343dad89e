# padhai-karo: stock profit and portfolio filter, modelled in Dafny

Two small sequential pieces of the repository are modelled and proved.

- **`StockProfit`** (`stock_profit.dfy`) models `maximumProfit` from
  `DSA-CODES/Dynamic_programming/Buy_ans_sell_stock_1.cpp`. It is the best
  profit from one buy and one sell on a later day. The method `MaximumProfit`
  keeps the source's single pass: a running minimum `mini` and a best-so-far
  `maxProfit`. It is proved against two things. The first is the predicate
  `IsMaxProfit`: the profit is non-negative, no pair `i < j` earns more, and
  unless it is 0 some pair earns exactly that much. The second is an
  independent recursive reference, `BestProfit`: either buy on the first day
  and sell at the highest later price, or skip the first day. The price vector
  becomes an `array<int>`. The method has no `modifies` clause, so Dafny
  guarantees that the array is only read.
- **`PortfolioScript`** (`portfolio_script.dfy`) models `script.js` with the
  page's elements turned into plain data:
  - `SearchNotice` is the search button's guard. It gives a notice exactly
    when the query is non-empty (JavaScript's truthiness on a string), and the
    notice ends with exactly the query.
  - `FilterPanel` is the filter section. The buttons' tags and the project
    cards are `const` fields. The buttons' active flags (`active: seq<bool>`)
    and the results container (`pdfList: seq<PdfItem>`) are mutable fields.
  - `FilterPanel.Click(index)` is the button's click handler, written with the
    source's loops. It clears every active flag and sets the clicked one. It
    empties the list. Then, for each project that matches, it appends the
    13-entry `Catalog`, each entry labelled `name + " - " + title`. The
    catalog is reproduced as written, including the two entries ("PYTHON" and
    "MERN STACK") that share the url `./assets/mernstack.pdf`.
  - The result of a click is tied to the specification function `Results`.
    Lemmas prove what that output is: its length, its order, the label of each
    item, and which projects contribute.

## Model

| member | source | states |
|---|---|---|
| `StockProfit.MaximumProfit` | DSA-CODES/Dynamic_programming/Buy_ans_sell_stock_1.cpp:2-12 | Needs a non-empty array (`prices[0]` is read first). The result is non-negative. It is at least `prices[j] - prices[i]` for every `i < j`. Unless it is 0, some such pair reaches it exactly. It equals the reference `BestProfit`. The loop invariants keep `mini` as the minimum of the days seen so far and `maxProfit` as the best profit within them. |
| `StockProfit.BestProfit` | DSA-CODES/Dynamic_programming/Buy_ans_sell_stock_1.cpp:5-9 | The reference best profit is never negative, just as `maxProfit` starts at 0 and only grows through `max`. |
| `StockProfit.BestProfitIsMaxProfit` | DSA-CODES/Dynamic_programming/Buy_ans_sell_stock_1.cpp:7-12 | The reference definition is the maximum of 0 and every later-sell-minus-earlier-buy difference, and that maximum is attained. |
| `StockProfit.MaxProfitUnique` | DSA-CODES/Dynamic_programming/Buy_ans_sell_stock_1.cpp:7-12 | Bounding every pair and being attained, or being 0, determine the profit uniquely. So the scan and the reference cannot disagree. |
| `StockProfit.NonIncreasingHasNoProfit` | DSA-CODES/Dynamic_programming/Buy_ans_sell_stock_1.cpp:8-9 | If the price never rises from one day to any later day, the best profit is 0. |
| `StockProfit.ProfitBoundedBySpread` | DSA-CODES/Dynamic_programming/Buy_ans_sell_stock_1.cpp:8-10 | The best profit is at most the highest price minus the lowest price. |
| `StockProfit.IsMaxProfit` | DSA-CODES/Dynamic_programming/Buy_ans_sell_stock_1.cpp:7-12 | The closed form of what the loop computes. The profit is at least 0 (the start value of `maxProfit`). It is at least `s[j] - s[i]` for every buy day `i` before a sell day `j`. Unless it is 0, one such pair earns exactly that much. |
| `StockProfit.SeqMin` | DSA-CODES/Dynamic_programming/Buy_ans_sell_stock_1.cpp:10 | The lowest price: no price is below it, and it occurs on some day. `ProfitBoundedBySpread` uses it. The loop itself tracks the running minimum with a ghost index of its day (loop invariant of `MaximumProfit`), not through this function. |
| `StockProfit.SeqMax` | DSA-CODES/Dynamic_programming/Buy_ans_sell_stock_1.cpp:8-9 | The highest price: no price is above it, and it occurs on some day. This is the best sell price used by the reference definition. |
| `PortfolioScript.SearchNotice` | script.js:1-6 | No notice exactly when the query is empty. Otherwise the notice is `"You searched for: "` followed by exactly the query. |
| `PortfolioScript.FilterPanel.Click` | script.js:14-64 | Afterwards exactly one button is active: the clicked one. The results are exactly `Results(tag, Catalog, projects)`. They do not depend on what the container held before, so earlier results are replaced and never accumulate. The tags and projects do not change. |
| `PortfolioScript.FilterPanel.AppendCatalog` | script.js:54-62 | Appends the whole catalog, labelled with the project's title, in catalog order, after whatever the list already holds. |
| `PortfolioScript.FilterPanel.constructor` | script.js:9-11 | The page as loaded: the button tags, the project cards, the initial active flags and the initial list contents. |
| `PortfolioScript.Matches` | script.js:26-28 | The test the handler applies to each card: the tag is `"all"`, or the card's category equals the tag. The categories are compared by exact string equality, like `===`. |
| `PortfolioScript.Render` | script.js:56-61 | One result item. Its link target is the entry's `url`, and its text is the entry's `name`, then `" - "`, then the card's title. |
| `PortfolioScript.RenderAll` | script.js:54-62 | The inner `forEach`: the given catalog entries rendered for one title, in catalog order. |
| `PortfolioScript.Group` | script.js:26-62 | What one card adds to the list: the whole rendered catalog if it matches, otherwise nothing. |
| `PortfolioScript.Results` | script.js:22-64 | The list after a click: it starts empty, and each card's group is appended in page order. This is the outer `forEach` over the cards. |
| `PortfolioScript.Matching` | script.js:25-28 | The cards that pass the test, in page order. The order lemmas use it to number the groups. |
| `PortfolioScript.RenderEach` | script.js:25-62 | A reference rendering that does no filtering: one rendered catalog per given card, concatenated. `ResultsGroupedByProject` compares `Results` with it. |
| `PortfolioScript.CatalogEntries` | script.js:33-52 | The catalog as written has 13 entries, with pairwise distinct names. Entries 3 ("PYTHON") and 9 ("MERN STACK"), counting from 0, share the url `./assets/mernstack.pdf`. |
| `PortfolioScript.MatchingAll` | script.js:28 | With the `"all"` tag every project matches, whatever its category. |
| `PortfolioScript.MatchingMembers` | script.js:26-28 | A project is among the matching ones exactly when it is on the page and matches. For a tag other than `"all"`, that means exactly when its category equals the tag. |
| `PortfolioScript.ResultsLength` | script.js:33-62 | The output length is the catalog size (13) times the number of matching projects. |
| `PortfolioScript.ResultsGroupedByProject` | script.js:25-62 | Filtering and rendering separate. The output is one whole rendered copy of the catalog per matching project, concatenated in page order, and nothing else. |
| `PortfolioScript.ResultsAt` | script.js:25-62 | The item at position `13*m + k` is catalog entry `k`: its link is the entry's `url` and its label is `name + " - " + title` of the `m`-th matching project. So output is grouped by project in page order, and in catalog order within a group. |
| `PortfolioScript.RenderAllAt` | script.js:54-60 | Rendering the catalog for one title keeps its length and its order. Item `k` links to entry `k`'s url and is labelled `name + " - " + title`. |
| `PortfolioScript.RenderAllLength` | script.js:54-62 | One rendered item per catalog entry. Unlike `RenderAllAt`, it also covers an empty catalog. |
| `PortfolioScript.TwoProjectScenario` | script.js:25-62 | Projects A (`"web"`) and B (`"cpp"`): `"web"` gives the catalog labelled for A, `"cpp"` gives it labelled for B, and `"all"` gives 26 items. |

## Left out

- DOM access (`querySelectorAll`, `getAttribute`, `classList`, `innerHTML`, `createElement`, `appendChild`, reading the `h3` text) is modelled as sequences of records and strings. The `DOMContentLoaded` listener and the registration of event listeners are event wiring, and are not modelled.
- `alert` is a side effect. Only the decision to show a notice, and its text, are modelled.
- The HTML template at script.js:58-60 is modelled as a link target plus a label string. No markup is parsed or escaped.
- script.js:33 builds the catalog array again for every matching project. The model uses one constant sequence, which behaves the same.
- `StockProfit.MaximumProfit`: does not model 32-bit `int` overflow in `prices[i] - mini`. It uses mathematical integers, so for prices whose difference overflows `int` the C++ result is undefined while the model's result is the true difference.
- `PortfolioScript.FilterPanel.Click`: assumes every project card has an `h3` title and a `data-category` attribute, and every filter button a `data-filter` attribute, each modelled as a string. It does not model the error path when a matching card has no `h3`. There, `querySelector("h3").textContent` at script.js:30 throws part-way through the loop at script.js:25; the list keeps the items already appended and no later card is rendered. It also does not model `getAttribute` returning `null` for a missing attribute (script.js:15, script.js:26). In the source, a button without `data-filter` then matches every card without `data-category`. Such a missing attribute is not the same as an empty string, which is all a string model can express.

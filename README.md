# Daraz review harvester — verified model of the scraping core

This project models the review-harvesting core of `backend/app/scraper.py` in Dafny. It covers three parts:

* `clean_text` normalises text. It collapses every run of whitespace to one space and strips both ends. A missing or empty value gives `""`.
* `extract_item_id_from_url` finds the product's item id in a product URL. It tries two patterns in turn:
  * the primary `-i(\d+)`;
  * the fallback `/products/.*?(\d{9,})`.

  Both are written as explicit scanners over the string. No regular-expression engine is modelled.
* `scrape_daraz_reviews` covers the item-id guard and the review-API loop. The loop asks for pages 1, 2, 3, … of 20 reviews each. It turns every raw review into a record `{product_name, review_text, rating}`. It stops on any of:
  * the cap `max_reviews` being reached;
  * an empty page;
  * a short page;
  * a response without `model.items`;
  * a transport or JSON error;
  * any other exception, apart from a `ValueError` raised by the first request itself (see "Left out").

  It returns `reviews_data[:max_reviews]`.

The review API is modelled as the sequence of its answers to successive page requests (`Harvest.Resp`):

* `FetchError` is a request exception or a bad HTTP status.
* `BadJson` is a body that is not JSON.
* `Malformed` is JSON that is falsy or lacks `model.items`.
* `Items(xs)` is the list of raw reviews.

A raw review (`Harvest.RawItem`) is either readable or `Unreadable`. A readable review has:

* `reviewContent`: `None` stands for absent, null or any other falsy value. All of these clean to `""`.
* `ratingStar`: absent and null behave alike.
* `rating`: a three-state field (absent, null, or a value). A null `rating` renders as `"None"`, because that is what `str(None)` gives.

`Unreadable` is an element whose processing raises:

* an element that is not an object;
* an element whose `reviewContent` is truthy but is not text.

The generic `except Exception` handler turns such an element into the end of the harvest.

The product name, which the source obtains with a browser, is a plain input.

Files and modules:

* `options.dfy`, module `Options`: the `Option` type.
* `text.dfy`, module `Text`: `clean_text`. Its reference definition is the words of the text joined by single spaces, which is `" ".join(s.split())`.
* `item_id.dfy`, module `ItemId`: the two URL patterns and `extract_item_id_from_url`.
* `harvest.dfy`, module `Harvest`: the item-id guard, the page loop (`CollectReviews`) and its per-page inner loop (`HarvestPage`).
  * Both loops are methods with invariants.
  * They are proved against the specification function `HarvestResult`. It says the harvest returns the first `max_reviews` records of the raw reviews the API hands out before pagination stops, where the record stream ends at the first unreadable review.
  * The requests issued are returned as `(itemId, pageNo)` pairs and described by `Paged`.

## Model

| member | source | states |
|---|---|---|
| Text.CleanTextMeaning | backend/app/scraper.py:22-29 | A present text cleans to its whitespace-separated words joined by single spaces. The result never starts or ends with whitespace, has no two adjacent whitespace characters, and its only whitespace character is `' '`. It is `""` exactly when the input is missing, empty or whitespace-only. |
| Text.CleanText | backend/app/scraper.py:22-29 | `clean_text`: a missing or empty value gives `""`, and any other text gives `Strip(CollapseSpaces(text))`. Its meaning is stated by `CleanTextMeaning` and `CleanTextIdempotent`. |
| Text.CleanTextIdempotent | backend/app/scraper.py:22-29 | Cleaning an already cleaned text changes nothing. |
| Text.CollapseShape | backend/app/scraper.py:24 | Replacing every whitespace run with one space yields the words joined by single spaces. One space is added in front when the text starts with whitespace, and one at the end when it ends with whitespace. A whitespace-only text becomes a single space, and an empty text stays empty. |
| Text.CollapseSpaces | backend/app/scraper.py:24 | `re.sub(r'\s+', ' ', text)`: every maximal whitespace run becomes one space. Its meaning is stated by `CollapseShape` and `CollapseSingleSpaced`. |
| Text.CollapseSingleSpaced | backend/app/scraper.py:24 | The substitution leaves unchanged a text whose whitespace characters are all plain spaces, none adjacent to another. This is why cleaning twice changes nothing. |
| Text.StripAround | backend/app/scraper.py:28 | `strip()` removes exactly one optional leading space and one optional trailing space around a joined-words text. |
| Text.Strip | backend/app/scraper.py:28 | `str.strip()`: drops the leading and the trailing whitespace. Its meaning for every text is stated by `StripMeaning`, and for the collapsed texts `clean_text` hands it by `StripAround` and `StripCollapseIsJoinedWords`. |
| Text.StripMeaning | backend/app/scraper.py:28 | For every text, the result of `strip()` is the part between a maximal leading whitespace run and an all-whitespace tail. It neither starts nor ends with whitespace, and it is empty exactly when the text is all whitespace. |
| Text.StripCollapseIsJoinedWords | backend/app/scraper.py:24-28 | Substitution followed by `strip()` equals joining the words with single spaces, for every string. |
| ItemId.DigitRun | backend/app/scraper.py:34 | The greedy `\d+` capture: every character of the run is a digit, and the run ends at the end of the URL or at a non-digit. |
| ItemId.FindPrimary | backend/app/scraper.py:34 | `re.search` for `-i\d`: the result is the leftmost position where `-i` is followed by a digit. It is none exactly when no position matches. |
| ItemId.MatchPrimary | backend/app/scraper.py:34-38 | The primary pattern gives nothing exactly when no `-i<digit>` occurs. Otherwise it gives the maximal digit run after the first occurrence. |
| ItemId.LineEnd | backend/app/scraper.py:42 | The reach of `.*?`: the next newline at or after a position, or the end of the URL. |
| ItemId.ScanLongRun | backend/app/scraper.py:42 | The lazy `.*?(\d{9,})` after a `/products/`: the first position before the next newline where nine or more digits start, or none when no such position exists. |
| ItemId.FindFallback | backend/app/scraper.py:42 | `re.search` for the fallback: the leftmost `/products/` whose lazy scan succeeds, paired with the first 9-digit start its scan reaches. It is none exactly when no such pair exists. |
| ItemId.MatchFallbackMeaning | backend/app/scraper.py:42-46 | The fallback gives nothing exactly when no `/products/` is followed on its line by a run of nine or more digits. Otherwise it gives such a run. |
| ItemId.MatchFallback | backend/app/scraper.py:42-46 | The fallback's group 1: the greedy digit run at the position `FindFallback` reports. Its meaning is stated by `MatchFallbackMeaning` and `FallbackCaptureUnique`. |
| ItemId.ExtractItemId | backend/app/scraper.py:31-49 | The id is the primary capture when `-i<digit>` occurs, and otherwise the fallback capture. Any id is a non-empty string of digits. A fallback id has at least nine digits. The result is none exactly when neither pattern matches. |
| ItemId.ItemIdOfShape | backend/app/scraper.py:34-46 | Every id either pattern captures is a non-empty all-digit string. |
| ItemId.PrimaryCaptureUnique | backend/app/scraper.py:34-38 | Only one string is the primary capture of a URL. |
| ItemId.FallbackCaptureUnique | backend/app/scraper.py:42-46 | Only one string is the fallback capture of a URL. |
| ItemId.ItemIdOfDetermines | backend/app/scraper.py:31-49 | Conversely, any string the two-stage rule would capture is exactly what extraction returns. |
| ItemId.DemoUrlItemId | backend/app/scraper.py:212 | The demo product URL yields the item id `"216038129"`. |
| Harvest.RatingText | backend/app/scraper.py:162-167 | `str(ratingStar)` when it is present and not null. Otherwise the text of `rating`, `"None"` when `rating` is null. It is `"N/A"` exactly when neither key supplies another value. |
| Harvest.RecordOfShape | backend/app/scraper.py:157-178 | One readable review adds at most one record. That record carries the product name and a non-empty cleaned text. |
| Harvest.RecordOf | backend/app/scraper.py:157-177 | The record of one readable review: none when its cleaned text is empty, otherwise `{product_name, cleaned text, RatingText}`. Its meaning is stated by `RecordOfShape`, and `AddReview` is proved to append it. |
| Harvest.NormalizedRecords | backend/app/scraper.py:157-178 | The records of a review stream are no more than its reviews. Every record has the given product name and a non-empty cleaned review text. |
| Harvest.NormalizeItems | backend/app/scraper.py:153-181 | The records of a stream of raw reviews, in order, up to the first unreadable one. Its meaning is stated by `NormalizedRecords`, `NormalizeAppend` and `NormalizeCut`. |
| Harvest.NormalizeAppend | backend/app/scraper.py:153-178 | The records of readable reviews followed by more reviews are the records of the first part followed by those of the rest. Records keep API order. |
| Harvest.NormalizeCut | backend/app/scraper.py:196-198 | An unreadable review ends the record stream: nothing after it contributes. |
| Harvest.FailedPageEndsHarvest | backend/app/scraper.py:196-198 | A page with an unreadable review hides every later page from the records. |
| Harvest.CapReached | backend/app/scraper.py:153-155 | Once the records reach the cap, later reviews do not change the capped result. |
| Harvest.PageFailsMeaning | backend/app/scraper.py:153-157 | Only a page holding an unreadable review fails. A page that does not fail while the records stay below the cap is readable throughout. |
| Harvest.AddReview | backend/app/scraper.py:157-178 | Appends the review's record, or nothing when its cleaned text is empty. The counter stays equal to the number of records. |
| Harvest.HarvestPage | backend/app/scraper.py:153-181 | The inner loop over a page extends the records by the page's records, capped at `max_reviews`. The counter equals the number of records. The page fails exactly when an unreadable review comes before the cap is reached. |
| Harvest.CollectReviews | backend/app/scraper.py:123-201 | The page loop returns `HarvestResult`: the first `max_reviews` records of the reviews handed out before pagination stops. It never returns more than `max_reviews` records. Its requests satisfy `Paged`. They are pages 1, 2, … for the item, at least one when the cap is positive. Each request after the first follows a full page of readable reviews while the records are below the cap. The page answering the last request, if any, ends the loop because it is not full, holds an unreadable review, or brings the records to the cap. |
| Harvest.ScrapeReviews | backend/app/scraper.py:52-60 | Without an item id, the result is `[]` and no request is issued. Otherwise the result is the harvest result with the requests `Paged` describes. The result never exceeds a non-negative cap, and every record carries the product name and a non-empty cleaned text. |
| Harvest.CrawlMeaning | backend/app/scraper.py:134-198 | From any loop state consistent with the pages so far, the loop ends with the capped records of the reachable reviews. Every page before its last request was full and readable, and the last page answered ends the loop. It ends no earlier than the page it is at, and later if the cap is not yet reached. |
| Harvest.CrawlOutcome | backend/app/scraper.py:134-201 | The loop's final records are `HarvestResult`, the final `[:max_reviews]` slice leaves them unchanged, and the requests satisfy `Paged`. |
| Harvest.Crawl | backend/app/scraper.py:134-149 | The `while` loop from the request for a given page on: it stops at the cap before asking, or after a request that fails or whose page has no items; otherwise it continues in `CrawlPage`. Its meaning is stated by `CrawlMeaning`. `CollectReviews` keeps the loop invariant that the crawl from the current state equals the crawl from page 1. |
| Harvest.CrawlPage | backend/app/scraper.py:153-186 | The loop once a page has items: the page's records are added up to the cap, and the loop stops when the page fails or is short and moves to the next page otherwise. Its meaning is stated by `CrawlMeaning`. |
| Harvest.PagedDetermined | backend/app/scraper.py:134-198 | Exactly one sequence of requests satisfies `Paged` for given answers, cap and product name. The request trace that `CollectReviews` promises is therefore the loop's own: no extra request and no early stop. |
| Harvest.ReachablePrefix | backend/app/scraper.py:183-186 | After n full pages, the reachable reviews are those n pages' reviews followed by what the remaining answers yield. |
| Harvest.ReachableItems | backend/app/scraper.py:142-149 | The raw reviews handed out before pagination stops: the items of every full page, then those of the first page that is short, and nothing from a page that failed, is malformed or is empty. Its meaning is stated by `ReachablePrefix`, `BadPageEndsHarvest` and `UnreadableEndsHarvest`. |
| Harvest.HarvestResult | backend/app/scraper.py:134-201 | The specification of the harvest: the first `max_reviews` records of the reachable reviews. `HarvestRecords` states the shape of its records, and `CollectReviews` is proved to return it. |
| Harvest.HarvestRecords | backend/app/scraper.py:172-177 | Every record the harvest returns carries the product name and a non-empty, cleaned review text. |
| Harvest.BadPageEndsHarvest | backend/app/scraper.py:142-149 | When page n+1 is missing, fails to fetch or parse, lacks `model.items` or is empty, the harvest returns exactly the capped records of pages 1..n. |
| Harvest.UnreadableEndsHarvest | backend/app/scraper.py:196-198 | An unreadable review at position j of page n+1, after n full readable pages: the harvest keeps the records of pages 1..n and of that page's reviews before position j. Nothing after j contributes. |
| Harvest.Take | backend/app/scraper.py:153-155 | The capped prefix: `min(max, len)` elements (none for a non-positive cap), which are the first elements of the sequence. |
| Harvest.SlicePrefix | backend/app/scraper.py:201 | Python's `s[:m]`: a prefix of `s` whose length is `min(m, len(s))` for `m >= 0`. |

## Left out

- The browser-based product-name lookup (`backend/app/scraper.py:62-119`: Selenium driver, timeouts, retry with sleep, DOM lookup) is foreign I/O. The product name is an arbitrary input string. It may be `"Unknown Product"` or even `""`.
- The HTTP session, headers, URL building, status check and JSON decoding (`backend/app/scraper.py:126-140`) are network I/O. They are replaced by the answer sequence `Resp`, and a request is recorded as the pair `(itemId, pageNo)` instead of the URL string.
- The randomised delay between pages (`backend/app/scraper.py:187-188`) only affects timing.
- Logging throughout, and the `__main__` demo block apart from its URL (`backend/app/scraper.py:204-228`).
- backend/app/main.py, backend/app/gsheets.py, backend/app/sentiment.py and backend/app/models.py are not part of this model. They hold request plumbing, calls into Google Sheets and TextBlob, and floating-point sentiment thresholds.
- ItemId.IsDigit: it accepts the ASCII digits only, while Python's `\d` also matches the other Unicode decimal digits.
- Text.IsSpace: it is the fixed set of code points Python treats as whitespace. No encoding or normalisation is modelled.
- Harvest.RatingText: `ratingStar` and `rating` values are taken as the strings `str()` makes of them. The conversion itself is not modelled.
- Harvest.RawItem: the ways a raw review can raise are folded into the single `Unreadable` variant. The kind of exception is not kept, since every kind ends the loop the same way.
- Harvest.Resp: a `model.items` value that is not a list is folded into `Malformed`. Processing it raises or ends the loop before any record is added, so the outcome is the same.
- Harvest.Resp: a `ValueError` raised by the first request itself has no answer in `Resp`. Such an error comes before any response exists. One example is a product URL, sent as the `Referer` header, with a character that Latin-1 cannot encode. The source's `except ValueError` handler (`backend/app/scraper.py:193-195`) then reads `response`, which was never assigned. It raises `UnboundLocalError`, so `scrape_daraz_reviews` raises instead of returning. The model treats every request failure as `FetchError`, which ends the loop with the records gathered so far. On later pages the same handler reads the previous page's response and ends the loop, which is what `FetchError` does.
- Harvest.CollectReviews: the loop is bounded by the finite answer sequence, and a request past its end counts as a fetch error. The source itself has no page bound. Against an API that keeps returning full pages of reviews with empty text, it never stops. The model does not capture that non-termination.
- Harvest.Paged: the below-cap condition is stated for the last request only. For earlier requests it follows because the records only grow.

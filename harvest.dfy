/**
 * The review-harvesting part of `scrape_daraz_reviews` in
 * backend/app/scraper.py: the item-id guard, then the loop that asks the
 * review API for pages 1, 2, 3, ... of 20 reviews and turns each raw review
 * into a record {product_name, review_text, rating}.
 *
 * The API is abstracted as the sequence of answers it gives to the successive
 * page requests; the product name (found by a browser in the source) is an
 * input.
 */
module Harvest {
  import opened Options
  import opened Text
  import opened ItemId

  /** `api_page_size`: reviews asked for per request. */
  const PageSize := 20

  /** The `rating` key of a raw review: absent, JSON null, or a value (as `str` renders it). */
  datatype RatingField = Missing | Null | Val(text: string)

  /** One element of `model.items`. `Unreadable` is an element whose processing
      raises (not an object, or a `reviewContent` that is not text), which ends
      the harvest through the loop's generic exception handler. */
  datatype RawItem =
    | Entry(reviewContent: Option<string>, ratingStar: Option<string>, rating: RatingField)
    | Unreadable

  /** The outcome of one page request: a transport error or bad HTTP status,
      a body that is not JSON, JSON without `model.items`, or the items. */
  datatype Resp = FetchError | BadJson | Malformed | Items(items: seq<RawItem>)

  /** A normalised review as appended to `reviews_data`. */
  datatype Review = Review(productName: string, reviewText: string, rating: string)

  /** The parameters of one request to the review-listing endpoint. */
  datatype Request = Request(itemId: string, pageNo: nat)

  /** The rating text of a raw review: `str(ratingStar)` when present and not
      null, else `str(item.get('rating', 'N/A'))`, so a null `rating` renders "None". */
  function RatingText(ratingStar: Option<string>, rating: RatingField): (r: string)
    ensures ratingStar.Some? ==> r == ratingStar.value
    ensures ratingStar.None? && rating.Val? ==> r == rating.text
    ensures ratingStar.None? && rating.Null? ==> r == "None"
    ensures r == "N/A" <==>
      || (ratingStar.Some? && ratingStar.value == "N/A")
      || (ratingStar.None? && (rating.Missing? || rating == Val("N/A")))
  {
    match ratingStar
    case Some(star) => star
    case None =>
      match rating
      case Missing => "N/A"
      case Null => "None"
      case Val(v) => v
  }

  ghost predicate Readable(items: seq<RawItem>)
  {
    forall k :: 0 <= k < |items| ==> items[k].Entry?
  }

  /** The position of the first unreadable item, |items| when there is none. */
  ghost function FirstUnreadable(items: seq<RawItem>): nat
  {
    if |items| == 0 || items[0].Unreadable? then 0 else 1 + FirstUnreadable(items[1..])
  }

  /** The records a stream of raw reviews yields, in order: reviews whose cleaned
      text is empty are dropped, and the stream ends at the first unreadable item. */
  function NormalizeItems(items: seq<RawItem>, productName: string): (rs: seq<Review>)
    decreases |items|, 1
  {
    if |items| == 0 then []
    else
      match items[0]
      case Unreadable => []
      case Entry(_, _, _) => RecordsFrom(items, productName)
  }

  /** The records of a stream that starts with a readable review. */
  function RecordsFrom(items: seq<RawItem>, productName: string): seq<Review>
    requires |items| > 0 && items[0].Entry?
    decreases |items|, 0
  {
    RecordOf(items[0], productName) + NormalizeItems(items[1..], productName)
  }

  /** The record one readable review yields: none when its cleaned text is empty. */
  function RecordOf(item: RawItem, productName: string): seq<Review>
    requires item.Entry?
  {
    var text := CleanText(item.reviewContent);
    if text == "" then [] else [Review(productName, text, RatingText(item.ratingStar, item.rating))]
  }

  /** A page after which the source asks for the next one. */
  predicate FullPage(r: Resp)
  {
    r.Items? && |r.items| >= PageSize
  }

  /** The raw reviews the API hands out before pagination stops, whatever the
      cap: the items of every page up to the first page that is not a list of
      items, is empty, or is short (whose items are included). */
  function ReachableItems(responses: seq<Resp>): seq<RawItem>
  {
    if |responses| == 0 then []
    else
      match responses[0]
      case Items(xs) =>
        if |xs| == 0 then []
        else if |xs| < PageSize then xs
        else xs + ReachableItems(responses[1..])
      case _ => []
  }

  /** The items of the first n pages, in order; pages without items contribute none. */
  function PagesItems(responses: seq<Resp>, n: nat): seq<RawItem>
    requires n <= |responses|
  {
    if n == 0 then []
    else PagesItems(responses, n - 1) + (if responses[n - 1].Items? then responses[n - 1].items else [])
  }

  /** The first max elements of s (none when max is not positive). */
  function Take<T>(s: seq<T>, max: int): (r: seq<T>)
    ensures |r| == if max <= 0 then 0 else if max < |s| then max else |s|
    ensures r == s[..|r|]
  {
    if max <= 0 then [] else if max < |s| then s[..max] else s
  }

  /** Python's `s[:m]`: a negative m counts from the end. */
  function SlicePrefix<T>(s: seq<T>, m: int): (r: seq<T>)
    ensures |r| <= |s| && r == s[..|r|]
    ensures m >= 0 ==> |r| == if m < |s| then m else |s|
  {
    if m >= 0 then (if m < |s| then s[..m] else s)
    else if |s| + m > 0 then s[..|s| + m] else []
  }

  /** The page loop meets an unreadable item: the first unreadable item comes
      before the records so far reach the cap. */
  ghost predicate PageFails(items: seq<RawItem>, productName: string, maxReviews: int, reviews0: seq<Review>)
  {
    && FirstUnreadable(items) < |items|
    && |reviews0| + |NormalizeItems(items[..FirstUnreadable(items)], productName)| < maxReviews
  }

  /** What `scrape_daraz_reviews` returns once an item id has been found. */
  function HarvestResult(responses: seq<Resp>, maxReviews: int, productName: string): seq<Review>
  {
    Take(NormalizeItems(ReachableItems(responses), productName), maxReviews)
  }

  /**
   * The `for` loop over one page's items: append the record of every readable
   * review with non-empty text until the cap is reached; an unreadable item
   * ends the page (and the harvest) with `failed`. Items after the cap is
   * reached are not examined, so an unreadable one there does not fail.
   */
  method HarvestPage(items: seq<RawItem>, productName: string, maxReviews: int,
                     reviews0: seq<Review>, count0: int)
    returns (reviews: seq<Review>, count: int, failed: bool)
    requires count0 == |reviews0| < maxReviews
    ensures count == |reviews|
    ensures reviews == Take(reviews0 + NormalizeItems(items, productName), maxReviews)
    ensures failed <==> PageFails(items, productName, maxReviews, reviews0)
  {
    reviews, count, failed := reviews0, count0, false;
    var i := 0;
    while i < |items|
      invariant 0 <= i <= |items|
      invariant Readable(items[..i])
      invariant count == |reviews|
      invariant reviews == reviews0 + NormalizeItems(items[..i], productName)
      invariant count <= maxReviews
    {
      if count >= maxReviews {
        break;
      }
      if items[i].Unreadable? {
        failed := true;
        break;
      }
      PageStep(items, i, productName, reviews0, reviews);
      reviews, count := AddReview(items[i], productName, reviews, count);
      i := i + 1;
    }
    PageOutcome(items, productName, maxReviews, reviews0, i, failed);
  }

  /** One pass of the item loop: the record of a readable review, when its
      cleaned text is not empty, is appended and counted. */
  method AddReview(item: RawItem, productName: string, reviews0: seq<Review>, count0: int)
    returns (reviews: seq<Review>, count: int)
    requires item.Entry? && count0 == |reviews0|
    ensures reviews == reviews0 + RecordOf(item, productName)
    ensures count == |reviews|
  {
    reviews, count := reviews0, count0;
    var text := CleanText(item.reviewContent);
    if text != "" {
      reviews := reviews + [Review(productName, text, RatingText(item.ratingStar, item.rating))];
      count := count + 1;
    }
  }

  /**
   * The API half of `scrape_daraz_reviews(product_url, max_reviews)`.
   * `responses[k]` is the API's answer to the request for page k + 1; a request
   * beyond the end of `responses` fails like a transport error. Returns the
   * records and the requests issued, in order. Without an item id nothing is
   * requested and the result is empty.
   */
  method ScrapeReviews(productUrl: string, maxReviews: int, productName: string, responses: seq<Resp>)
    returns (reviews: seq<Review>, requests: seq<Request>)
    ensures ExtractItemId(productUrl).None? ==> reviews == [] && requests == []
    ensures ExtractItemId(productUrl).Some? ==>
      && reviews == HarvestResult(responses, maxReviews, productName)
      && Paged(requests, ExtractItemId(productUrl).value, maxReviews, productName, responses)
    ensures maxReviews >= 0 ==> |reviews| <= maxReviews
    ensures forall r :: r in reviews ==> r.productName == productName && r.reviewText != "" && Cleaned(r.reviewText)
  {
    var found := ExtractItemId(productUrl);
    if found.None? {
      return [], [];
    }
    reviews, requests := CollectReviews(found.value, maxReviews, productName, responses);
    HarvestRecords(responses, maxReviews, productName);
  }

  /** The requests of a harvest for item `itemId`: pages 1, 2, ... in order, at
      most one past the answers, at least one when the cap is positive. Each
      request but the first follows a full page of readable reviews, and the
      last one (hence, the records only growing, every one) is issued while the
      records of the earlier pages are below the cap. The page answering the
      last request, when there is one, ends the loop (`EndsLoop`). */
  ghost predicate Paged(requests: seq<Request>, itemId: string, maxReviews: int, productName: string, responses: seq<Resp>)
  {
    && (forall k :: 0 <= k < |requests| ==> requests[k] == Request(itemId, k + 1))
    && |requests| <= |responses| + 1
    && (maxReviews > 0 ==> |requests| > 0)
    && (forall k :: 0 <= k < |requests| - 1 ==> k < |responses| && FullPage(responses[k]))
    && (|requests| > 0 ==> Readable(PagesItems(responses, |requests| - 1)))
    && (|requests| > 0 ==>
          |NormalizeItems(PagesItems(responses, |requests| - 1), productName)| < maxReviews)
    && (0 < |requests| <= |responses| ==>
          EndsLoop(responses[|requests| - 1], PagesItems(responses, |requests|), maxReviews, productName))
  }

  /** The answer `r` to a request ends the `while` loop, `done` being the raw
      reviews of the pages up to and including it: the page is not full (the
      request failed, the page is malformed, empty or short), or it holds an
      unreadable review, or its records bring the total to the cap. */
  ghost predicate EndsLoop(r: Resp, done: seq<RawItem>, maxReviews: int, productName: string)
  {
    || !FullPage(r)
    || !Readable(r.items)
    || |NormalizeItems(done, productName)| >= maxReviews
  }

  /**
   * The rest of the `while` loop from the request for page `pageNo` on, with
   * `reviews` gathered so far: the final records and the number of requests
   * issued in all. It stops when the cap is reached (before asking), when the
   * request fails, the body is not JSON or has no `model.items`, the page is
   * empty, an unreadable review is met, or the page is short.
   */
  ghost function Crawl(responses: seq<Resp>, pageNo: nat, reviews: seq<Review>, maxReviews: int, productName: string): (seq<Review>, nat)
    requires 1 <= pageNo <= |responses| + 1
    decreases |responses| + 1 - pageNo, 1
  {
    if |reviews| >= maxReviews then (reviews, pageNo - 1)
    else if pageNo > |responses| || !responses[pageNo - 1].Items? || |responses[pageNo - 1].items| == 0 then (reviews, pageNo)
    else CrawlPage(responses, pageNo, reviews, maxReviews, productName)
  }

  /** The crawl once page `pageNo` has answered with items: it stops after this
      page when the page fails or is short, and asks for the next one otherwise. */
  ghost function CrawlPage(responses: seq<Resp>, pageNo: nat, reviews: seq<Review>, maxReviews: int, productName: string): (seq<Review>, nat)
    requires 1 <= pageNo <= |responses| && responses[pageNo - 1].Items?
    decreases |responses| + 1 - pageNo, 0
  {
    var items := responses[pageNo - 1].items;
    var next := Take(reviews + NormalizeItems(items, productName), maxReviews);
    if PageFails(items, productName, maxReviews, reviews) || |items| < PageSize then (next, pageNo)
    else Crawl(responses, pageNo + 1, next, maxReviews, productName)
  }

  /** The `while` loop of `scrape_daraz_reviews` for an item id that was found. */
  method CollectReviews(itemId: string, maxReviews: int, productName: string, responses: seq<Resp>)
    returns (reviews: seq<Review>, requests: seq<Request>)
    ensures reviews == HarvestResult(responses, maxReviews, productName)
    ensures Paged(requests, itemId, maxReviews, productName, responses)
    ensures maxReviews >= 0 ==> |reviews| <= maxReviews
  {
    reviews, requests := [], [];
    var count := 0;
    var pageNo := 1;
    while count < maxReviews
      invariant 1 <= pageNo <= |responses| + 1
      invariant |requests| == pageNo - 1
      invariant forall k :: 0 <= k < |requests| ==> requests[k] == Request(itemId, k + 1)
      invariant count == |reviews|
      invariant Crawl(responses, pageNo, reviews, maxReviews, productName) == Crawl(responses, 1, [], maxReviews, productName)
      decreases |responses| + 1 - pageNo
    {
      requests := requests + [Request(itemId, pageNo)];
      if pageNo > |responses| {
        break;
      }
      var response := responses[pageNo - 1];
      if !response.Items? || |response.items| == 0 {
        break;
      }
      var items := response.items;
      CrawlAfterPage(responses, pageNo, reviews, maxReviews, productName);
      var failed;
      reviews, count, failed := HarvestPage(items, productName, maxReviews, reviews, count);
      if failed {
        break;
      }
      if |items| < PageSize {
        break;
      }
      pageNo := pageNo + 1;
    }
    CrawlOutcome(responses, maxReviews, productName, itemId, reviews, requests);
    reviews := SlicePrefix(reviews, maxReviews);
  }

  // ---------------------------------------------------------------------
  // Lemmas

  /** Every record carries the harvest's product name and a non-empty, cleaned
      review text; there are never more records than raw reviews. */
  lemma {:induction false} NormalizedRecords(items: seq<RawItem>, productName: string)
    ensures |NormalizeItems(items, productName)| <= |items|
    ensures forall r :: r in NormalizeItems(items, productName) ==>
      r.productName == productName && r.reviewText != "" && Cleaned(r.reviewText)
  {
    if |items| > 0 && items[0].Entry? {
      RecordOfShape(items[0], productName);
      NormalizedRecords(items[1..], productName);
      assert NormalizeItems(items, productName) == RecordOf(items[0], productName) + NormalizeItems(items[1..], productName);
    }
  }

  /** Every record the harvest returns carries the product name and a
      non-empty, cleaned review text. */
  lemma HarvestRecords(responses: seq<Resp>, maxReviews: int, productName: string)
    ensures forall r :: r in HarvestResult(responses, maxReviews, productName) ==>
      r.productName == productName && r.reviewText != "" && Cleaned(r.reviewText)
  {
    var all := NormalizeItems(ReachableItems(responses), productName);
    var kept := HarvestResult(responses, maxReviews, productName);
    NormalizedRecords(ReachableItems(responses), productName);
    forall r | r in kept
      ensures r in all
    {
      var i :| 0 <= i < |kept| && kept[i] == r;
      assert all[i] == r;
    }
  }

  /** One readable review yields at most one record, with a non-empty, cleaned text. */
  lemma RecordOfShape(item: RawItem, productName: string)
    requires item.Entry?
    ensures |RecordOf(item, productName)| <= 1
    ensures forall r :: r in RecordOf(item, productName) ==>
      r.productName == productName && r.reviewText != "" && Cleaned(r.reviewText)
  {
    CleanTextMeaning(item.reviewContent);
  }

  lemma ReadableTail(p: seq<RawItem>)
    requires |p| > 0 && Readable(p)
    ensures Readable(p[1..])
  {
    forall k | 0 <= k < |p| - 1
      ensures p[1..][k].Entry?
    {
      assert p[1..][k] == p[k + 1];
    }
  }

  /** The records of a stream start with the record of its first item. */
  lemma NormalizeCons(p: seq<RawItem>, q: seq<RawItem>, productName: string)
    requires |p| > 0 && p[0].Entry?
    ensures NormalizeItems(p + q, productName) == RecordOf(p[0], productName) + NormalizeItems(p[1..] + q, productName)
  {
    assert (p + q)[0] == p[0];
    assert (p + q)[1..] == p[1..] + q;
  }

  /** Records of earlier readable items precede records of later items. */
  lemma {:induction false} NormalizeAppend(p: seq<RawItem>, q: seq<RawItem>, productName: string)
    requires Readable(p)
    ensures NormalizeItems(p + q, productName) == NormalizeItems(p, productName) + NormalizeItems(q, productName)
    decreases |p|
  {
    if |p| == 0 {
      assert p + q == q;
    } else {
      ReadableTail(p);
      NormalizeAppend(p[1..], q, productName);
      NormalizeCons(p, q, productName);
      SeqAssoc(RecordOf(p[0], productName), NormalizeItems(p[1..], productName), NormalizeItems(q, productName));
    }
  }

  /** Nothing after an unreadable item contributes. */
  lemma {:induction false} NormalizeCut(p: seq<RawItem>, k: nat, q: seq<RawItem>, productName: string)
    requires k < |p| && p[k].Unreadable?
    ensures NormalizeItems(p + q, productName) == NormalizeItems(p, productName)
    decreases k
  {
    if k == 0 {
      assert (p + q)[0] == p[0];
    } else if p[0].Entry? {
      assert p[1..][k - 1] == p[k];
      NormalizeCut(p[1..], k - 1, q, productName);
      NormalizeCons(p, q, productName);
    } else {
      assert (p + q)[0] == p[0];
    }
  }

  /** One more readable review adds its record, if its cleaned text is not empty. */
  lemma NormalizeSnoc(p: seq<RawItem>, x: RawItem, productName: string)
    requires Readable(p) && x.Entry?
    ensures Readable(p + [x])
    ensures NormalizeItems(p + [x], productName) == NormalizeItems(p, productName) + RecordOf(x, productName)
  {
    NormalizeAppend(p, [x], productName);
    assert NormalizeItems([x], productName) == RecordsFrom([x], productName);
    assert [x][1..] == [];
    forall k | 0 <= k < |p + [x]|
      ensures (p + [x])[k].Entry?
    {
      if k < |p| { assert (p + [x])[k] == p[k]; }
    }
  }

  /** One more readable item of a page appends its record (at most one). */
  lemma PageStep(items: seq<RawItem>, i: nat, productName: string, reviews0: seq<Review>, reviews: seq<Review>)
    requires i < |items| && items[i].Entry? && Readable(items[..i])
    requires reviews == reviews0 + NormalizeItems(items[..i], productName)
    ensures Readable(items[..i + 1])
    ensures reviews + RecordOf(items[i], productName) == reviews0 + NormalizeItems(items[..i + 1], productName)
    ensures |RecordOf(items[i], productName)| <= 1
  {
    NormalizeSnoc(items[..i], items[i], productName);
    assert items[..i + 1] == items[..i] + [items[i]];
    SeqAssoc(reviews0, NormalizeItems(items[..i], productName), RecordOf(items[i], productName));
  }

  /** Once the records of p fill the cap, later items change nothing. */
  lemma CapReached(p: seq<RawItem>, q: seq<RawItem>, productName: string, maxReviews: int)
    requires |Take(NormalizeItems(p, productName), maxReviews)| >= maxReviews
    ensures Take(NormalizeItems(p + q, productName), maxReviews) == Take(NormalizeItems(p, productName), maxReviews)
  {
    if Readable(p) {
      NormalizeAppend(p, q, productName);
    } else {
      var k :| 0 <= k < |p| && !p[k].Entry?;
      NormalizeCut(p, k, q, productName);
    }
  }

  /** After a page with an unreadable item, nothing later contributes. */
  lemma FailedPageEndsHarvest(done: seq<RawItem>, items: seq<RawItem>, rest: seq<RawItem>, productName: string)
    requires !Readable(items)
    ensures NormalizeItems(done + items + rest, productName) == NormalizeItems(done + items, productName)
  {
    var k :| 0 <= k < |items| && !items[k].Entry?;
    assert (done + items)[|done| + k] == items[k];
    NormalizeCut(done + items, |done| + k, rest, productName);
  }

  /** The state of the `while` loop before the request for page `pageNo`: every
      page so far was full, the records of the pages before the last request
      were below the cap, and `reviews` holds the records of the pages so far,
      capped. */
  ghost predicate Midway(responses: seq<Resp>, pageNo: nat, reviews: seq<Review>, maxReviews: int, productName: string)
  {
    && 1 <= pageNo <= |responses| + 1
    && (forall k :: 0 <= k < pageNo - 1 ==> FullPage(responses[k]))
    && (pageNo > 1 ==> |NormalizeItems(PagesItems(responses, pageNo - 2), productName)| < maxReviews)
    && (pageNo > 1 ==> Readable(PagesItems(responses, pageNo - 2)))
    && ReachableItems(responses) == PagesItems(responses, pageNo - 1) + ReachableItems(responses[pageNo - 1..])
    && (|reviews| < maxReviews ==> Readable(PagesItems(responses, pageNo - 1)))
    && reviews == Take(NormalizeItems(PagesItems(responses, pageNo - 1), productName), maxReviews)
  }

  /** A finished crawl `r` (records, number of requests): it yields the harvest's
      records, asks at most one page past the answers, asks for a next page only
      after a full one, and asks for its last page while below the cap. */
  ghost predicate Outcome(responses: seq<Resp>, maxReviews: int, productName: string, r: (seq<Review>, nat))
  {
    && r.0 == HarvestResult(responses, maxReviews, productName)
    && r.1 <= |responses| + 1
    && (forall k :: 0 <= k < r.1 - 1 ==> FullPage(responses[k]))
    && (r.1 > 0 ==> Readable(PagesItems(responses, r.1 - 1)))
    && (r.1 > 0 ==> |NormalizeItems(PagesItems(responses, r.1 - 1), productName)| < maxReviews)
    && (0 < r.1 <= |responses| ==> EndsLoop(responses[r.1 - 1], PagesItems(responses, r.1), maxReviews, productName))
  }

  /** From any state of the loop, the rest of the crawl is an `Outcome`; it issues
      a request unless the cap is already reached. */
  lemma {:induction false} CrawlMeaning(responses: seq<Resp>, pageNo: nat, reviews: seq<Review>, maxReviews: int, productName: string)
    requires Midway(responses, pageNo, reviews, maxReviews, productName)
    ensures Outcome(responses, maxReviews, productName, Crawl(responses, pageNo, reviews, maxReviews, productName))
    ensures pageNo - 1 <= Crawl(responses, pageNo, reviews, maxReviews, productName).1
    ensures |reviews| < maxReviews ==> pageNo <= Crawl(responses, pageNo, reviews, maxReviews, productName).1
    decreases |responses| + 1 - pageNo
  {
    if |reviews| >= maxReviews {
      CrawlAtCap(responses, pageNo, reviews, maxReviews, productName);
    } else if pageNo > |responses| || !responses[pageNo - 1].Items? || |responses[pageNo - 1].items| == 0 {
      CrawlAtEnd(responses, pageNo, reviews, maxReviews, productName);
    } else {
      var items := responses[pageNo - 1].items;
      if !PageFails(items, productName, maxReviews, reviews) && |items| >= PageSize {
        var next := Take(reviews + NormalizeItems(items, productName), maxReviews);
        CrawlAfterPage(responses, pageNo, reviews, maxReviews, productName);
        CrawlPassesPage(responses, pageNo, reviews, maxReviews, productName);
        CrawlMeaning(responses, pageNo + 1, next, maxReviews, productName);
      } else {
        CrawlEndsAtPage(responses, pageNo, reviews, maxReviews, productName);
      }
    }
  }

  /** After a page with items the crawl ends with that page's records when the
      page fails or is short, and otherwise goes on from the next page. */
  lemma CrawlAfterPage(responses: seq<Resp>, pageNo: nat, reviews: seq<Review>, maxReviews: int, productName: string)
    requires 1 <= pageNo <= |responses| && |reviews| < maxReviews
    requires responses[pageNo - 1].Items? && |responses[pageNo - 1].items| > 0
    ensures var items := responses[pageNo - 1].items;
      var next := Take(reviews + NormalizeItems(items, productName), maxReviews);
      && (PageFails(items, productName, maxReviews, reviews) || |items| < PageSize ==>
            Crawl(responses, pageNo, reviews, maxReviews, productName) == (next, pageNo))
      && (!PageFails(items, productName, maxReviews, reviews) && |items| >= PageSize ==>
            Crawl(responses, pageNo, reviews, maxReviews, productName) == Crawl(responses, pageNo + 1, next, maxReviews, productName))
  {
    assert Crawl(responses, pageNo, reviews, maxReviews, productName) == CrawlPage(responses, pageNo, reviews, maxReviews, productName);
  }

  /** The crawl stops before a request once the cap is reached. */
  lemma CrawlAtCap(responses: seq<Resp>, pageNo: nat, reviews: seq<Review>, maxReviews: int, productName: string)
    requires Midway(responses, pageNo, reviews, maxReviews, productName)
    requires |reviews| >= maxReviews
    ensures Outcome(responses, maxReviews, productName, Crawl(responses, pageNo, reviews, maxReviews, productName))
    ensures Crawl(responses, pageNo, reviews, maxReviews, productName).1 == pageNo - 1
  {
    var done := PagesItems(responses, pageNo - 1);
    assert |NormalizeItems(done, productName)| >= maxReviews;
    CapReached(done, ReachableItems(responses[pageNo - 1..]), productName, maxReviews);
  }

  /** The crawl stops after a request that fails or finds no items. */
  lemma CrawlAtEnd(responses: seq<Resp>, pageNo: nat, reviews: seq<Review>, maxReviews: int, productName: string)
    requires Midway(responses, pageNo, reviews, maxReviews, productName)
    requires |reviews| < maxReviews
    requires pageNo > |responses| || !responses[pageNo - 1].Items? || |responses[pageNo - 1].items| == 0
    ensures Outcome(responses, maxReviews, productName, Crawl(responses, pageNo, reviews, maxReviews, productName))
    ensures Crawl(responses, pageNo, reviews, maxReviews, productName).1 == pageNo
  {
    ReachableEnd(responses, pageNo - 1, PagesItems(responses, pageNo - 1));
  }

  /** A page that fails or is short ends the crawl with the harvest's records. */
  lemma CrawlEndsAtPage(responses: seq<Resp>, pageNo: nat, reviews: seq<Review>, maxReviews: int, productName: string)
    requires Midway(responses, pageNo, reviews, maxReviews, productName)
    requires |reviews| < maxReviews
    requires pageNo <= |responses| && responses[pageNo - 1].Items? && |responses[pageNo - 1].items| > 0
    requires var items := responses[pageNo - 1].items;
      PageFails(items, productName, maxReviews, reviews) || |items| < PageSize
    ensures Outcome(responses, maxReviews, productName, Crawl(responses, pageNo, reviews, maxReviews, productName))
    ensures Crawl(responses, pageNo, reviews, maxReviews, productName).1 == pageNo
  {
    var done := PagesItems(responses, pageNo - 1);
    var items := responses[pageNo - 1].items;
    assert reviews == NormalizeItems(done, productName);
    AfterPage(responses, pageNo - 1, done, productName);
    PageFailsMeaning(items, productName, maxReviews, reviews);
    CrawlAfterPage(responses, pageNo, reviews, maxReviews, productName);
  }

  /** A full page that does not fail leaves the crawl midway, one page further on. */
  lemma CrawlPassesPage(responses: seq<Resp>, pageNo: nat, reviews: seq<Review>, maxReviews: int, productName: string)
    requires Midway(responses, pageNo, reviews, maxReviews, productName)
    requires |reviews| < maxReviews
    requires pageNo <= |responses| && responses[pageNo - 1].Items? && |responses[pageNo - 1].items| > 0
    requires var items := responses[pageNo - 1].items;
      !PageFails(items, productName, maxReviews, reviews) && |items| >= PageSize
    ensures var items := responses[pageNo - 1].items;
      Midway(responses, pageNo + 1, Take(reviews + NormalizeItems(items, productName), maxReviews), maxReviews, productName)
  {
    var done := PagesItems(responses, pageNo - 1);
    var items := responses[pageNo - 1].items;
    assert reviews == NormalizeItems(done, productName);
    AfterPage(responses, pageNo - 1, done, productName);
    PageFailsMeaning(items, productName, maxReviews, reviews);
    assert PagesItems(responses, pageNo) == done + items;
  }

  /** The crawl from page 1 yields the harvest's records, which the final
      slice leaves alone, and the requests `Paged` describes. */
  lemma CrawlOutcome(responses: seq<Resp>, maxReviews: int, productName: string, itemId: string,
                     reviews: seq<Review>, requests: seq<Request>)
    requires (reviews, |requests|) == Crawl(responses, 1, [], maxReviews, productName)
    requires forall k :: 0 <= k < |requests| ==> requests[k] == Request(itemId, k + 1)
    ensures reviews == HarvestResult(responses, maxReviews, productName)
    ensures SlicePrefix(reviews, maxReviews) == reviews
    ensures Paged(requests, itemId, maxReviews, productName, responses)
  {
    CrawlStart(responses, maxReviews, productName);
    CrawlMeaning(responses, 1, [], maxReviews, productName);
    assert Outcome(responses, maxReviews, productName, (reviews, |requests|));
  }

  /** `Paged` leaves no freedom: for given answers, cap and product name,
      exactly one sequence of requests satisfies it. */
  lemma PagedDetermined(requests1: seq<Request>, requests2: seq<Request>, itemId: string,
                        maxReviews: int, productName: string, responses: seq<Resp>)
    requires Paged(requests1, itemId, maxReviews, productName, responses)
    requires Paged(requests2, itemId, maxReviews, productName, responses)
    ensures requests1 == requests2
  {
    if |requests1| < |requests2| {
      PagedNotShorter(requests1, requests2, itemId, maxReviews, productName, responses);
    } else if |requests2| < |requests1| {
      PagedNotShorter(requests2, requests1, itemId, maxReviews, productName, responses);
    }
  }

  /** A `Paged` trace cannot stop before another one does: the page where
      it stops would have let the loop go on. */
  lemma PagedNotShorter(short: seq<Request>, long: seq<Request>, itemId: string,
                        maxReviews: int, productName: string, responses: seq<Resp>)
    requires Paged(short, itemId, maxReviews, productName, responses)
    requires Paged(long, itemId, maxReviews, productName, responses)
    ensures |long| <= |short|
  {
    var m, n := |short|, |long|;
    if 0 < m < n {
      assert m - 1 < |responses| && FullPage(responses[m - 1]);
      PagesGrow(responses, m, n - 1, productName);
      assert false;
    }
  }

  /** Pages a prefix of readable pages: they are readable themselves, each
      of them is, and they yield no more records. */
  lemma {:induction false} PagesGrow(responses: seq<Resp>, a: nat, b: nat, productName: string)
    requires a <= b <= |responses| && Readable(PagesItems(responses, b))
    ensures Readable(PagesItems(responses, a))
    ensures |NormalizeItems(PagesItems(responses, a), productName)| <= |NormalizeItems(PagesItems(responses, b), productName)|
    ensures a > 0 && responses[a - 1].Items? ==> Readable(responses[a - 1].items)
    decreases b - a
  {
    if a < b {
      PagesStep(responses, b, productName);
      PagesGrow(responses, a, b - 1, productName);
    } else if a > 0 {
      PagesStep(responses, a, productName);
    }
  }

  /** The last of b readable pages: the pages before it are readable, yield
      no more records, and the page itself is readable. */
  lemma PagesStep(responses: seq<Resp>, b: nat, productName: string)
    requires 0 < b <= |responses| && Readable(PagesItems(responses, b))
    ensures Readable(PagesItems(responses, b - 1))
    ensures |NormalizeItems(PagesItems(responses, b - 1), productName)| <= |NormalizeItems(PagesItems(responses, b), productName)|
    ensures responses[b - 1].Items? ==> Readable(responses[b - 1].items)
  {
    var done := PagesItems(responses, b - 1);
    var page := if responses[b - 1].Items? then responses[b - 1].items else [];
    assert PagesItems(responses, b) == done + page;
    forall k | 0 <= k < |done|
      ensures done[k].Entry?
    {
      assert (done + page)[k] == done[k];
    }
    forall k | 0 <= k < |page|
      ensures page[k].Entry?
    {
      assert (done + page)[|done| + k] == page[k];
    }
    NormalizeAppend(done, page, productName);
  }

  /** Before the first request the loop is midway through an empty crawl. */
  lemma CrawlStart(responses: seq<Resp>, maxReviews: int, productName: string)
    ensures Midway(responses, 1, [], maxReviews, productName)
  {
    assert responses[0..] == responses;
    assert PagesItems(responses, 0) + ReachableItems(responses) == ReachableItems(responses);
  }

  /** Whether a page fails, in terms of its items: only a page with an
      unreadable item fails, and a page that does not fail while the records
      stay below the cap is readable throughout. */
  lemma PageFailsMeaning(items: seq<RawItem>, productName: string, maxReviews: int, reviews0: seq<Review>)
    requires |reviews0| < maxReviews
    ensures PageFails(items, productName, maxReviews, reviews0) ==> !Readable(items)
    ensures !PageFails(items, productName, maxReviews, reviews0) && |reviews0| + |NormalizeItems(items, productName)| < maxReviews
            ==> Readable(items)
  {
    var j := FirstUnreadable(items);
    FirstUnreadableSpec(items);
    if j < |items| {
      assert items == items[..j] + items[j..];
      assert items[j..][0] == items[j];
      NormalizeCut(items[..j] + items[j..], j, [], productName);
      assert items[..j] + items[j..] + [] == items;
      NormalizeAppend(items[..j], items[j..], productName);
    }
  }

  /** The first unreadable item, if any, follows a readable prefix. */
  lemma {:induction false} FirstUnreadableSpec(items: seq<RawItem>)
    ensures FirstUnreadable(items) <= |items|
    ensures Readable(items[..FirstUnreadable(items)])
    ensures FirstUnreadable(items) < |items| ==> items[FirstUnreadable(items)].Unreadable?
    ensures Readable(items) <==> FirstUnreadable(items) == |items|
  {
    if |items| > 0 && items[0].Entry? {
      FirstUnreadableSpec(items[1..]);
      var j := FirstUnreadable(items[1..]);
      assert items[..j + 1] == [items[0]] + items[1..][..j];
      assert items[1..][j..] == items[j + 1..];
      if Readable(items) {
        ReadableTail(items);
      }
    }
  }

  /** Pagination stops at a page past the answers, without items, or empty. */
  lemma ReachableEnd(responses: seq<Resp>, k: nat, done: seq<RawItem>)
    requires k <= |responses|
    requires k < |responses| ==> !responses[k].Items? || |responses[k].items| == 0
    ensures done + ReachableItems(responses[k..]) == done
  {
    if k < |responses| {
      assert responses[k..][0] == responses[k];
    }
    assert ReachableItems(responses[k..]) == [];
  }

  /** What one page of items adds: its records follow those of the pages before,
      and pagination goes on past it only when it is full. */
  lemma AfterPage(responses: seq<Resp>, k: nat, done: seq<RawItem>, productName: string)
    requires k < |responses| && responses[k].Items? && |responses[k].items| > 0
    requires ReachableItems(responses) == done + ReachableItems(responses[k..])
    requires Readable(done)
    ensures var items := responses[k].items;
      && NormalizeItems(done + items, productName) == NormalizeItems(done, productName) + NormalizeItems(items, productName)
      && (Readable(items) ==> Readable(done + items))
      && (|items| >= PageSize ==> ReachableItems(responses) == done + items + ReachableItems(responses[k + 1..]))
      && (|items| < PageSize ==> ReachableItems(responses) == done + items)
      && (!Readable(items) ==> NormalizeItems(ReachableItems(responses), productName) == NormalizeItems(done + items, productName))
  {
    var items := responses[k].items;
    ReachableStep(responses, k);
    NormalizeAppend(done, items, productName);
    SeqAssoc(done, items, ReachableItems(responses[k + 1..]));
    if |items| < PageSize {
      assert items + [] == items;
    }
    if Readable(items) {
      forall j | 0 <= j < |done + items|
        ensures (done + items)[j].Entry?
      {
        if j < |done| { assert (done + items)[j] == done[j]; } else { assert (done + items)[j] == items[j - |done|]; }
      }
    } else {
      FailedPageEndsHarvest(done, items, if |items| < PageSize then [] else ReachableItems(responses[k + 1..]), productName);
      assert done + items + [] == done + items;
    }
  }

  /** After n full pages, pagination has handed out exactly their items and goes on from page n + 1. */
  lemma {:induction false} ReachablePrefix(responses: seq<Resp>, n: nat)
    requires n <= |responses|
    requires forall k :: 0 <= k < n ==> FullPage(responses[k])
    ensures ReachableItems(responses) == PagesItems(responses, n) + ReachableItems(responses[n..])
  {
    if n == 0 {
      assert responses[0..] == responses;
    } else {
      ReachablePrefix(responses, n - 1);
      ReachableStep(responses, n - 1);
      SeqAssoc(PagesItems(responses, n - 1), responses[n - 1].items, ReachableItems(responses[n..]));
    }
  }

  /** A request that fails, or a page that is malformed or empty, after n full
      pages: the harvest is exactly what those n pages produced. */
  lemma BadPageEndsHarvest(responses: seq<Resp>, n: nat, maxReviews: int, productName: string)
    requires n <= |responses|
    requires forall k :: 0 <= k < n ==> FullPage(responses[k])
    requires n < |responses| ==> !responses[n].Items? || |responses[n].items| == 0
    ensures HarvestResult(responses, maxReviews, productName)
            == Take(NormalizeItems(PagesItems(responses, n), productName), maxReviews)
  {
    ReachablePrefix(responses, n);
    ReachableEnd(responses, n, PagesItems(responses, n));
  }

  /** An unreadable review at position j of page n + 1, after n full pages of
      readable reviews: the harvest keeps the records of those pages and of the
      reviews of page n + 1 before position j, and nothing after. */
  lemma UnreadableEndsHarvest(responses: seq<Resp>, n: nat, j: nat, maxReviews: int, productName: string)
    requires n < |responses|
    requires forall k :: 0 <= k < n ==> FullPage(responses[k])
    requires Readable(PagesItems(responses, n))
    requires responses[n].Items? && j < |responses[n].items| && responses[n].items[j].Unreadable?
    requires Readable(responses[n].items[..j])
    ensures HarvestResult(responses, maxReviews, productName)
            == Take(NormalizeItems(PagesItems(responses, n), productName)
                    + NormalizeItems(responses[n].items[..j], productName), maxReviews)
  {
    var done := PagesItems(responses, n);
    var items := responses[n].items;
    var rest := if |items| < PageSize then [] else ReachableItems(responses[n + 1..]);
    ReachablePrefix(responses, n);
    ReachableStep(responses, n);
    assert ReachableItems(responses) == done + (items + rest);
    NormalizeAppend(done, items + rest, productName);
    PageCut(items, j, rest, productName);
  }

  /** A stream whose item j is unreadable, after readable ones, yields the
      records of the items before j, whatever follows. */
  lemma PageCut(items: seq<RawItem>, j: nat, rest: seq<RawItem>, productName: string)
    requires j < |items| && items[j].Unreadable? && Readable(items[..j])
    ensures NormalizeItems(items + rest, productName) == NormalizeItems(items[..j], productName)
  {
    NormalizeCut(items, j, rest, productName);
    assert items == items[..j] + items[j..];
    NormalizeAppend(items[..j], items[j..], productName);
    assert items[j..][0] == items[j];
  }

  lemma ReachableStep(responses: seq<Resp>, k: nat)
    requires k < |responses| && responses[k].Items? && |responses[k].items| > 0
    ensures ReachableItems(responses[k..]) ==
      responses[k].items + (if |responses[k].items| < PageSize then [] else ReachableItems(responses[k + 1..]))
  {
    assert responses[k..][1..] == responses[k + 1..];
  }

  /** The first unreadable item is the one after a readable prefix. */
  lemma {:induction false} FirstUnreadableAt(items: seq<RawItem>, i: nat)
    requires i <= |items| && Readable(items[..i])
    ensures i <= FirstUnreadable(items)
    ensures i == |items| || items[i].Unreadable? ==> FirstUnreadable(items) == i
    decreases i
  {
    if i > 0 {
      assert items[..i][0] == items[0];
      assert items[1..][..i - 1] == items[..i][1..];
      ReadableTail(items[..i]);
      FirstUnreadableAt(items[1..], i - 1);
    } else if |items| > 0 && !items[0].Unreadable? {
      assert FirstUnreadable(items) == 1 + FirstUnreadable(items[1..]);
    }
  }

  /** What is left of a page after the cap, or after its first unreadable item. */
  lemma PageOutcome(items: seq<RawItem>, productName: string, maxReviews: int,
                    reviews0: seq<Review>, i: int, failed: bool)
    requires 0 <= i <= |items| && Readable(items[..i])
    requires |reviews0| < maxReviews
    requires |reviews0| + |NormalizeItems(items[..i], productName)| <= maxReviews
    requires failed ==> i < |items| && items[i].Unreadable?
                        && |reviews0| + |NormalizeItems(items[..i], productName)| < maxReviews
    requires !failed ==> i == |items| || |reviews0| + |NormalizeItems(items[..i], productName)| >= maxReviews
    ensures Take(reviews0 + NormalizeItems(items, productName), maxReviews)
            == reviews0 + NormalizeItems(items[..i], productName)
    ensures failed <==> PageFails(items, productName, maxReviews, reviews0)
  {
    assert items == items[..i] + items[i..];
    NormalizeAppend(items[..i], items[i..], productName);
    FirstUnreadableAt(items, i);
    if failed {
      assert items[i..][0] == items[i];
      assert NormalizeItems(items[i..], productName) == [];
    } else if i < |items| {
      var j := FirstUnreadable(items);
      if j < |items| {
        assert items[..j] == items[..i] + items[i..j];
        NormalizeAppend(items[..i], items[i..j], productName);
      }
    } else {
      assert items[..i] == items;
    }
  }
}

/**
 * `extract_item_id_from_url` of backend/app/scraper.py, with its two regular
 * expressions written out as scanners:
 *   primary   `-i(\d+)`                  first "-i" followed by a digit; the greedy digit run;
 *   fallback  `/products/.*?(\d{9,})`    after the first "/products/" from which a run of at
 *                                        least nine digits can be reached, the first such run
 *                                        (`.` matches anything but a newline).
 */
module ItemId {
  import opened Options

  predicate IsDigit(c: char)
  {
    '0' <= c <= '9'
  }

  ghost predicate AllDigits(s: string)
  {
    forall i :: 0 <= i < |s| ==> IsDigit(s[i])
  }

  /** Length of the maximal run of digits of s that starts at index i. */
  function DigitRun(s: string, i: nat): (n: nat)
    requires i <= |s|
    ensures i + n <= |s|
    ensures forall k :: i <= k < i + n ==> IsDigit(s[k])
    ensures i + n < |s| ==> !IsDigit(s[i + n])
    decreases |s| - i
  {
    if i < |s| && IsDigit(s[i]) then 1 + DigitRun(s, i + 1) else 0
  }

  // ---------------------------------------------------------------------
  // Primary pattern `-i(\d+)`

  /** `-i(\d+)` matches when started at index p. */
  predicate PrimaryAt(s: string, p: nat)
  {
    p + 2 < |s| && s[p] == '-' && s[p + 1] == 'i' && IsDigit(s[p + 2])
  }

  /** The first index at or after `from` where the primary pattern matches. */
  function FindPrimary(s: string, from: nat): (r: Option<nat>)
    ensures r.Some? ==> from <= r.value && PrimaryAt(s, r.value)
    ensures r.Some? ==> forall p: nat :: from <= p < r.value ==> !PrimaryAt(s, p)
    ensures r.None? ==> forall p: nat :: from <= p ==> !PrimaryAt(s, p)
    decreases |s| - from
  {
    if from + 2 >= |s| then None
    else if PrimaryAt(s, from) then Some(from)
    else FindPrimary(s, from + 1)
  }

  /** id is group 1 of `re.search(r'-i(\d+)', s)`, the search having matched at p. */
  ghost predicate PrimaryCapture(s: string, p: nat, id: string)
  {
    && PrimaryAt(s, p)
    && (forall q: nat :: q < p ==> !PrimaryAt(s, q))
    && p + 2 + |id| <= |s|
    && id == s[p + 2 .. p + 2 + |id|]
    && AllDigits(id)
    && (p + 2 + |id| < |s| ==> !IsDigit(s[p + 2 + |id|]))
  }

  function MatchPrimary(url: string): (r: Option<string>)
    ensures r.None? <==> forall p: nat :: !PrimaryAt(url, p)
    ensures r.Some? ==> exists p: nat :: PrimaryCapture(url, p, r.value)
  {
    match FindPrimary(url, 0)
    case None => None
    case Some(p) =>
      var id := url[p + 2 .. p + 2 + DigitRun(url, p + 2)];
      assert PrimaryCapture(url, p, id);
      Some(id)
  }

  // ---------------------------------------------------------------------
  // Fallback pattern `/products/.*?(\d{9,})`

  const ProductsPath := "/products/"

  predicate PathAt(s: string, p: nat)
  {
    p + |ProductsPath| <= |s| && s[p .. p + |ProductsPath|] == ProductsPath
  }

  /** The end of the line index q is on (the next newline, or the end of s):
      `.` does not match a newline. */
  function LineEnd(s: string, q: nat): (e: nat)
    requires q <= |s|
    ensures q <= e <= |s|
    ensures forall j :: q <= j < e ==> s[j] != '\n'
    ensures e < |s| ==> s[e] == '\n'
    decreases |s| - q
  {
    if q == |s| || s[q] == '\n' then q else LineEnd(s, q + 1)
  }

  /** Started at p, the pattern's `/products/.*?` can stretch up to index q. */
  ghost predicate LazyReach(s: string, p: nat, q: nat)
  {
    PathAt(s, p) && p + |ProductsPath| <= q <= LineEnd(s, p + |ProductsPath|)
  }

  /** Started at p, the pattern can complete with its digit group beginning at q. */
  ghost predicate FallbackHit(s: string, p: nat, q: nat)
  {
    LazyReach(s, p, q) && DigitRun(s, q) >= 9
  }

  /** The lazy `.*?` scan: the first reachable index from q where nine digits start. */
  function ScanLongRun(s: string, q: nat): (r: Option<nat>)
    requires q <= |s|
    ensures r.Some? ==> q <= r.value <= LineEnd(s, q) && DigitRun(s, r.value) >= 9
    ensures r.Some? ==> forall j :: q <= j < r.value ==> DigitRun(s, j) < 9
    ensures r.None? ==> forall k: nat :: q <= k <= LineEnd(s, q) ==> DigitRun(s, k) < 9
    decreases |s| - q
  {
    if DigitRun(s, q) >= 9 then Some(q)
    else if q == |s| || s[q] == '\n' then None
    else ScanLongRun(s, q + 1)
  }

  /** The first path occurrence at or after `from` from which the fallback completes,
      with the index where its digit group starts. */
  function FindFallback(s: string, from: nat): (r: Option<(nat, nat)>)
    ensures r.Some? ==> from <= r.value.0 && FallbackHit(s, r.value.0, r.value.1)
    ensures r.Some? ==> forall k :: r.value.0 + |ProductsPath| <= k < r.value.1 ==> DigitRun(s, k) < 9
    ensures r.Some? ==> forall p: nat, q: nat :: from <= p < r.value.0 ==> !FallbackHit(s, p, q)
    ensures r.None? ==> forall p: nat, q: nat :: from <= p ==> !FallbackHit(s, p, q)
    decreases |s| - from
  {
    if from + |ProductsPath| > |s| then None
    else
      var scan := ScanLongRun(s, from + |ProductsPath|);
      if PathAt(s, from) && scan.Some? then Some((from, scan.value))
      else FindFallback(s, from + 1)
  }

  /** id is group 1 of `re.search(r'/products/.*?(\d{9,})', s)`: the search matched at p
      and the lazy `.*?` stopped at q. */
  ghost predicate FallbackCapture(s: string, p: nat, q: nat, id: string)
  {
    && FallbackHit(s, p, q)
    && (forall k :: p + |ProductsPath| <= k < q ==> DigitRun(s, k) < 9)
    && (forall p': nat, q': nat :: p' < p ==> !FallbackHit(s, p', q'))
    && id == s[q .. q + DigitRun(s, q)]
  }

  /** Group 1 of the fallback search, if the search matches. */
  function MatchFallback(url: string): (r: Option<string>)
  {
    match FindFallback(url, 0)
    case None => None
    case Some((p, q)) => Some(url[q .. q + DigitRun(url, q)])
  }

  /** The fallback search fails exactly when the pattern occurs nowhere, and
      otherwise returns its group 1. */
  lemma MatchFallbackMeaning(url: string)
    ensures MatchFallback(url).None? <==> forall p: nat, q: nat :: !FallbackHit(url, p, q)
    ensures MatchFallback(url).Some? ==>
      exists p: nat, q: nat :: FallbackCapture(url, p, q, MatchFallback(url).value)
  {
    if FindFallback(url, 0).Some? {
      var (p, q) := FindFallback(url, 0).value;
      assert FallbackHit(url, p, q);
      assert FallbackCapture(url, p, q, MatchFallback(url).value) by {
        assert forall p': nat, q': nat :: p' < p ==> !FallbackHit(url, p', q');
      }
    }
  }

  // ---------------------------------------------------------------------
  // extract_item_id_from_url

  /** What the function may return for url: the primary capture, or, when the
      primary pattern occurs nowhere, the fallback capture. */
  ghost predicate ItemIdOf(url: string, id: string)
  {
    || (exists p: nat :: PrimaryCapture(url, p, id))
    || ((forall p: nat :: !PrimaryAt(url, p)) && exists p: nat, q: nat :: FallbackCapture(url, p, q, id))
  }

  function ExtractItemId(url: string): (r: Option<string>)
    ensures r.Some? ==> ItemIdOf(url, r.value)
    ensures r.Some? ==> |r.value| > 0 && AllDigits(r.value)
    ensures r.Some? && (forall p: nat :: !PrimaryAt(url, p)) ==> |r.value| >= 9
    ensures r.None? <==>
      (forall p: nat :: !PrimaryAt(url, p)) && (forall p: nat, q: nat :: !FallbackHit(url, p, q))
  {
    MatchFallbackMeaning(url);
    var r := match MatchPrimary(url) case Some(id) => Some(id) case None => MatchFallback(url);
    if r.Some? then ItemIdOfShape(url, r.value); r else r
  }

  // ---------------------------------------------------------------------
  // Lemmas

  /** An item id is a non-empty run of digits, and one found by the fallback has
      at least nine of them. */
  lemma ItemIdOfShape(url: string, id: string)
    requires ItemIdOf(url, id)
    ensures |id| > 0 && AllDigits(id)
    ensures (forall p: nat :: !PrimaryAt(url, p)) ==> |id| >= 9
  {
    if p: nat :| PrimaryCapture(url, p, id) {
      assert PrimaryAt(url, p);
    } else {
      var p: nat, q: nat :| FallbackCapture(url, p, q, id);
      var n := DigitRun(url, q);
      assert |id| == n >= 9;
      forall i | 0 <= i < |id|
        ensures IsDigit(id[i])
      {
        assert id[i] == url[q + i];
      }
    }
  }

  /** Whatever the primary capture is, MatchPrimary returns exactly it. */
  lemma PrimaryCaptureUnique(url: string, p: nat, id: string)
    requires PrimaryCapture(url, p, id)
    ensures MatchPrimary(url) == Some(id)
  {
    var r := FindPrimary(url, 0);
    assert r.Some?;
    assert r.value == p;
    assert forall k :: 0 <= k < |id| ==> url[p + 2 + k] == id[k];
    assert DigitRun(url, p + 2) == |id|;
  }

  /** The fallback search stops at the occurrence the capture names... */
  lemma FindFallbackStart(url: string, p: nat, q: nat, id: string)
    requires FallbackCapture(url, p, q, id)
    ensures FindFallback(url, 0).Some? && FindFallback(url, 0).value.0 == p
  {
    var r := FindFallback(url, 0);
    assert r.Some? by { assert FallbackHit(url, p, q); }
    assert FallbackHit(url, r.value.0, r.value.1);
  }

  /** ... and at the digit group the capture names. */
  lemma FindFallbackStops(url: string, p: nat, q: nat, id: string)
    requires FallbackCapture(url, p, q, id)
    ensures FindFallback(url, 0) == Some((p, q))
  {
    FindFallbackStart(url, p, q, id);
    var q' := FindFallback(url, 0).value.1;
    assert DigitRun(url, q) >= 9 && DigitRun(url, q') >= 9;
  }

  /** Whatever the fallback capture is, MatchFallback returns exactly it. */
  lemma FallbackCaptureUnique(url: string, p: nat, q: nat, id: string)
    requires FallbackCapture(url, p, q, id)
    ensures MatchFallback(url) == Some(id)
  {
    FindFallbackStops(url, p, q, id);
  }

  /** extract_item_id_from_url is determined: it returns exactly the id ItemIdOf allows. */
  lemma ItemIdOfDetermines(url: string, id: string)
    requires ItemIdOf(url, id)
    ensures ExtractItemId(url) == Some(id)
  {
    if p: nat :| PrimaryCapture(url, p, id) {
      PrimaryCaptureUnique(url, p, id);
    } else {
      var p: nat, q: nat :| FallbackCapture(url, p, q, id);
      FallbackCaptureUnique(url, p, q, id);
    }
  }

  /** The demonstration URL of backend/app/scraper.py, in pieces: the site and
      path, the two halves of the product slug, the item marker, the item id and
      the SKU part. */
  const DemoUrl := "https://www.daraz.pk/products/" + "brite-maximum-power-500g-" + "detergent-washing-powder"
                   + "-i" + "216038129" + "-s1425644897.html"

  /** No "-i" pair anywhere in s. */
  ghost predicate NoDashI(s: string)
  {
    forall i :: 0 <= i < |s| - 1 ==> s[i] != '-' || s[i + 1] != 'i'
  }

  lemma NoDashIAppend(a: string, b: string)
    requires NoDashI(a) && NoDashI(b)
    requires |a| > 0 && |b| > 0 && (a[|a| - 1] != '-' || b[0] != 'i')
    ensures NoDashI(a + b)
  {
    forall i | 0 <= i < |a + b| - 1
      ensures (a + b)[i] != '-' || (a + b)[i + 1] != 'i'
    {
      if i >= |a| {
        assert (a + b)[i] == b[i - |a|] && (a + b)[i + 1] == b[i + 1 - |a|];
      } else if i == |a| - 1 {
        assert (a + b)[i + 1] == b[0];
      }
    }
  }

  /** Without a "-i" pair in a, the primary pattern cannot start inside a. */
  lemma NoPrimaryBefore(a: string, b: string)
    requires NoDashI(a)
    requires |a| > 0 && |b| > 0 && (a[|a| - 1] != '-' || b[0] != 'i')
    ensures forall q: nat :: q < |a| ==> !PrimaryAt(a + b, q)
  {
    forall q: nat | q < |a|
      ensures !PrimaryAt(a + b, q)
    {
      if q < |a| - 1 {
        assert (a + b)[q + 1] == a[q + 1];
      } else {
        assert (a + b)[q + 1] == b[0];
      }
    }
  }

  /** The primary pattern does not occur in the first 79 characters of the
      demonstration URL. */
  lemma DemoUrlNoEarlierMatch()
    ensures forall q: nat :: q < 79 ==> !PrimaryAt(DemoUrl, q)
  {
    var a, b1, b2 := "https://www.daraz.pk/products/", "brite-maximum-power-500g-", "detergent-washing-powder";
    var c := "-i" + "216038129" + "-s1425644897.html";
    assert NoDashI(a) && NoDashI(b1) && NoDashI(b2);
    NoDashIAppend(a, b1);
    NoDashIAppend(a + b1, b2);
    NoPrimaryBefore(a + b1 + b2, c);
    assert DemoUrl == a + b1 + b2 + c;
  }

  /** The demonstration URL of backend/app/scraper.py yields item id 216038129. */
  lemma DemoUrlItemId()
    ensures ExtractItemId(DemoUrl) == Some("216038129")
  {
    var prefix := "https://www.daraz.pk/products/" + "brite-maximum-power-500g-" + "detergent-washing-powder" + "-i";
    var id, tail := "216038129", "-s1425644897.html";
    assert DemoUrl == prefix + id + tail;
    assert |prefix| == 81;
    assert DemoUrl[81 .. 90] == id;
    assert DemoUrl[79] == '-' && DemoUrl[80] == 'i';
    assert DemoUrl[90] == tail[0];
    DemoUrlNoEarlierMatch();
    assert PrimaryCapture(DemoUrl, 79, id);
    PrimaryCaptureUnique(DemoUrl, 79, id);
  }
}

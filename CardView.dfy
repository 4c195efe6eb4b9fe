/** The view logic of the result card (`GeneratedCard`): the theme-colour
    test and its fallback, and the card's own state, namely the details
    toggle and the circular pagination over the detailed analysis. */
module CardView {
  import opened Wrappers
  import opened Json
  import GeminiService

  /** The accent used when the theme colour is not a hex colour. */
  const DefaultAccent: string := "#A855F7"

  // ---------------------------------------------------------------------------
  // Theme colour

  /** `[0-9A-F]` under the case-insensitive flag. */
  predicate IsHexDigit(c: char) {
    ('0' <= c <= '9') || ('a' <= c <= 'f') || ('A' <= c <= 'F')
  }

  /** `t` is exactly `count` repetitions of the group `[0-9A-F]{3}`. */
  predicate HexTriples(t: string, count: nat)
    decreases count
  {
    if count == 0 then t == []
    else
      && |t| >= 3
      && IsHexDigit(t[0]) && IsHexDigit(t[1]) && IsHexDigit(t[2])
      && HexTriples(t[3..], count - 1)
  }

  /** `/^#([0-9A-F]{3}){1,2}$/i.test(s)`: a `#`, then one or two groups of
      three hex digits, and nothing after them. */
  predicate IsValidColor(s: string) {
    |s| >= 1 && s[0] == '#' && (HexTriples(s[1..], 1) || HexTriples(s[1..], 2))
  }

  lemma {:induction false} HexTriplesExactly(t: string, count: nat)
    ensures HexTriples(t, count) <==>
      |t| == 3 * count && forall i :: 0 <= i < |t| ==> IsHexDigit(t[i])
  {
    if count > 0 && |t| >= 3 {
      HexTriplesExactly(t[3..], count - 1);
      if forall i :: 0 <= i < |t[3..]| ==> IsHexDigit(t[3..][i]) {
        assert forall i :: 3 <= i < |t| ==> IsHexDigit(t[i]) by {
          forall i | 3 <= i < |t| ensures IsHexDigit(t[i]) {
            assert t[i] == t[3..][i - 3];
          }
        }
      }
    }
  }

  /** The colour test accepts exactly the strings of length 4 or 7 that start
      with `#` and continue with hex digits of either case. */
  lemma ValidColorExactly(s: string)
    ensures IsValidColor(s) <==>
      && (|s| == 4 || |s| == 7)
      && s[0] == '#'
      && forall i :: 1 <= i < |s| ==> IsHexDigit(s[i])
  {
    if |s| >= 1 {
      HexTriplesExactly(s[1..], 1);
      HexTriplesExactly(s[1..], 2);
      assert forall i :: 1 <= i < |s| ==> s[i] == s[1..][i - 1];
    }
  }

  /** The card's border colour (lines 20-22): the theme colour when it passes
      the test, the default accent otherwise. Either way it is a hex colour. */
  function BorderColor(themeColor: Option<JsonValue>): (r: string)
    ensures IsValidColor(r)
    ensures r == DefaultAccent || themeColor == Some(Str(r))
    ensures themeColor.Some? && themeColor.value.Str? && IsValidColor(themeColor.value.s) ==>
      r == themeColor.value.s
  {
    assert IsValidColor(DefaultAccent) by {
      assert DefaultAccent[1..][3..][3..] == [];
    }
    match themeColor
    case Some(Str(s)) => if IsValidColor(s) then s else DefaultAccent
    case _ => DefaultAccent
  }

  /** A theme colour that is not a colour falls back to the accent, and a
      valid one is used as it is. */
  lemma BorderColorExamples()
    ensures BorderColor(Some(Str("not-a-color"))) == DefaultAccent
    ensures BorderColor(Some(Str("#4A90E2"))) == "#4A90E2"
    ensures BorderColor(Some(Str("#abc"))) == "#abc"
  {
    assert !IsValidColor("not-a-color");
    assert "#4A90E2"[1..][3..][3..] == [];
    assert "#abc"[1..][3..] == [];
  }

  // ---------------------------------------------------------------------------
  // Pagination

  /** JavaScript's `%` for a positive divisor: the remainder of truncating
      division, which takes the sign of the dividend. It agrees with Dafny's
      (Euclidean) `%` on dividends that are not negative. */
  function JsRemainder(a: int, n: int): (r: int)
    requires n > 0
    ensures -n < r < n
    ensures a <= 0 ==> r <= 0
    ensures a >= 0 ==> r == a % n
  {
    if a >= 0 then a % n else -((-a) % n)
  }

  /** `handleNextPage` (line 25). On a page in range it moves one page on,
      wrapping from the last page to the first. */
  function NextPageIndex(p: int, n: int): (r: int)
    requires n > 0
    ensures 0 <= p < n ==> 0 <= r < n && r == if p == n - 1 then 0 else p + 1
  {
    JsRemainder(p + 1, n)
  }

  /** `handlePrevPage` (line 29). On a page in range it moves one page back,
      wrapping from the first page to the last. */
  function PrevPageIndex(p: int, n: int): (r: int)
    requires n > 0
    ensures 0 <= p < n ==> 0 <= r < n && r == if p == 0 then n - 1 else p - 1
  {
    JsRemainder(p - 1 + n, n)
  }

  /** Next and previous undo each other. */
  lemma NextPrevInverse(p: int, n: int)
    requires 0 <= p < n
    ensures PrevPageIndex(NextPageIndex(p, n), n) == p
    ensures NextPageIndex(PrevPageIndex(p, n), n) == p
  {
  }

  /** The page reached by pressing "next" `k` times. */
  function NextTimes(p: int, n: int, k: nat): (r: int)
    requires n > 0
  {
    if k == 0 then p else NextPageIndex(NextTimes(p, n, k - 1), n)
  }

  /** Pressing "next" `k <= n` times from page `p` moves `k` pages on,
      wrapping past the last page back to the first. */
  lemma {:induction false} NextTimesWraps(p: int, n: int, k: nat)
    requires 0 <= p < n && k <= n
    ensures NextTimes(p, n, k) == if p + k < n then p + k else p + k - n
  {
    if k > 0 {
      NextTimesWraps(p, n, k - 1);
    }
  }

  /** Pressing "next" once per page brings the card back to the page it
      started on: the pages form a cycle. */
  lemma FullCycle(p: int, n: int)
    requires 0 <= p < n
    ensures NextTimes(p, n, n) == p
  {
    NextTimesWraps(p, n, n);
  }

  /** With three analysis pages, "previous" on the first page shows the third
      and "next" on the third shows the first. */
  lemma ThreePageWrap()
    ensures PrevPageIndex(0, 3) == 2
    ensures NextPageIndex(2, 3) == 0
  {
  }

  /** The analysis pages of the card data: its `detailedAnalysis` array. */
  function AnalysisPages(data: JsonValue): seq<JsonValue>
    requires !data.Null?
  {
    match Member(data, "detailedAnalysis")
    case Some(Arr(items)) => items
    case _ => []
  }

  /** A value the service returned has at least three analysis pages, so its
      card always shows the analysis section. */
  lemma AcceptedCardHasPages(data: JsonValue)
    requires GeminiService.Accepts(data)
    ensures |AnalysisPages(data)| >= 3
  {
  }

  // ---------------------------------------------------------------------------
  // Card state

  /** One rendered card: the data it shows, and its local view state. */
  class GeneratedCard {
    const data: JsonValue
    const pages: seq<JsonValue>
    var detailsVisible: bool
    var currentPage: int

    /** The page index stays in range; it is 0 when there are no pages. */
    ghost predicate Valid()
      reads this
    {
      && !data.Null?
      && pages == AnalysisPages(data)
      && 0 <= currentPage
      && (currentPage < |pages| || currentPage == 0)
    }

    /** A new card shows its first page with the details hidden (lines 15-16). */
    constructor (data: JsonValue)
      requires !data.Null?
      ensures Valid()
      ensures this.data == data
      ensures !detailsVisible && currentPage == 0
    {
      this.data := data;
      this.pages := AnalysisPages(data);
      detailsVisible := false;
      currentPage := 0;
    }

    /** Line 67: the analysis section, with the toggle and the page
        controls, is rendered only when there is at least one page. */
    predicate ShowsAnalysis()
      reads this
    {
      |pages| > 0
    }

    /** The card's border colour. */
    function Border(): (r: string)
      reads this
      requires Valid()
      ensures IsValidColor(r)
    {
      BorderColor(Member(data, "themeColor"))
    }

    /** The analysis text on display (line 85): an entry of the analysis. */
    function CurrentAnalysis(): (r: JsonValue)
      reads this
      requires Valid() && ShowsAnalysis()
      ensures r in pages
    {
      pages[currentPage]
    }

    /** The page indicator (line 96): a page number from 1 to the number of
        pages, and that number. */
    function Indicator(): (r: (int, int))
      reads this
      requires Valid() && ShowsAnalysis()
      ensures 1 <= r.0 <= r.1 && r.1 == |pages|
      ensures r.0 == currentPage + 1
    {
      (currentPage + 1, |pages|)
    }

    /** The details button (line 70) flips the flag and keeps the page. */
    method ToggleDetails()
      requires Valid()
      modifies this
      ensures Valid()
      ensures detailsVisible == !old(detailsVisible)
      ensures currentPage == old(currentPage)
    {
      detailsVisible := !detailsVisible;
    }

    /** The "next" button (lines 24-26), present only with the analysis. */
    method NextPage()
      requires Valid() && ShowsAnalysis()
      modifies this
      ensures Valid()
      ensures currentPage == NextPageIndex(old(currentPage), |pages|)
      ensures detailsVisible == old(detailsVisible)
    {
      currentPage := JsRemainder(currentPage + 1, |pages|);
    }

    /** The "previous" button (lines 28-30), present only with the analysis. */
    method PrevPage()
      requires Valid() && ShowsAnalysis()
      modifies this
      ensures Valid()
      ensures currentPage == PrevPageIndex(old(currentPage), |pages|)
      ensures detailsVisible == old(detailsVisible)
    {
      currentPage := JsRemainder(currentPage - 1 + |pages|, |pages|);
    }
  }
}

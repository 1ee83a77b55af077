/** TcgdexApiService: the catalog search URL, the page assembled from the
    listing and the per-card detail calls, the totalCount estimate, and the
    single-card URL. The HTTP GET itself is a parameter `fetch` from URL to
    parsed body or failure message; URLEncoder.encode is the parameter
    `encode`. */
module CatalogClient {
  import opened Wrappers
  import opened JavaText
  import opened Json

  /** The search criteria of searchCards; `None` is Java null. */
  datatype Criteria = Criteria(
    q: Option<string>,
    setId: Option<string>,
    rarity: Option<string>,
    cardType: Option<string>,
    category: Option<string>)

  /** A criterion takes part iff it is non-null and not blank. */
  predicate Given(v: Option<string>) {
    v.Some? && !IsBlank(v.value)
  }

  const NamePrefix := "name="
  const SetPrefix := "set.id=eq:"
  const RarityPrefix := "rarity=eq:"
  const TypePrefix := "types="
  const CategoryPrefix := "category=eq:"
  const PagePrefix := "pagination:page="
  const PageSizePrefix := "pagination:itemsPerPage="

  /** The parameter one criterion contributes: none, or the prefix
      followed by the encoded value. */
  function Param(prefix: string, v: Option<string>, encode: string -> string): (ps: seq<string>)
    ensures |ps| <= 1
    ensures |ps| == 1 <==> Given(v)
    ensures Given(v) ==> ps[0] == prefix + encode(v.value)
  {
    if Given(v) then [prefix + encode(v.value)] else []
  }

  /** The five criteria with their prefixes, in the fixed order of the
      query string. */
  function Entries(c: Criteria): seq<(string, Option<string>)> {
    [(NamePrefix, c.q), (SetPrefix, c.setId), (RarityPrefix, c.rarity),
     (TypePrefix, c.cardType), (CategoryPrefix, c.category)]
  }

  /** The parameters a list of criteria contributes, in list order. */
  function ParamsOf(es: seq<(string, Option<string>)>, encode: string -> string): (ps: seq<string>)
    ensures |ps| <= |es|
    decreases |es|
  {
    if |es| == 0 then [] else Param(es[0].0, es[0].1, encode) + ParamsOf(es[1..], encode)
  }

  function FilterParams(c: Criteria, encode: string -> string): seq<string> {
    ParamsOf(Entries(c), encode)
  }

  /** Every parameter of the query string: the filters, then the page and
      the page size, always and always last. */
  function SearchParams(c: Criteria, page: int, pageSize: int, encode: string -> string): (ps: seq<string>)
    ensures |ps| >= 2
    ensures ps[..|ps| - 2] == FilterParams(c, encode)
    ensures ps[|ps| - 2] == PagePrefix + IntToString(page)
    ensures ps[|ps| - 1] == PageSizePrefix + IntToString(pageSize)
  {
    FilterParams(c, encode) + [PagePrefix + IntToString(page), PageSizePrefix + IntToString(pageSize)]
  }

  /** The listing URL: the parameters joined with '&'. */
  function SearchUrl(base: string, c: Criteria, page: int, pageSize: int, encode: string -> string): (url: string)
    ensures StartsWith(url, base + "/cards?")
  {
    base + "/cards?" + Join("&", SearchParams(c, page, pageSize, encode))
  }

  /** The query part of a listing URL. */
  function QueryOf(base: string, url: string): string
    requires StartsWith(url, base + "/cards?")
  {
    url[|base + "/cards?"|..]
  }

  // ---------------------------------------------------------------------
  // Reading the query string back
  // ---------------------------------------------------------------------

  /** The value of the first parameter that starts with `prefix`. */
  function Lookup(ps: seq<string>, prefix: string): Option<string>
    decreases |ps|
  {
    if |ps| == 0 then None
    else if StartsWith(ps[0], prefix) then Some(ps[0][|prefix|..])
    else Lookup(ps[1..], prefix)
  }

  lemma {:induction false} LookupAppend(a: seq<string>, b: seq<string>, prefix: string)
    ensures Lookup(a + b, prefix) == if Lookup(a, prefix).Some? then Lookup(a, prefix) else Lookup(b, prefix)
    decreases |a|
  {
    if |a| > 0 {
      assert (a + b)[0] == a[0];
      assert (a + b)[1..] == a[1..] + b;
      LookupAppend(a[1..], b, prefix);
    } else {
      assert a + b == b;
    }
  }

  lemma HeadsDiffer(x: string, prefix: string)
    requires |x| > 0 && |prefix| > 0 && x[0] != prefix[0]
    ensures !StartsWith(x, prefix)
  {
    if |prefix| <= |x| {
      assert x[..|prefix|][0] == x[0];
    }
  }

  /** The prefixes start with pairwise different characters, so no
      parameter starts with two of them. */
  predicate DistinctHeads(es: seq<(string, Option<string>)>) {
    && (forall i :: 0 <= i < |es| ==> |es[i].0| > 0)
    && (forall i, j :: 0 <= i < j < |es| ==> es[i].0[0] != es[j].0[0])
  }

  /** Looking a listed prefix up finds the value it was given with, or
      nothing when it was not given. */
  lemma {:induction false} LookupParamsOf(es: seq<(string, Option<string>)>, encode: string -> string, j: int, tail: seq<string>)
    requires DistinctHeads(es) && 0 <= j < |es|
    requires Lookup(tail, es[j].0) == None
    ensures Lookup(ParamsOf(es, encode) + tail, es[j].0)
              == if Given(es[j].1) then Some(encode(es[j].1.value)) else None
    decreases |es|
  {
    var prefix := es[j].0;
    var head := Param(es[0].0, es[0].1, encode);
    assert ParamsOf(es, encode) + tail == head + (ParamsOf(es[1..], encode) + tail);
    LookupAppend(head, ParamsOf(es[1..], encode) + tail, prefix);
    if j == 0 {
      if Given(es[0].1) {
        assert head[0] == prefix + encode(es[0].1.value);
        assert (prefix + encode(es[0].1.value))[|prefix|..] == encode(es[0].1.value);
      } else {
        assert head == [];
        LookupSkip(es[1..], encode, prefix, tail);
      }
    } else {
      if Given(es[0].1) {
        assert head[0][0] == es[0].0[0] != prefix[0];
        HeadsDiffer(head[0], prefix);
        assert head[1..] == [];
      }
      assert Lookup(head, prefix) == None;
      LookupParamsOf(es[1..], encode, j - 1, tail);
    }
  }

  /** A prefix whose head no listed prefix shares is found in none of
      their parameters. */
  lemma {:induction false} LookupSkip(es: seq<(string, Option<string>)>, encode: string -> string, prefix: string, tail: seq<string>)
    requires |prefix| > 0 && forall i :: 0 <= i < |es| ==> |es[i].0| > 0 && es[i].0[0] != prefix[0]
    requires Lookup(tail, prefix) == None
    ensures Lookup(ParamsOf(es, encode) + tail, prefix) == None
    decreases |es|
  {
    if |es| > 0 {
      var head := Param(es[0].0, es[0].1, encode);
      assert ParamsOf(es, encode) + tail == head + (ParamsOf(es[1..], encode) + tail);
      LookupAppend(head, ParamsOf(es[1..], encode) + tail, prefix);
      if Given(es[0].1) {
        assert head[0][0] == es[0].0[0];
        HeadsDiffer(head[0], prefix);
        assert head[1..] == [];
      }
      assert Lookup(head, prefix) == None;
      LookupSkip(es[1..], encode, prefix, tail);
    } else {
      assert ParamsOf(es, encode) + tail == tail;
    }
  }

  /** The pagination parameters hold none of the criteria's prefixes. */
  lemma PaginationSkipped(page: int, pageSize: int, prefix: string)
    requires |prefix| > 0 && prefix[0] != 'p'
    ensures Lookup([PagePrefix + IntToString(page), PageSizePrefix + IntToString(pageSize)], prefix) == None
  {
    var tail := [PagePrefix + IntToString(page), PageSizePrefix + IntToString(pageSize)];
    assert tail[0][0] == 'p' && tail[1][0] == 'p';
    HeadsDiffer(tail[0], prefix);
    HeadsDiffer(tail[1], prefix);
    assert tail[1..][1..] == [];
    assert Lookup(tail[1..], prefix) == None;
  }

  lemma EntriesHeads(c: Criteria)
    ensures DistinctHeads(Entries(c))
    ensures forall j :: 0 <= j < |Entries(c)| ==> Entries(c)[j].0[0] != 'p'
  {
  }

  /** Each criterion reads back from the query string: its encoded value
      when it was given, nothing otherwise. */
  lemma SearchParamsDecode(c: Criteria, page: int, pageSize: int, encode: string -> string)
    ensures forall j :: 0 <= j < |Entries(c)| ==>
              Lookup(SearchParams(c, page, pageSize, encode), Entries(c)[j].0)
                == if Given(Entries(c)[j].1) then Some(encode(Entries(c)[j].1.value)) else None
  {
    var es := Entries(c);
    var tail := [PagePrefix + IntToString(page), PageSizePrefix + IntToString(pageSize)];
    assert SearchParams(c, page, pageSize, encode) == ParamsOf(es, encode) + tail;
    EntriesHeads(c);
    forall j | 0 <= j < |es|
      ensures Lookup(ParamsOf(es, encode) + tail, es[j].0)
                == if Given(es[j].1) then Some(encode(es[j].1.value)) else None
    {
      PaginationSkipped(page, pageSize, es[j].0);
      LookupParamsOf(es, encode, j, tail);
    }
  }

  /** URLEncoder never leaves a '&' in its output. */
  ghost predicate EncodesAmpersand(encode: string -> string) {
    forall v :: '&' !in encode(v)
  }

  lemma {:induction false} ParamsNoAmpersand(es: seq<(string, Option<string>)>, encode: string -> string)
    requires EncodesAmpersand(encode)
    requires forall i :: 0 <= i < |es| ==> '&' !in es[i].0
    ensures forall i :: 0 <= i < |ParamsOf(es, encode)| ==> '&' !in ParamsOf(es, encode)[i]
    decreases |es|
  {
    if |es| > 0 {
      ParamsNoAmpersand(es[1..], encode);
      var head := Param(es[0].0, es[0].1, encode);
      if Given(es[0].1) {
        assert '&' !in encode(es[0].1.value);
        assert '&' !in head[0];
      }
    }
  }

  lemma NoAmpersandInNumber(n: int)
    ensures '&' !in IntToString(n)
  {
    var d := if n < 0 then NatToString(-n) else NatToString(n);
    assert IntToString(n) == (if n < 0 then "-" else "") + d;
    assert forall i :: 0 <= i < |d| ==> d[i] != '&';
  }

  /** Splitting the query string at '&' gives the parameters that built
      it. */
  lemma SearchUrlRoundTrip(base: string, c: Criteria, page: int, pageSize: int, encode: string -> string)
    requires EncodesAmpersand(encode)
    ensures var url := SearchUrl(base, c, page, pageSize, encode);
      Split(QueryOf(base, url), '&') == SearchParams(c, page, pageSize, encode)
  {
    var ps := SearchParams(c, page, pageSize, encode);
    var url := SearchUrl(base, c, page, pageSize, encode);
    assert QueryOf(base, url) == Join("&", ps);
    SearchParamsNoAmpersand(c, page, pageSize, encode);
    assert ps[|ps| - 1] != "";
    SplitJoin(ps, '&');
  }

  lemma SearchParamsNoAmpersand(c: Criteria, page: int, pageSize: int, encode: string -> string)
    requires EncodesAmpersand(encode)
    ensures forall i :: 0 <= i < |SearchParams(c, page, pageSize, encode)| ==> '&' !in SearchParams(c, page, pageSize, encode)[i]
  {
    var ps := SearchParams(c, page, pageSize, encode);
    var fs := FilterParams(c, encode);
    ParamsNoAmpersand(Entries(c), encode);
    PaginationNoAmpersand(page, pageSize);
    forall i | 0 <= i < |ps| ensures '&' !in ps[i] {
      if i < |fs| {
        assert ps[..|ps| - 2][i] == fs[i];
      }
    }
  }

  lemma PaginationNoAmpersand(page: int, pageSize: int)
    ensures '&' !in PagePrefix + IntToString(page)
    ensures '&' !in PageSizePrefix + IntToString(pageSize)
  {
    NoAmpersandInNumber(page);
    NoAmpersandInNumber(pageSize);
    assert '&' !in PagePrefix;
    assert '&' !in PageSizePrefix;
  }

  // ---------------------------------------------------------------------
  // The page
  // ---------------------------------------------------------------------

  /** The page searchCards returns. */
  datatype SearchPage = SearchPage(data: seq<Json>, page: int, pageSize: int, totalCount: int)

  /** The cards of the listing response: its elements when it is an
      array, none otherwise. */
  function Listing(response: Json): (cards: seq<Json>)
    ensures response.JArr? ==> cards == response.items
    ensures !response.JArr? ==> cards == []
  {
    if response.JArr? then response.items else []
  }

  /** getCard's URL: the id appended as it is, not encoded. */
  function CardUrl(base: string, cardId: string): (url: string)
    ensures StartsWith(url, base + "/cards/") && url[|base + "/cards/"|..] == cardId
  {
    base + "/cards/" + cardId
  }

  /** getCard: the catalog's answer for that URL. */
  function GetCard(base: string, cardId: string, fetch: string -> Result<Json, string>): (r: Result<Json, string>)
    ensures r == fetch(CardUrl(base, cardId))
  {
    fetch(CardUrl(base, cardId))
  }

  /** The entry a listed card becomes: its full record when it has an id
      and the detail call answers; the summary itself when `get("id")` is
      null (the NullPointerException is caught) or the call fails. */
  function Detail(base: string, summary: Json, fetch: string -> Result<Json, string>, co: Coercions): (entry: Json)
    ensures Member(summary, "id").None? ==> entry == summary
    ensures Member(summary, "id").Some? ==>
              var full := GetCard(base, co.asText(Member(summary, "id").value), fetch);
              entry == if full.Success? then full.value else summary
  {
    match Member(summary, "id")
    case None => summary
    case Some(id) =>
      match fetch(CardUrl(base, co.asText(id)))
      case Success(full) => full
      case Failure(_) => summary
  }

  /** The estimate of totalCount in Java int arithmetic: a short page ends
      the results, a full one promises at least one more card. */
  function EstimatedTotal(page: int, pageSize: int, n: int): (total: int)
    ensures IsInt32(total)
  {
    if n < pageSize then Wrap32(Wrap32(Wrap32(page - 1) * pageSize) + n)
    else Wrap32(Wrap32(page * pageSize) + 1)
  }

  /** Without overflow: a short page gives the exact count of cards up to
      and including it, a full page one more than the cards so far. */
  lemma EstimatedTotalExact(page: int, pageSize: int, n: int)
    requires 1 <= page && 1 <= pageSize && 0 <= n
    requires IsInt32(page * pageSize + 1)
    ensures n < pageSize ==> EstimatedTotal(page, pageSize, n) == (page - 1) * pageSize + n
    ensures n >= pageSize ==> EstimatedTotal(page, pageSize, n) == page * pageSize + 1
    ensures n < pageSize ==> EstimatedTotal(page, pageSize, n) < page * pageSize + 1
  {
    var full := page * pageSize;
    var before := (page - 1) * pageSize;
    ProductBounds(page, pageSize);
    if n < pageSize {
      Wrap32InRange(page - 1);
      Wrap32InRange(before);
      Wrap32InRange(before + n);
    } else {
      Wrap32InRange(full);
      Wrap32InRange(full + 1);
    }
  }

  /** The arithmetic facts the estimate rests on, for positive operands. */
  lemma ProductBounds(page: int, pageSize: int)
    requires 1 <= page && 1 <= pageSize
    ensures (page - 1) * pageSize == page * pageSize - pageSize
    ensures 0 <= (page - 1) * pageSize
    ensures page <= page * pageSize
  {
    assert page * (pageSize - 1) >= 0;
  }

  /** The assembled page: one entry per listed card in listing order,
      page and pageSize echoed, totalCount estimated from the card count. */
  function AssemblePage(base: string, listing: Json, page: int, pageSize: int,
                        fetch: string -> Result<Json, string>, co: Coercions): (r: SearchPage)
    ensures |r.data| == |Listing(listing)|
    ensures forall i :: 0 <= i < |r.data| ==> r.data[i] == Detail(base, Listing(listing)[i], fetch, co)
    ensures r.page == page && r.pageSize == pageSize
    ensures r.totalCount == EstimatedTotal(page, pageSize, |Listing(listing)|)
  {
    var cards := Listing(listing);
    SearchPage(seq(|cards|, i requires 0 <= i < |cards| => Detail(base, cards[i], fetch, co)),
               page, pageSize, EstimatedTotal(page, pageSize, |cards|))
  }

  /** searchCards: a failed listing call escapes; otherwise the page is
      assembled, and a failed detail call only keeps that card's summary. */
  function SearchCards(base: string, c: Criteria, page: int, pageSize: int, encode: string -> string,
                       fetch: string -> Result<Json, string>, co: Coercions): (r: Result<SearchPage, string>)
    ensures fetch(SearchUrl(base, c, page, pageSize, encode)).Failure? <==> r.Failure?
    ensures r.Failure? ==> r.error == fetch(SearchUrl(base, c, page, pageSize, encode)).error
    ensures r.Success? ==> r.value == AssemblePage(base, fetch(SearchUrl(base, c, page, pageSize, encode)).value,
                                                   page, pageSize, fetch, co)
  {
    var listing :- fetch(SearchUrl(base, c, page, pageSize, encode));
    Success(AssemblePage(base, listing, page, pageSize, fetch, co))
  }

  /** A listing that is not an array gives an empty page whose total is
      the cards of the earlier pages. */
  lemma NonArrayListingEmpty(base: string, listing: Json, page: int, pageSize: int,
                             fetch: string -> Result<Json, string>, co: Coercions)
    requires !listing.JArr?
    requires 1 <= page && 1 <= pageSize && IsInt32(page * pageSize + 1)
    ensures AssemblePage(base, listing, page, pageSize, fetch, co).data == []
    ensures AssemblePage(base, listing, page, pageSize, fetch, co).totalCount == (page - 1) * pageSize
  {
    EstimatedTotalExact(page, pageSize, 0);
  }

  /** When every detail call fails the page is the listing itself. */
  lemma FailedDetailsKeepSummaries(base: string, listing: Json, page: int, pageSize: int,
                                   fetch: string -> Result<Json, string>, co: Coercions)
    requires forall url :: fetch(url).Failure?
    ensures AssemblePage(base, listing, page, pageSize, fetch, co).data == Listing(listing)
  {
  }
}

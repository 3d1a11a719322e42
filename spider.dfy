/** `YelpSpider.parse`: the business id first, then the vendor API's record for that id,
    then every field of the page reconciled with that record, then the two sections the
    browser reveals. */
module Spider {
  import opened Wrappers
  import opened Failures
  import opened Values
  import opened Reconciliation
  import opened BusinessId
  import opened Fields
  import opened Revealer

  /** What the structural queries find on one business page (each `getall()` result, in
      document order), and what the browser finds after its clicks. */
  datatype Page = Page(
    requestUrl: string,
    hrefs: seq<string>,
    h1Texts: seq<string>,
    imageSources: seq<string>,
    phoneTexts: seq<string>,
    websiteHrefs: seq<string>,
    addressLines: seq<string>,
    ratingLabels: seq<string>,
    reviewTexts: seq<string>,
    categoryTexts: seq<string>,
    scheduleTexts: seq<string>,
    readMoreHeaders: seq<string>,
    readMoreParagraphs: seq<Element>,
    readMoreContainers: seq<Element>,
    amenityTexts: seq<string>)

  /** The fields that are reconciled with the API record, in the order `parse` computes them. */
  datatype Field = Title | BusinessUrl | ImageUrl | Phone | Website | Location | Rating | Reviews | Categories | Schedule

  const FieldOrder: seq<Field> := [Title, BusinessUrl, ImageUrl, Phone, Website, Location, Rating, Reviews, Categories, Schedule]

  /** The key each field's parser reads from the API record. The business url and the
      website both read `"url"`. */
  function ApiKey(f: Field): string {
    match f
    case Title => "name"
    case BusinessUrl => "url"
    case ImageUrl => "image_url"
    case Phone => "display_phone"
    case Website => "url"
    case Location => "location"
    case Rating => "rating"
    case Reviews => "review_count"
    case Categories => "categories"
    case Schedule => "hours"
  }

  /** `.get()`: the first result of a query, `None` when there is none. */
  function First(texts: seq<string>): (r: Option<string>)
    ensures r.None? <==> |texts| == 0
    ensures r.Some? ==> r.value == texts[0]
  {
    if |texts| == 0 then None else Some(texts[0])
  }

  /** The value a field's parser finds in the page, before reconciliation. */
  function Local(page: Page, f: Field): Json {
    match f
    case Title => FromText(First(page.h1Texts))
    case BusinessUrl => JString(page.requestUrl)
    case ImageUrl => FromText(First(page.imageSources))
    case Phone => FromText(PhoneNumberOf(page.phoneTexts))
    case Website => FromText(First(page.websiteHrefs))
    case Location => FromTable(LocationOf(page.addressLines))
    case Rating => FromText(First(page.ratingLabels))
    case Reviews => FromText(First(page.reviewTexts))
    case Categories => FromTexts(CategoriesOf(page.categoryTexts))
    case Schedule => FromTable(ScheduleOf(page.scheduleTexts))
  }

  /** The first field, in `fields` order, whose key the API record lacks. */
  function FirstMissing(record: map<string, Json>, fields: seq<Field>): (r: Option<Field>)
    ensures r.None? <==> forall i :: 0 <= i < |fields| ==> ApiKey(fields[i]) in record
    ensures r.Some? ==> r.value in fields && ApiKey(r.value) !in record
    ensures r.Some? ==> exists i ::
      && 0 <= i < |fields| && fields[i] == r.value
      && forall j :: 0 <= j < i ==> ApiKey(fields[j]) in record
  {
    if |fields| == 0 then None
    else if ApiKey(fields[0]) !in record then Some(fields[0])
    else FirstMissing(record, fields[1..])
  }

  /** What indexing the API record raises, if anything: a truthy record that is not a dict
      cannot be subscripted by a key, and a dict without one of the keys raises `KeyError`
      at the first parser that reads it. A falsy record is never indexed. */
  function ApiLookupError(api: Json): Option<ScrapeError> {
    if !Truthy(api) then None
    else if !api.JObject? then Some(ApiNotSubscriptable)
    else match FirstMissing(api.fields, FieldOrder)
      case Some(f) => Some(ApiKeyMissing(ApiKey(f)))
      case None => None
  }

  /** When indexing raises nothing, every field's parser can index the record. */
  lemma LookupSucceeds(api: Json)
    requires ApiLookupError(api).None?
    ensures forall f :: Indexable(api, ApiKey(f))
  {
    forall f
      ensures Indexable(api, ApiKey(f))
    {
      if Truthy(api) {
        var i := match f
          case Title => 0 case BusinessUrl => 1 case ImageUrl => 2 case Phone => 3 case Website => 4
          case Location => 5 case Rating => 6 case Reviews => 7 case Categories => 8 case Schedule => 9;
        assert FieldOrder[i] == f;
      }
    }
  }

  /** The dict that `parse` yields. */
  datatype Record = Record(
    title: Json,
    url: Json,
    id: string,
    businessImageUrl: Json,
    website: Json,
    phoneNumber: Json,
    location: Json,
    rating: Json,
    reviews: Json,
    categories: Json,
    schedule: Json,
    readMore: Grouping,
    amenitiesAndMore: string)

  /** The record's entry for a reconciled field. */
  function Value(r: Record, f: Field): Json {
    match f
    case Title => r.title
    case BusinessUrl => r.url
    case ImageUrl => r.businessImageUrl
    case Phone => r.phoneNumber
    case Website => r.website
    case Location => r.location
    case Rating => r.rating
    case Reviews => r.reviews
    case Categories => r.categories
    case Schedule => r.schedule
  }

  /** `parse` on one page; `fetch` stands for `get_api_info`, the API's answer for an id
      (`None` when no API key is configured). */
  function Parse(page: Page, fetch: string -> Json): (r: Result<Record, ScrapeError>)
    ensures r.Success? ==> ParseId(page.hrefs) == Success(r.value.id)
  {
    match ParseId(page.hrefs)
    case Failure(e) => Failure(e)
    case Success(id) =>
      var api := fetch(id);
      match ApiLookupError(api)
      case Some(e) => Failure(e)
      case None =>
        LookupSucceeds(api);
        match ReadMoreOf(page.readMoreHeaders, page.readMoreParagraphs, page.readMoreContainers)
        case Failure(e) => Failure(e)
        case Success(readMore) =>
          Success(Record(
            Reconcile(Local(page, Title), api, ApiKey(Title)),
            Reconcile(Local(page, BusinessUrl), api, ApiKey(BusinessUrl)),
            id,
            Reconcile(Local(page, ImageUrl), api, ApiKey(ImageUrl)),
            Reconcile(Local(page, Website), api, ApiKey(Website)),
            Reconcile(Local(page, Phone), api, ApiKey(Phone)),
            Reconcile(Local(page, Location), api, ApiKey(Location)),
            Reconcile(Local(page, Rating), api, ApiKey(Rating)),
            Reconcile(Local(page, Reviews), api, ApiKey(Reviews)),
            Reconcile(Local(page, Categories), api, ApiKey(Categories)),
            Reconcile(Local(page, Schedule), api, ApiKey(Schedule)),
            readMore,
            AmenitiesOf(page.amenityTexts)))
  }

  /** The business id is the one in the first `/biz/<id>?` of the page's links, and a page
      without one yields nothing. */
  lemma ParseIdentifies(page: Page, fetch: string -> Json)
    ensures NoLinkMatches(page.hrefs) ==> Parse(page, fetch) == Failure(NoBusinessId)
    ensures Parse(page, fetch).Success? ==>
      |Occurrences(page.hrefs)| > 0 && Prefix + Parse(page, fetch).value.id + "?" == Occurrences(page.hrefs)[0]
  {
  }

  /** Of the faults this model covers, exactly three make `parse` raise: no business id,
      an API record that cannot be indexed, and a container past the last header. */
  lemma ParseFails(page: Page, fetch: string -> Json)
    ensures Parse(page, fetch).Failure? <==>
      || NoLinkMatches(page.hrefs)
      || (&& ParseId(page.hrefs).Success?
          && (|| ApiLookupError(fetch(ParseId(page.hrefs).value)).Some?
              || IndexOutOfRange(Dedup(page.readMoreHeaders), page.readMoreParagraphs, page.readMoreContainers)))
  {
  }

  /** The record's id is read from the leftmost occurrence in the first link target that
      has one. */
  lemma ParseUsesLeftmostId(page: Page, fetch: string -> Json, h: nat, a: nat, b: nat)
    requires h < |page.hrefs| && forall h' :: 0 <= h' < h ==> NoOccurrenceFrom(page.hrefs[h'], 0)
    requires a <= b <= |page.hrefs[h]| && IsOccurrence(page.hrefs[h][a..b])
    requires NoOccurrenceBefore(page.hrefs[h], 0, a)
    ensures Parse(page, fetch).Success? ==> Parse(page, fetch).value.id == page.hrefs[h][a + 5..b - 1]
  {
    ParseIdLeftmost(page.hrefs, h, a, b);
  }

  /** The two browser-revealed fields are the grouping of the "From the business" section
      and the amenities text. */
  lemma ParseRevealed(page: Page, fetch: string -> Json)
    ensures Parse(page, fetch).Success? ==>
      && ReadMoreOf(page.readMoreHeaders, page.readMoreParagraphs, page.readMoreContainers).Success?
      && Parse(page, fetch).value.readMore ==
         ReadMoreOf(page.readMoreHeaders, page.readMoreParagraphs, page.readMoreContainers).value
      && Parse(page, fetch).value.amenitiesAndMore == AmenitiesOf(page.amenityTexts)
  {
  }

  /** Every field holds the call-site reconciliation of its page value with the record's
      entry under the field's key. */
  lemma {:induction false} ParseReconciles(page: Page, fetch: string -> Json, f: Field)
    ensures Parse(page, fetch).Success? ==>
      var api := fetch(Parse(page, fetch).value.id);
      && Indexable(api, ApiKey(f))
      && Value(Parse(page, fetch).value, f) == Reconcile(Local(page, f), api, ApiKey(f))
  {
    if Parse(page, fetch).Success? {
      LookupSucceeds(fetch(Parse(page, fetch).value.id));
    }
  }

  /** A value found in the page is never overridden by the API's. */
  lemma ParseKeepsPageValues(page: Page, fetch: string -> Json)
    ensures Parse(page, fetch).Success? ==>
      forall f :: Local(page, f) != JNull ==> Value(Parse(page, fetch).value, f) == Local(page, f)
  {
    forall f | Parse(page, fetch).Success? && Local(page, f) != JNull
      ensures Value(Parse(page, fetch).value, f) == Local(page, f)
    {
      ParseReconciles(page, fetch, f);
    }
  }

  /** A field missing from the page takes the API's entry when the API answered. */
  lemma ParseFallsBack(page: Page, fetch: string -> Json)
    ensures Parse(page, fetch).Success? ==>
      var api := fetch(Parse(page, fetch).value.id);
      Truthy(api) ==> api.JObject? && forall f :: Local(page, f) == JNull ==>
        ApiKey(f) in api.fields && Value(Parse(page, fetch).value, f) == api.fields[ApiKey(f)]
  {
    if Parse(page, fetch).Success? {
      var api := fetch(Parse(page, fetch).value.id);
      forall f | Truthy(api) && Local(page, f) == JNull
        ensures api.JObject? && ApiKey(f) in api.fields && Value(Parse(page, fetch).value, f) == api.fields[ApiKey(f)]
      {
        ParseReconciles(page, fetch, f);
      }
    }
  }

  /** Without an API answer every field is the page's own value. */
  lemma ParseWithoutApi(page: Page, fetch: string -> Json)
    ensures Parse(page, fetch).Success? && !Truthy(fetch(Parse(page, fetch).value.id)) ==>
      forall f :: Value(Parse(page, fetch).value, f) == Local(page, f)
  {
    forall f | Parse(page, fetch).Success? && !Truthy(fetch(Parse(page, fetch).value.id))
      ensures Value(Parse(page, fetch).value, f) == Local(page, f)
    {
      ParseReconciles(page, fetch, f);
    }
  }

  /** The business url is always the requested url: the page always has one. */
  lemma ParseKeepsRequestUrl(page: Page, fetch: string -> Json)
    ensures Parse(page, fetch).Success? ==> Parse(page, fetch).value.url == JString(page.requestUrl)
  {
    ParseReconciles(page, fetch, BusinessUrl);
  }
}

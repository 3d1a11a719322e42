/** The two fields the spider reads from a browser session after a click reveals them:
    the amenities list and the "From the business" sections. The browser itself is not
    modelled; what its element queries return is the input. */
module Revealer {
  import opened Wrappers
  import opened Failures
  import opened Builtins

  // ---------------------------------------------------------------------------
  // Amenities

  /** The character class `[a-zA-Z ]`. */
  predicate IsAmenityChar(c: char) {
    'a' <= c <= 'z' || 'A' <= c <= 'Z' || c == ' '
  }

  /** `re.match(r"[a-zA-Z ]+", text)` succeeds: `re.match` anchors the pattern at the
      start only, so the first character decides. */
  predicate IsAmenity(text: string) {
    |text| > 0 && IsAmenityChar(text[0])
  }

  /** The text the loop appends for one span. */
  function Entry(text: string): string {
    if IsAmenity(text) then text + ", " else ""
  }

  /** The text the amenities loop has built after visiting `points`. */
  function AmenitiesOf(points: seq<string>): string {
    if |points| == 0 then "" else AmenitiesOf(points[..|points| - 1]) + Entry(points[|points| - 1])
  }

  /** `parse_amenities_and_more`'s loop over the spans' texts. */
  method CollectAmenities(points: seq<string>) returns (data: string)
    ensures data == AmenitiesOf(points)
  {
    data := "";
    for i := 0 to |points|
      invariant data == AmenitiesOf(points[..i])
    {
      assert points[..i + 1][..i] == points[..i];
      if IsAmenity(points[i]) {
        data := data + points[i] + ", ";
      }
    }
    assert points[..|points|] == points;
  }

  /** The spans that pass the filter, in page order. */
  function Kept(points: seq<string>): (kept: seq<string>)
    ensures |kept| <= |points|
    ensures forall i :: 0 <= i < |kept| ==> IsAmenity(kept[i]) && kept[i] in points
  {
    if |points| == 0 then []
    else (if IsAmenity(points[0]) then [points[0]] else []) + Kept(points[1..])
  }

  /** Each text followed by `", "`, concatenated. */
  function JoinTrailing(texts: seq<string>): string {
    if |texts| == 0 then "" else texts[0] + ", " + JoinTrailing(texts[1..])
  }

  /** The sum of the lengths of `texts`. */
  function TotalLength(texts: seq<string>): nat {
    if |texts| == 0 then 0 else |texts[0]| + TotalLength(texts[1..])
  }

  lemma {:induction false} KeptAppend(points: seq<string>, text: string)
    ensures Kept(points + [text]) == Kept(points) + (if IsAmenity(text) then [text] else [])
  {
    if |points| == 0 {
      assert points + [text] == [text];
    } else {
      assert (points + [text])[1..] == points[1..] + [text];
      KeptAppend(points[1..], text);
    }
  }

  lemma {:induction false} JoinTrailingAppend(a: seq<string>, b: seq<string>)
    ensures JoinTrailing(a + b) == JoinTrailing(a) + JoinTrailing(b)
  {
    if |a| == 0 {
      assert a + b == b;
    } else {
      assert (a + b)[1..] == a[1..] + b;
      JoinTrailingAppend(a[1..], b);
    }
  }

  /** The amenities text is the kept spans, each followed by `", "`, in page order. */
  lemma {:induction false} AmenitiesAreKeptSpans(points: seq<string>)
    ensures AmenitiesOf(points) == JoinTrailing(Kept(points))
  {
    if |points| > 0 {
      var init, last := points[..|points| - 1], points[|points| - 1];
      AmenitiesAreKeptSpans(init);
      assert points == init + [last];
      KeptAppend(init, last);
      JoinTrailingAppend(Kept(init), if IsAmenity(last) then [last] else []);
    }
  }

  lemma {:induction false} JoinTrailingShape(texts: seq<string>)
    ensures |JoinTrailing(texts)| == TotalLength(texts) + 2 * |texts|
    ensures |texts| > 0 ==> JoinTrailing(texts)[|JoinTrailing(texts)| - 2..] == ", "
  {
    if |texts| > 0 {
      JoinTrailingShape(texts[1..]);
    }
  }

  /** Its length is that of the kept spans plus two per span, and unless nothing was
      kept it ends with the separator `", "`. */
  lemma AmenitiesShape(points: seq<string>)
    ensures |AmenitiesOf(points)| == TotalLength(Kept(points)) + 2 * |Kept(points)|
    ensures AmenitiesOf(points) == "" <==> |Kept(points)| == 0
    ensures |Kept(points)| > 0 ==> AmenitiesOf(points)[|AmenitiesOf(points)| - 2..] == ", "
  {
    AmenitiesAreKeptSpans(points);
    JoinTrailingShape(Kept(points));
  }

  /** `re.match` anchors at the start only: a text that merely begins with a letter or a
      space is kept whole, digits and punctuation included, and one that begins otherwise is
      dropped. */
  lemma AmenitiesAnchoredAtStart()
    ensures AmenitiesOf(["Wi-Fi 24/7", "24 hours"]) == "Wi-Fi 24/7, "
  {
    var a, b := "Wi-Fi 24/7", "24 hours";
    assert IsAmenity(a) && !IsAmenity(b);
    assert [a, b][..1] == [a];
    assert [a][..0] == [];
    assert AmenitiesOf([a]) == a + ", ";
  }

  // ---------------------------------------------------------------------------
  // "From the business" sections

  /** A browser element as the spider reads it: its identity (`WebElement.__eq__`
      compares ids), its visible text and its `innerHTML`. */
  datatype Element = Element(id: string, text: string, html: string)

  /** A dict of texts with its insertion order. */
  datatype Grouping = Grouping(keys: seq<string>, data: map<string, string>)

  /** The header texts as the header loop inserts them into the dict: each text once, at
      its first position. */
  function Dedup(texts: seq<string>): (keys: seq<string>)
    ensures forall k :: k in keys <==> k in texts
    ensures forall a, b :: 0 <= a < b < |keys| ==> keys[a] != keys[b]
  {
    if |texts| == 0 then []
    else
      var keys := Dedup(texts[..|texts| - 1]);
      var last := texts[|texts| - 1];
      assert forall k :: k in texts <==> k in texts[..|texts| - 1] || k == last;
      if last in keys then keys else keys + [last]
  }

  /** The keys keep the order in which their texts are first seen. */
  lemma {:induction false} DedupFirstSeen(texts: seq<string>)
    ensures forall a, b :: 0 <= a < b < |Dedup(texts)| ==>
      FirstIndex(texts, Dedup(texts)[a]) < FirstIndex(texts, Dedup(texts)[b])
  {
    if |texts| > 0 {
      var init, last := texts[..|texts| - 1], texts[|texts| - 1];
      DedupFirstSeen(init);
      assert texts == init + [last];
      FirstIndexOfPrefix(init, last);
      var keys := Dedup(init);
      if last !in keys {
        assert FirstIndex(texts, last) == |init|;
      }
    }
  }

  lemma FirstIndexOfPrefix(init: seq<string>, last: string)
    ensures forall x :: x in init ==> FirstIndex(init + [last], x) == FirstIndex(init, x)
  {
    forall x | x in init
      ensures FirstIndex(init + [last], x) == FirstIndex(init, x)
    {
      var k := FirstIndex(init, x);
      var k' := FirstIndex(init + [last], x);
      assert (init + [last])[k] == x;
      assert k' <= k;
      assert init[k'] == (init + [last])[k'] == x;
    }
  }

  /** The first position of an element with identity `id`, the search `list.index`
      makes with `WebElement.__eq__`. */
  function IndexOfId(elements: seq<Element>, id: string): (index: nat)
    requires exists j :: 0 <= j < |elements| && elements[j].id == id
    ensures index < |elements| && elements[index].id == id
    ensures forall j :: 0 <= j < index ==> elements[j].id != id
  {
    if elements[0].id == id then 0
    else
      assert exists j :: 0 <= j < |elements[1..]| && elements[1..][j].id == id by {
        var j :| 0 <= j < |elements| && elements[j].id == id;
        assert elements[1..][j - 1] == elements[j];
      }
      1 + IndexOfId(elements[1..], id)
  }

  /** `paragraphs_in_div.index(paragraph_in_div)` for the `j`-th container. */
  function ContainerIndex(containers: seq<Element>, j: nat): (index: nat)
    requires j < |containers|
    ensures index <= j
  {
    IndexOfId(containers, containers[j].id)
  }

  /** What the pair (paragraph `p`, container `j`) appends to the value of key number `m`:
      the paragraph's text when it belongs to the container by markup containment and
      the container's index is `m`, nothing otherwise. */
  function Contribution(m: nat, p: Element, containers: seq<Element>, j: nat): string
    requires j < |containers|
  {
    if ContainerIndex(containers, j) == m then Piece(p, containers[j]) else ""
  }

  /** `paragraph.text if paragraph's innerHTML in container's innerHTML else ""`. */
  function Piece(p: Element, container: Element): string {
    if Contains(container.html, p.html) then p.text else ""
  }

  /** What paragraph `p` appends to key number `m` over the first `n` containers. */
  function RowText(m: nat, p: Element, containers: seq<Element>, n: nat): string
    requires n <= |containers|
  {
    if n == 0 then "" else RowText(m, p, containers, n - 1) + Contribution(m, p, containers, n - 1)
  }

  /** What the first `n` paragraphs append to key number `m`. */
  function Collected(m: nat, paragraphs: seq<Element>, containers: seq<Element>, n: nat): string
    requires n <= |paragraphs|
  {
    if n == 0 then ""
    else Collected(m, paragraphs, containers, n - 1) + RowText(m, paragraphs[n - 1], containers, |containers|)
  }

  /** The index of each of the first `n` containers is the position of one of `count` keys. */
  predicate IndicesInRange(containers: seq<Element>, n: nat, count: nat)
    requires n <= |containers|
  {
    n == 0 || (IndicesInRange(containers, n - 1, count) && ContainerIndex(containers, n - 1) < count)
  }

  lemma {:induction false} IndicesInRangeAll(containers: seq<Element>, n: nat, count: nat)
    requires n <= |containers|
    ensures IndicesInRange(containers, n, count) <==> forall j :: 0 <= j < n ==> ContainerIndex(containers, j) < count
  {
    if n > 0 {
      IndicesInRangeAll(containers, n - 1, count);
    }
  }

  /** Some container's index lies past the last key, and there is a paragraph to make the
      loop reach it. */
  predicate IndexOutOfRange(keys: seq<string>, paragraphs: seq<Element>, containers: seq<Element>) {
    |paragraphs| > 0 && !IndicesInRange(containers, |containers|, |keys|)
  }

  /** The failing container, spelled out. */
  lemma IndexOutOfRangeAt(keys: seq<string>, paragraphs: seq<Element>, containers: seq<Element>)
    ensures IndexOutOfRange(keys, paragraphs, containers) <==>
      |paragraphs| > 0 && exists j :: 0 <= j < |containers| && ContainerIndex(containers, j) >= |keys|
  {
    IndicesInRangeAll(containers, |containers|, |keys|);
  }

  /** What `parse_read_more` computes once the "Read more" click has revealed the
      section: the header texts as keys, each holding the texts of the paragraphs that
      belong to the container at the key's position. `list(data.keys())[index]` raises
      `IndexError`, which nothing catches, when a container's index has no key. */
  function ReadMoreOf(headers: seq<string>, paragraphs: seq<Element>, containers: seq<Element>)
    : Result<Grouping, ScrapeError>
  {
    var keys := Dedup(headers);
    if IndexOutOfRange(keys, paragraphs, containers) then Failure(ReadMoreHeaderOutOfRange)
    else Success(Grouping(keys, GroupedTexts(keys, paragraphs, containers)))
  }

  /** Each key holds what every paragraph appends to the key's position. */
  function GroupedTexts(keys: seq<string>, paragraphs: seq<Element>, containers: seq<Element>): map<string, string> {
    map k | k in keys :: Collected(FirstIndex(keys, k), paragraphs, containers, |paragraphs|)
  }

  /** `parse_read_more`'s header loop: `data.update({header.text: ""})` for each header. */
  method InsertHeaders(headers: seq<string>) returns (keys: seq<string>, data: map<string, string>)
    ensures keys == Dedup(headers)
    ensures data == map k | k in keys :: ""
  {
    keys, data := [], map[];
    for h := 0 to |headers|
      invariant keys == Dedup(headers[..h])
      invariant data == map k | k in keys :: ""
    {
      assert headers[..h + 1][..h] == headers[..h];
      var text := headers[h];
      if text !in data {
        keys := keys + [text];
      }
      data := data[text := ""];
    }
    assert headers[..|headers|] == headers;
  }

  /** No text occurs twice among the keys. */
  predicate Distinct(keys: seq<string>) {
    forall m {:trigger FirstIndex(keys, keys[m])} :: 0 <= m < |keys| ==> FirstIndex(keys, keys[m]) == m
  }

  lemma DedupDistinct(texts: seq<string>)
    ensures Distinct(Dedup(texts))
  {
    var keys := Dedup(texts);
    forall m | 0 <= m < |keys|
      ensures FirstIndex(keys, keys[m]) == m
    {
      var f := FirstIndex(keys, keys[m]);
      assert keys[f] == keys[m];
    }
  }

  /** The dict holds exactly the keys. */
  ghost predicate KeyedBy(data: map<string, string>, keys: seq<string>) {
    forall k :: k in data <==> k in keys
  }

  /** One step of the container loop: appending the piece to the key at the container's
      index advances every key by exactly its contribution, and adds no key. */
  lemma {:induction false} AppendStep(keys: seq<string>, data: map<string, string>, before: map<string, string>,
                   paragraph: Element, containers: seq<Element>, j: nat)
    requires j < |containers| && ContainerIndex(containers, j) < |keys|
    requires Distinct(keys) && KeyedBy(data, keys) && KeyedBy(before, keys)
    requires forall m :: 0 <= m < |keys| ==> before[keys[m]] == data[keys[m]] + RowText(m, paragraph, containers, j)
    ensures
      var key := keys[ContainerIndex(containers, j)];
      var after := before[key := before[key] + Piece(paragraph, containers[j])];
      && after.Keys == before.Keys
      && forall m :: 0 <= m < |keys| ==> after[keys[m]] == data[keys[m]] + RowText(m, paragraph, containers, j + 1)
  {
    var index := ContainerIndex(containers, j);
    var key := keys[index];
    forall m | 0 <= m < |keys|
      ensures before[key := before[key] + Piece(paragraph, containers[j])][keys[m]]
        == data[keys[m]] + RowText(m, paragraph, containers, j + 1)
    {
      if m != index {
        assert FirstIndex(keys, keys[m]) == m && FirstIndex(keys, key) == index;
      }
      AppendStepAt(keys, data, before, paragraph, containers, j, m);
    }
  }

  /** The step for key number `m` alone. */
  lemma AppendStepAt(keys: seq<string>, data: map<string, string>, before: map<string, string>,
                     paragraph: Element, containers: seq<Element>, j: nat, m: nat)
    requires j < |containers| && ContainerIndex(containers, j) < |keys| && m < |keys|
    requires keys[m] in data && keys[m] in before && keys[ContainerIndex(containers, j)] in before
    requires m == ContainerIndex(containers, j) || keys[m] != keys[ContainerIndex(containers, j)]
    requires before[keys[m]] == data[keys[m]] + RowText(m, paragraph, containers, j)
    ensures
      var key := keys[ContainerIndex(containers, j)];
      before[key := before[key] + Piece(paragraph, containers[j])][keys[m]]
        == data[keys[m]] + RowText(m, paragraph, containers, j + 1)
  {
    if m != ContainerIndex(containers, j) {
      assert RowText(m, paragraph, containers, j + 1) == RowText(m, paragraph, containers, j) + "";
    } else {
      assert RowText(m, paragraph, containers, j + 1) == RowText(m, paragraph, containers, j) + Piece(paragraph, containers[j]);
    }
  }

  /** One round of `parse_read_more`'s outer loop: a paragraph against every container,
      each appending to the key at the container's index. `ok` is false where
      `list(data.keys())[index]` raises. */
  method AppendParagraph(keys: seq<string>, data: map<string, string>, paragraph: Element,
                         containers: seq<Element>)
    returns (ok: bool, data': map<string, string>)
    requires Distinct(keys) && KeyedBy(data, keys)
    ensures ok <==> IndicesInRange(containers, |containers|, |keys|)
    ensures ok ==> data'.Keys == data.Keys
    ensures ok ==> forall m :: 0 <= m < |keys| ==>
      data'[keys[m]] == data[keys[m]] + RowText(m, paragraph, containers, |containers|)
  {
    data' := data;
    for j := 0 to |containers|
      invariant data'.Keys == data.Keys
      invariant IndicesInRange(containers, j, |keys|)
      invariant forall m :: 0 <= m < |keys| ==> data'[keys[m]] == data[keys[m]] + RowText(m, paragraph, containers, j)
    {
      var piece := Piece(paragraph, containers[j]);
      var index := ContainerIndex(containers, j);
      if index >= |keys| {
        IndicesInRangeAll(containers, |containers|, |keys|);
        return false, data';
      }
      var key := keys[index];
      AppendStep(keys, data, data', paragraph, containers, j);
      data' := data'[key := data'[key] + piece];
    }
    ok := true;
  }

  /** One round of the outer loop advances every key from the first `i` paragraphs to
      the first `i + 1`. */
  lemma {:induction false} CollectStep(keys: seq<string>, data: map<string, string>, data': map<string, string>,
                                       paragraphs: seq<Element>, containers: seq<Element>, i: nat)
    requires i < |paragraphs|
    requires forall m :: 0 <= m < |keys| ==> keys[m] in data && data[keys[m]] == Collected(m, paragraphs, containers, i)
    requires forall m :: 0 <= m < |keys| ==>
      keys[m] in data' && data'[keys[m]] == data[keys[m]] + RowText(m, paragraphs[i], containers, |containers|)
    ensures forall m :: 0 <= m < |keys| ==> data'[keys[m]] == Collected(m, paragraphs, containers, i + 1)
  {
  }

  /** A dict keyed by `keys` whose value at each position is the collected text is the
      grouping `ReadMoreOf` describes. */
  lemma Grouped(keys: seq<string>, data: map<string, string>, paragraphs: seq<Element>, containers: seq<Element>)
    requires Distinct(keys) && KeyedBy(data, keys)
    requires forall m :: 0 <= m < |keys| ==> data[keys[m]] == Collected(m, paragraphs, containers, |paragraphs|)
    ensures data == GroupedTexts(keys, paragraphs, containers)
  {
    forall k | k in keys
      ensures data[k] == Collected(FirstIndex(keys, k), paragraphs, containers, |paragraphs|)
    {
      var m := FirstIndex(keys, k);
      assert keys[m] == k;
    }
  }

  /** `parse_read_more`'s header loop and its paragraph-by-container loop. */
  method ParseReadMore(headers: seq<string>, paragraphs: seq<Element>, containers: seq<Element>)
    returns (r: Result<Grouping, ScrapeError>)
    ensures r == ReadMoreOf(headers, paragraphs, containers)
  {
    var keys, data := InsertHeaders(headers);
    DedupDistinct(headers);
    for i := 0 to |paragraphs|
      invariant KeyedBy(data, keys)
      invariant i > 0 ==> IndicesInRange(containers, |containers|, |keys|)
      invariant forall m :: 0 <= m < |keys| ==> data[keys[m]] == Collected(m, paragraphs, containers, i)
    {
      var ok, data' := AppendParagraph(keys, data, paragraphs[i], containers);
      if !ok {
        assert IndexOutOfRange(keys, paragraphs, containers);
        return Failure(ReadMoreHeaderOutOfRange);
      }
      CollectStep(keys, data, data', paragraphs, containers, i);
      data := data';
    }
    assert !IndexOutOfRange(keys, paragraphs, containers);
    Grouped(keys, data, paragraphs, containers);
    return Success(Grouping(keys, data));
  }

  /** No element appears twice among the containers, as distinct markup nodes never do. */
  predicate DistinctIds(containers: seq<Element>) {
    forall a, b :: 0 <= a < b < |containers| ==> containers[a].id != containers[b].id
  }

  /** With distinct containers, `list.index` gives every container its own position. */
  lemma ContainerIndexDistinct(containers: seq<Element>, j: nat)
    requires j < |containers| && DistinctIds(containers)
    ensures ContainerIndex(containers, j) == j
  {
  }

  /** With distinct containers, a paragraph appends to key number `m` its piece for the
      `m`-th container, and nothing to any other key. */
  lemma {:induction false} RowTextDistinct(m: nat, p: Element, containers: seq<Element>, n: nat)
    requires n <= |containers| && DistinctIds(containers)
    ensures RowText(m, p, containers, n) == if m < n then Piece(p, containers[m]) else ""
  {
    if n > 0 {
      RowTextDistinct(m, p, containers, n - 1);
      ContainerIndexDistinct(containers, n - 1);
    }
  }

  /** The texts of the paragraphs whose markup lies inside `container`, in order. */
  function TextsInside(paragraphs: seq<Element>, container: Element): string {
    if |paragraphs| == 0 then ""
    else TextsInside(paragraphs[..|paragraphs| - 1], container) + Piece(paragraphs[|paragraphs| - 1], container)
  }

  lemma TextsInsideSnoc(paragraphs: seq<Element>, n: nat, container: Element)
    requires 0 < n <= |paragraphs|
    ensures TextsInside(paragraphs[..n], container)
      == TextsInside(paragraphs[..n - 1], container) + Piece(paragraphs[n - 1], container)
  {
    assert paragraphs[..n][..n - 1] == paragraphs[..n - 1];
  }

  /** With distinct containers, key number `m` collects the texts of the first `n`
      paragraphs that lie inside the `m`-th container. */
  lemma {:induction false} CollectedInside(m: nat, paragraphs: seq<Element>, containers: seq<Element>, n: nat)
    requires n <= |paragraphs| && m < |containers| && DistinctIds(containers)
    ensures Collected(m, paragraphs, containers, n) == TextsInside(paragraphs[..n], containers[m])
  {
    if n > 0 {
      CollectedInside(m, paragraphs, containers, n - 1);
      RowTextDistinct(m, paragraphs[n - 1], containers, |containers|);
      TextsInsideSnoc(paragraphs, n, containers[m]);
    }
  }

  /** With distinct containers, a key past the last container collects nothing. */
  lemma {:induction false} CollectedNothing(m: nat, paragraphs: seq<Element>, containers: seq<Element>, n: nat)
    requires n <= |paragraphs| && m >= |containers| && DistinctIds(containers)
    ensures |Collected(m, paragraphs, containers, n)| == 0
  {
    if n > 0 {
      CollectedNothing(m, paragraphs, containers, n - 1);
      RowTextDistinct(m, paragraphs[n - 1], containers, |containers|);
    }
  }

  /** With distinct containers, key number `m` collects the texts of the paragraphs inside
      the `m`-th container, or nothing when there is no such container. */
  lemma CollectedDistinct(m: nat, paragraphs: seq<Element>, containers: seq<Element>)
    requires DistinctIds(containers)
    ensures Collected(m, paragraphs, containers, |paragraphs|) ==
      if m < |containers| then TextsInside(paragraphs, containers[m]) else ""
  {
    if m < |containers| {
      CollectedInside(m, paragraphs, containers, |paragraphs|);
      assert paragraphs[..|paragraphs|] == paragraphs;
    } else {
      CollectedNothing(m, paragraphs, containers, |paragraphs|);
    }
  }

  /** With distinct containers, the header at position `m` holds the texts, in paragraph
      order, of exactly those paragraphs whose markup is a substring of the `m`-th
      container's markup; a header with no container at its position stays `""`. */
  lemma ReadMoreGroups(headers: seq<string>, paragraphs: seq<Element>, containers: seq<Element>)
    requires DistinctIds(containers)
    requires ReadMoreOf(headers, paragraphs, containers).Success?
    ensures ReadMoreOf(headers, paragraphs, containers).value.keys == Dedup(headers)
    ensures forall k :: k in ReadMoreOf(headers, paragraphs, containers).value.data <==> k in headers
    ensures forall m :: 0 <= m < |Dedup(headers)| ==>
      && Dedup(headers)[m] in ReadMoreOf(headers, paragraphs, containers).value.data
      && ReadMoreOf(headers, paragraphs, containers).value.data[Dedup(headers)[m]] ==
         if m < |containers| then TextsInside(paragraphs, containers[m]) else ""
  {
    var keys := Dedup(headers);
    var data := ReadMoreOf(headers, paragraphs, containers).value.data;
    assert data == GroupedTexts(keys, paragraphs, containers);
    forall m | 0 <= m < |keys|
      ensures keys[m] in data
      ensures data[keys[m]] == if m < |containers| then TextsInside(paragraphs, containers[m]) else ""
    {
      assert FirstIndex(keys, keys[m]) == m;
      CollectedDistinct(m, paragraphs, containers);
    }
  }

  /** With distinct containers, the grouping fails exactly when there is a paragraph and
      more containers than distinct headers. */
  lemma ReadMoreFails(headers: seq<string>, paragraphs: seq<Element>, containers: seq<Element>)
    requires DistinctIds(containers)
    ensures ReadMoreOf(headers, paragraphs, containers).Failure? <==>
      |paragraphs| > 0 && |containers| > |Dedup(headers)|
  {
    var keys := Dedup(headers);
    IndexOutOfRangeAt(keys, paragraphs, containers);
    if |containers| > |keys| {
      ContainerIndexDistinct(containers, |keys|);
    }
  }

  /** With no paragraph, nothing can fail and every header keeps its initial `""`. */
  lemma ReadMoreNoParagraphs(headers: seq<string>, containers: seq<Element>)
    ensures ReadMoreOf(headers, [], containers).Success?
    ensures forall k :: k in ReadMoreOf(headers, [], containers).value.data <==> k in headers
    ensures forall k :: k in ReadMoreOf(headers, [], containers).value.data ==>
      ReadMoreOf(headers, [], containers).value.data[k] == ""
  {
  }
}

# Yelp business-page spider: a verified model of its post-processing

The spider visits a Yelp business page and yields one record per page. It gets its
data from three places: XPath queries on the page, a Chrome session that clicks
"Read more", and optionally the Yelp Fusion API. Beyond those I/O steps, a small set of
deterministic rules turns what the queries return into the record. This project models
those rules in Dafny and proves what they guarantee.

- **Reconciliation** (`reconcile.dfy`). `check_api` and the call-site pattern
  `check_api(local, api_info[key]) if api_info else local`. A value found in the page is
  never replaced. Only a missing (`None`) value falls back to the API's entry. Without an
  API answer, every field is the page's own value.
- **Business id** (`business_id.dfy`). `parse_id` finds every `/biz/[a-zA-Z0-9-]*\?` in
  the link targets, then takes the lazy `/biz/(.*?)\?` capture of the first one. A page
  without an occurrence fails, as the uncaught `IndexError` of `occurrences[0]` does.
- **Field post-processing** (`fields.dfy`):
  - the phone number is the second paragraph text;
  - an empty category list becomes `None`;
  - the location loop stores every line but the last as `address<N>` and splits the
    last line into city, state and zip code;
  - the schedule pairs fourteen texts into day -> hours.
- **Browser-revealed sections** (`revealer.dfy`):
  - the amenities loop keeps each span whose text starts with `[a-zA-Z ]` and appends it
    followed by `", "`;
  - the "Read more" loops insert the header texts as keys, then add each paragraph's
    text to the header at the position of every container whose markup contains the
    paragraph's markup.
- **The whole `parse`** (`spider.dfy`). The business id comes first, then the API
  record, then every field reconciled with that record, then the two browser-revealed
  sections. Of the faults the model covers, three uncaught exceptions end a visit with
  no record:
  - no business id;
  - an API answer that cannot be indexed;
  - a container index with no header.

`str.split`, `str.split()`, `list.index`, `str(int)` and substring `in` are modelled
in `builtins.dfy`. The page, the browser and the API are not modelled. What their
queries return is the input: sequences of texts, `Element(id, text, html)` values for
browser elements (equality is by `id`, as for `WebElement`), and a function
`fetch: string -> Json` standing for `get_api_info`.

The imperative parts of the source are methods proved equal to the specification
functions that the rest of the model uses:
- the location loop is `Fields.ParseLocation`;
- the amenities loop is `Revealer.CollectAmenities`;
- the header and grouping loops are `Revealer.InsertHeaders`,
  `Revealer.AppendParagraph` and `Revealer.ParseReadMore`.

Where the documentation and the code differ, the model follows the code:
- The `check_api` docstring speaks of returning the API's data when the parsed data
  "doesn't match" it. The code compares nothing. It tests only `is not None`
  (`Reconciliation.CheckApi`).
- The schedule is described as the seven days of the week. The code builds a dict
  comprehension over seven pairs. A day named twice keeps the later hours, and the
  result can have fewer than seven keys (`Fields.ScheduleHolds`).
- Amenities are described as texts made of letters and spaces. `re.match` anchors
  only at the start, so any text whose first character is a letter or a space is kept
  (`Revealer.AmenitiesAnchoredAtStart`).

## Model

| member | source | states |
|---|---|---|
| Reconciliation.CheckApi | yelp_parser/yelp_parser/spiders/test.py:67-80 | a parsed value that is not `None` is returned unchanged; only `None` yields the API value; the result is one of the two |
| Reconciliation.Reconcile | yelp_parser/yelp_parser/spiders/test.py:104-108 | with a falsy `api_info` the local value is returned; a present local value always wins; a missing one takes `api_info[key]`; the result differs from the local value only when that is `None` and the API answered; the eager `api_info[key]` is required to be indexable |
| Values.FromText | yelp_parser/yelp_parser/spiders/test.py:100-102 | an optional text is stored as `None` exactly when it is absent, else as that `str` |
| Values.FromTexts | yelp_parser/yelp_parser/spiders/test.py:212-216 | a list of texts keeps its length and each text in order; `None` stays `None` |
| Values.FromTable | yelp_parser/yelp_parser/spiders/test.py:230-235 | a dict of texts keeps exactly its keys and each value; `None` stays `None` |
| Builtins.FirstIndex | yelp_parser/yelp_parser/spiders/test.py:173 | `list.index`: the position holds the value and no earlier position does |
| Builtins.Split | yelp_parser/yelp_parser/spiders/test.py:175-177 | `str.split(sep)`: at least one part; two or more exactly when `sep` occurs; no part contains `sep`; the first part is a prefix |
| Builtins.SplitJoin | yelp_parser/yelp_parser/spiders/test.py:175 | joining the parts of a split with the separator gives back the text |
| Builtins.Words | yelp_parser/yelp_parser/spiders/test.py:177 | `str.split()`: every word is non-empty and free of whitespace |
| Builtins.WordsOfRun | yelp_parser/yelp_parser/spiders/test.py:177 | `str.split()` keeps a non-empty run without whitespace as one word |
| Builtins.WordsAtSpace | yelp_parser/yelp_parser/spiders/test.py:177 | a whitespace character separates words: the words around it are those of each side |
| Builtins.WordsCoverText | yelp_parser/yelp_parser/spiders/test.py:177 | the words, concatenated, are the text with its whitespace removed |
| Builtins.ContainsAt | yelp_parser/yelp_parser/spiders/test.py:277-278 | substring `in` holds exactly when the needle starts at some position of the text |
| Builtins.NatToString | yelp_parser/yelp_parser/spiders/test.py:173 | `str(n)` is a non-empty string of decimal digits with no leading zero unless `n` is 0 |
| Builtins.NatToStringRoundTrip | yelp_parser/yelp_parser/spiders/test.py:173 | reading the digits of `str(n)` back gives `n` |
| Builtins.NatToStringInjective | yelp_parser/yelp_parser/spiders/test.py:173 | different numbers have different `str` |
| BusinessId.IdRunEnd | yelp_parser/yelp_parser/spiders/test.py:89 | the greedy `[a-zA-Z0-9-]*` run: all id characters, ended by the text's end or a non-id character |
| BusinessId.MatchAt | yelp_parser/yelp_parser/spiders/test.py:88-89 | a match of `/biz/[a-zA-Z0-9-]*\?` at a position is a full occurrence of the pattern |
| BusinessId.MatchAtFinds | yelp_parser/yelp_parser/spiders/test.py:88-89 | wherever an occurrence starts, the matcher finds exactly that occurrence |
| BusinessId.FindAll | yelp_parser/yelp_parser/spiders/test.py:88-89 | everything `findall` returns is an occurrence of the pattern |
| BusinessId.FindAllFinds | yelp_parser/yelp_parser/spiders/test.py:88-89 | an occurrence anywhere in the text makes `findall` non-empty |
| BusinessId.FindAllSound | yelp_parser/yelp_parser/spiders/test.py:88-89 | a non-empty `findall` means an occurrence is in the text |
| BusinessId.FindAllFirst | yelp_parser/yelp_parser/spiders/test.py:88-89 | `findall` returns first the leftmost occurrence of the text |
| BusinessId.FindAllEmpty | yelp_parser/yelp_parser/spiders/test.py:88-90 | `findall` is empty exactly when the text has no occurrence |
| BusinessId.Occurrences | yelp_parser/yelp_parser/spiders/test.py:88-89 | every occurrence collected from the link targets matches the pattern |
| BusinessId.OccurrencesFirst | yelp_parser/yelp_parser/spiders/test.py:88-89 | the first occurrence collected is the leftmost one of the first link target, in document order, that has one |
| BusinessId.OccurrencesEmpty | yelp_parser/yelp_parser/spiders/test.py:88-90 | no occurrence is collected exactly when no link target contains one |
| BusinessId.LazyEnd | yelp_parser/yelp_parser/spiders/test.py:94 | the lazy `(.*?)\?` stops at the first `?`, with no `?` or line break before it |
| BusinessId.SearchOccurrence | yelp_parser/yelp_parser/spiders/test.py:94 | on an occurrence, `re.search(r"/biz/(.*?)\?", o).group(1)` is the text between `/biz/` and the final `?` |
| BusinessId.LazyEndOfId | yelp_parser/yelp_parser/spiders/test.py:94 | inside an occurrence, the lazy group ends at its final `?` |
| BusinessId.ParseId | yelp_parser/yelp_parser/spiders/test.py:82-95 | fails with `NoBusinessId` exactly when no link target has an occurrence; otherwise `"/biz/" + id + "?"` is the first occurrence and the id, possibly empty, has only `[a-zA-Z0-9-]` characters |
| BusinessId.ParseIdLeftmost | yelp_parser/yelp_parser/spiders/test.py:88-95 | the id is the text between `/biz/` and `?` of the leftmost occurrence in the first link target that has one |
| Fields.PhoneNumberOf | yelp_parser/yelp_parser/spiders/test.py:138-145 | `None` exactly when fewer than two texts; otherwise the second text |
| Fields.CategoriesOf | yelp_parser/yelp_parser/spiders/test.py:212-216 | `None` exactly when the list is empty; otherwise the list unchanged |
| Fields.AddressKey | yelp_parser/yelp_parser/spiders/test.py:173 | `"address" + str(i + 1)` starts with `address` and is never `city`, `state` or `zip_code` |
| Fields.AddressKeyDistinct | yelp_parser/yelp_parser/spiders/test.py:173 | different first positions give different address keys |
| Fields.AddressKeyInjective | yelp_parser/yelp_parser/spiders/test.py:173 | equal address keys come from equal positions |
| Fields.AddressEntries | yelp_parser/yelp_parser/spiders/test.py:172-173 | the address loop never stores under `city`, `state` or `zip_code` |
| Fields.AddressEntryAt | yelp_parser/yelp_parser/spiders/test.py:172-173 | after the loop has passed line `j`, that line is stored under the key of its first position; duplicate lines share the key |
| Fields.AddressEntriesKeys | yelp_parser/yelp_parser/spiders/test.py:172-173 | the loop stores exactly one key per distinct line passed |
| Fields.ParseLocation | yelp_parser/yelp_parser/spiders/test.py:168-181 | the loop and the updates after it compute the location: `None` where `IndexError` is raised, the filled dict otherwise |
| Fields.SplitLastLine | yelp_parser/yelp_parser/spiders/test.py:175-177 | on a line with a comma, part 0 is the text before the first comma and part 1 the text between the first and second comma |
| Fields.SplitFirst | yelp_parser/yelp_parser/spiders/test.py:175 | part 0 of a split is the text before the first separator, or the whole text |
| Fields.LocationFails | yelp_parser/yelp_parser/spiders/test.py:168-181 | the location is `None` exactly when there are no lines, the last line has no comma, or fewer than two words follow its first comma |
| Fields.LocationPlace | yelp_parser/yelp_parser/spiders/test.py:175-178 | `city` is the last line's text before its first comma; `state` and `zip_code` are the first and second words between its first and second comma |
| Fields.LocationKeys | yelp_parser/yelp_parser/spiders/test.py:170-178 | a location's keys are the address keys of the lines before the last, `city`, `state` and `zip_code`, and nothing else |
| Fields.LocationAddressAt | yelp_parser/yelp_parser/spiders/test.py:172-178 | a line before the last survives the three updates after the loop under its address key |
| Fields.LocationAddresses | yelp_parser/yelp_parser/spiders/test.py:172-178 | every line before the last is in the location under the key of its first position |
| Fields.ScheduleOf | yelp_parser/yelp_parser/spiders/test.py:226-235 | `None` exactly when fewer than fourteen texts |
| Fields.PairsKeys | yelp_parser/yelp_parser/spiders/test.py:230-232 | the comprehension's keys are exactly the day texts `t[2i]` of its pairs |
| Fields.PairsLastWins | yelp_parser/yelp_parser/spiders/test.py:230-232 | a day holds the hours `t[2i+1]` of the last pair naming it |
| Fields.PairsSize | yelp_parser/yelp_parser/spiders/test.py:230-232 | there are at most as many days as pairs |
| Fields.PairsIgnoreTail | yelp_parser/yelp_parser/spiders/test.py:230-232 | the pairs read nothing after the fourteenth text |
| Fields.ScheduleIgnoresTail | yelp_parser/yelp_parser/spiders/test.py:227-232 | texts after the fourteenth do not change the schedule |
| Fields.ScheduleHolds | yelp_parser/yelp_parser/spiders/test.py:226-235 | with fourteen texts the schedule's days are exactly `t[0], t[2], …, t[12]`, each with the hours of its last pair, and there are at most seven |
| Revealer.CollectAmenities | yelp_parser/yelp_parser/spiders/test.py:304-311 | the accumulation loop computes the amenities text |
| Revealer.Kept | yelp_parser/yelp_parser/spiders/test.py:308-310 | the kept spans all pass the start-anchored filter and come from the input |
| Revealer.KeptAppend | yelp_parser/yelp_parser/spiders/test.py:309-310 | a further span is kept, at the end, exactly when it passes the filter |
| Revealer.JoinTrailingAppend | yelp_parser/yelp_parser/spiders/test.py:311 | appending `text + ", "` distributes over concatenation of the span lists |
| Revealer.AmenitiesAreKeptSpans | yelp_parser/yelp_parser/spiders/test.py:308-311 | the amenities text is each kept span followed by `", "`, in page order |
| Revealer.JoinTrailingShape | yelp_parser/yelp_parser/spiders/test.py:311 | the joined length is the spans' lengths plus two per span, and a non-empty join ends with `", "` |
| Revealer.AmenitiesShape | yelp_parser/yelp_parser/spiders/test.py:308-311 | the amenities length is the kept spans' lengths plus two per kept span; it is empty exactly when nothing is kept; otherwise it ends with `", "` |
| Revealer.AmenitiesAnchoredAtStart | yelp_parser/yelp_parser/spiders/test.py:308-310 | a span with non-letters after its first character is kept, and one starting with a digit is dropped |
| Revealer.Dedup | yelp_parser/yelp_parser/spiders/test.py:270-271 | the keys the header loop inserts are exactly the header texts, each once |
| Revealer.DedupFirstSeen | yelp_parser/yelp_parser/spiders/test.py:270-271 | the keys are in the order their texts are first seen |
| Revealer.DedupDistinct | yelp_parser/yelp_parser/spiders/test.py:270-271 | each key is at its own first position |
| Revealer.InsertHeaders | yelp_parser/yelp_parser/spiders/test.py:270-271 | the header loop yields the deduplicated keys in insertion order, each holding `""` |
| Revealer.IndexOfId | yelp_parser/yelp_parser/spiders/test.py:282 | `list.index` with `WebElement` equality: the first element with that identity |
| Revealer.ContainerIndex | yelp_parser/yelp_parser/spiders/test.py:282 | a container's index is never after its own position |
| Revealer.ContainerIndexDistinct | yelp_parser/yelp_parser/spiders/test.py:282 | with distinct containers, a container's index is its position |
| Revealer.IndicesInRangeAll | yelp_parser/yelp_parser/spiders/test.py:281-283 | the loop's range condition holds exactly when every container's index has a key |
| Revealer.IndexOutOfRangeAt | yelp_parser/yelp_parser/spiders/test.py:273-283 | `list(data.keys())[index]` raises exactly when there is a paragraph and some container's index has no key |
| Revealer.AppendStepAt | yelp_parser/yelp_parser/spiders/test.py:275-283 | one container step adds the piece to the key at the container's index and nothing to any other key |
| Revealer.AppendStep | yelp_parser/yelp_parser/spiders/test.py:274-283 | one container step keeps the dict's keys and advances every key's text by one container |
| Revealer.AppendParagraph | yelp_parser/yelp_parser/spiders/test.py:274-283 | the inner loop succeeds exactly when every container's index has a key; it then keeps the keys and appends to each key what the paragraph contributes to it |
| Revealer.CollectStep | yelp_parser/yelp_parser/spiders/test.py:273-283 | one outer round advances every key from the first `i` paragraphs to the first `i + 1` |
| Revealer.Grouped | yelp_parser/yelp_parser/spiders/test.py:273-283 | a dict keyed by the headers that holds each key's collected text is the grouping |
| Revealer.ParseReadMore | yelp_parser/yelp_parser/spiders/test.py:270-283 | the header and grouping loops compute the grouping, failing where `IndexError` is raised |
| Revealer.RowTextDistinct | yelp_parser/yelp_parser/spiders/test.py:274-283 | with distinct containers, a paragraph appends to key `m` only its piece for container `m` |
| Revealer.CollectedInside | yelp_parser/yelp_parser/spiders/test.py:273-283 | with distinct containers, key `m` collects the texts of the paragraphs inside container `m`, in order |
| Revealer.CollectedNothing | yelp_parser/yelp_parser/spiders/test.py:273-283 | with distinct containers, a key past the last container collects nothing |
| Revealer.CollectedDistinct | yelp_parser/yelp_parser/spiders/test.py:273-283 | with distinct containers, key `m` collects exactly the texts of paragraphs whose markup is in container `m`, else `""` |
| Revealer.ReadMoreGroups | yelp_parser/yelp_parser/spiders/test.py:270-283 | with distinct containers, the keys are the distinct headers in first-seen order, the dict holds exactly the header texts, and the header at position `m` holds, in paragraph order, the texts of the paragraphs inside container `m` (or `""`) |
| Revealer.ReadMoreFails | yelp_parser/yelp_parser/spiders/test.py:273-283 | with distinct containers, the grouping fails exactly when there is a paragraph and more containers than distinct headers |
| Revealer.ReadMoreNoParagraphs | yelp_parser/yelp_parser/spiders/test.py:270-273 | without paragraphs the grouping succeeds and every header holds `""` |
| Spider.First | yelp_parser/yelp_parser/spiders/test.py:100-102 | `.get()` is `None` exactly on an empty result, else the first text |
| Spider.FirstMissing | yelp_parser/yelp_parser/spiders/test.py:29-38 | finds the first field, in parser order, whose API key the record lacks, and finds none exactly when every key is present |
| Spider.LookupSucceeds | yelp_parser/yelp_parser/spiders/test.py:29-38 | when no indexing error arises, every parser can index the API record |
| Spider.Parse | yelp_parser/yelp_parser/spiders/test.py:17-56 | a yielded record carries the id that `parse_id` extracts |
| Spider.ParseIdentifies | yelp_parser/yelp_parser/spiders/test.py:17-25 | a page without an occurrence yields nothing; a record's id is the one in the first occurrence |
| Spider.ParseUsesLeftmostId | yelp_parser/yelp_parser/spiders/test.py:20 | a record's id comes from the leftmost occurrence in the first link target that has one |
| Spider.ParseRevealed | yelp_parser/yelp_parser/spiders/test.py:39-40 | a record's read-more entry is the grouping of the section and its amenities entry is the filtered, joined amenities text |
| Spider.ParseFails | yelp_parser/yelp_parser/spiders/test.py:17-40 | of the faults modelled, `parse` raises exactly when there is no business id, when the API answer cannot be indexed, or when the read-more grouping raises |
| Spider.ParseReconciles | yelp_parser/yelp_parser/spiders/test.py:29-38 | each reconciled field is the call-site reconciliation of its page value with the API entry under its key |
| Spider.ParseKeepsPageValues | yelp_parser/yelp_parser/spiders/test.py:104-108 | a field found in the page is never overridden by the API |
| Spider.ParseFallsBack | yelp_parser/yelp_parser/spiders/test.py:104-108 | a field missing from the page takes the API's entry when the API answered |
| Spider.ParseWithoutApi | yelp_parser/yelp_parser/spiders/test.py:104-108 | without an API answer every field is the page's own value |
| Spider.ParseKeepsRequestUrl | yelp_parser/yelp_parser/spiders/test.py:115-121 | the record's url is always the requested url |

## Left out

- XPath evaluation and `response.request.url`: the query results are inputs (`Spider.Page`).
- The Chrome driver, its navigation, the clicks on "Read more" and "More Attributes",
  `close`, and the `NoSuchElementException` handlers. The elements the browser finds
  are inputs, and `find_elements_by_xpath` never raises.
- `get_api_info`: the environment variable, the HTTP request and `json.loads` become the
  parameter `fetch`.
- Two more uncaught exceptions end a visit with no record and are not modelled: a
  missing "Read more" button makes its click raise `NoSuchElementException`, which no
  `try` catches, and `requests.get` or `json.loads` in `get_api_info` can raise a network
  or decoding error. `Spider.ParseFails` lists the failures among the modelled faults
  only.
- `self.log`, `print` and the `yield` of the record: output plumbing. The record is a
  datatype whose `amenitiesAndMore` field stands for the output key
  `"amenitites_and_more"`, spelled that way in the source.
- Dict insertion order is modelled for the read-more dict, whose order the grouping
  loop reads (`list(data.keys())`). It is not modelled for the location and schedule
  dicts, which are `map`s.
- The API record's values are JSON values, not re-checked against the fields' types.
- Python's general regular-expression semantics: only the three patterns the spider
  uses are modelled, as scanners over characters.
- `Builtins.Words`: `str.split()`'s whitespace is the `isspace` set of Unicode code
  points up to U+3000, as Python 3 defines it; no normalisation is modelled.
- Revealer.ReadMoreGroups: the per-container reading is stated for containers with
  distinct element identities. With a repeated container, `list.index` sends both
  copies' texts to the first copy's key. `Revealer.ReadMoreOf` models that case, and
  `Revealer.ParseReadMore` is proved equal to it, but no separate lemma restates it.
- Reconciliation.Reconcile: requires the API record to be indexable, as each call site
  evaluates `api_info[key]` eagerly. The `KeyError` and `TypeError` that arise otherwise
  are modelled one level up, as failures of `Spider.Parse`.

/** The post-processing the spider applies to the texts its structural queries return,
    field by field. */
module Fields {
  import opened Wrappers
  import opened Builtins

  // ---------------------------------------------------------------------------
  // Phone number and categories

  /** `parse_phone_number`: of the paragraph texts next to the "Phone number" label, the
      second one is the number (the first is the label itself); when there is no second
      text, `IndexError` is caught and the number is `None`. */
  function PhoneNumberOf(texts: seq<string>): (r: Option<string>)
    ensures r.None? <==> |texts| < 2
    ensures r.Some? ==> r.value == texts[1]
  {
    if |texts| >= 2 then Some(texts[1]) else None
  }

  /** `parse_categories`: the category links' texts, in page order, or `None` when there
      are none. */
  function CategoriesOf(texts: seq<string>): (r: Option<seq<string>>)
    ensures r.None? <==> |texts| == 0
    ensures r.Some? ==> r.value == texts
  {
    if |texts| == 0 then None else Some(texts)
  }

  // ---------------------------------------------------------------------------
  // Location

  /** `"address" + str(index + 1)`. */
  function AddressKey(index: nat): (key: string)
    ensures |key| > 7 && key[..7] == "address"
    ensures key != "city" && key != "state" && key != "zip_code"
  {
    var key := "address" + NatToString(index + 1);
    assert key[0] == 'a';
    key
  }

  /** Lines at different first positions get different keys. */
  lemma AddressKeyDistinct(a: nat, b: nat)
    requires a != b
    ensures AddressKey(a) != AddressKey(b)
  {
    if AddressKey(a) == AddressKey(b) {
      AddressKeyInjective(a, b);
    }
  }

  lemma AddressKeyInjective(a: nat, b: nat)
    requires AddressKey(a) == AddressKey(b)
    ensures a == b
  {
    assert AddressKey(a)[7..] == NatToString(a + 1);
    assert AddressKey(b)[7..] == NatToString(b + 1);
    NatToStringInjective(a + 1, b + 1);
  }

  /** The entries the address loop has stored after its first `n` rounds: the line
      `lines[j]` goes under the key of `lines.index(lines[j])`. */
  function AddressEntries(lines: seq<string>, n: nat): (entries: map<string, string>)
    requires n <= |lines|
    ensures forall k :: k in entries ==> k != "city" && k != "state" && k != "zip_code"
  {
    if n == 0 then map[]
    else AddressEntries(lines, n - 1)[AddressKey(FirstIndex(lines, lines[n - 1])) := lines[n - 1]]
  }

  /** The keys of `AddressEntries(lines, n)`: one per distinct line among the first `n`,
      named after the line's first position in the whole list. */
  function AddressKeys(lines: seq<string>, n: nat): set<string>
    requires n <= |lines|
  {
    set j | 0 <= j < n :: AddressKey(FirstIndex(lines, lines[j]))
  }

  /** Every line the loop has passed is stored under the key of its first position;
      equal lines share one key. */
  lemma {:induction false} AddressEntryAt(lines: seq<string>, n: nat, j: nat)
    requires j < n <= |lines|
    ensures AddressKey(FirstIndex(lines, lines[j])) in AddressEntries(lines, n)
    ensures AddressEntries(lines, n)[AddressKey(FirstIndex(lines, lines[j]))] == lines[j]
  {
    var i, i' := FirstIndex(lines, lines[j]), FirstIndex(lines, lines[n - 1]);
    if i == i' {
      assert lines[j] == lines[i] == lines[n - 1];
    } else {
      AddressKeyDistinct(i, i');
      AddressEntryAt(lines, n - 1, j);
    }
  }

  /** Nothing but those keys is stored. */
  lemma {:induction false} AddressEntriesKeys(lines: seq<string>, n: nat)
    requires n <= |lines|
    ensures AddressEntries(lines, n).Keys == AddressKeys(lines, n)
  {
    if n > 0 {
      AddressEntriesKeys(lines, n - 1);
      var key := AddressKey(FirstIndex(lines, lines[n - 1]));
      assert AddressEntries(lines, n).Keys == AddressEntries(lines, n - 1).Keys + {key};
      forall k | k in AddressKeys(lines, n)
        ensures k in AddressKeys(lines, n - 1) + {key}
      {
        var j :| 0 <= j < n && k == AddressKey(FirstIndex(lines, lines[j]));
        if j < n - 1 {
          assert k in AddressKeys(lines, n - 1);
        }
      }
    }
  }

  /** What `parse_location` computes from the address lines, `None` where its `try` block
      raises `IndexError`: no lines at all, no comma in the last line, or fewer than two
      words after that comma. */
  function LocationOf(lines: seq<string>): Option<map<string, string>> {
    if |lines| == 0 then None
    else
      var parts := Split(lines[|lines| - 1], ',');
      if |parts| < 2 then None
      else
        var rest := Words(parts[1]);
        if |rest| < 2 then None
        else Some(AddressEntries(lines, |lines| - 1)["city" := parts[0]]["zip_code" := rest[1]]["state" := rest[0]])
  }

  /** `parse_location`'s `try` block. */
  method ParseLocation(lines: seq<string>) returns (location: Option<map<string, string>>)
    ensures location == LocationOf(lines)
  {
    var entries: map<string, string> := map[];
    // location_full[0:-1]
    var n := if |lines| == 0 then 0 else |lines| - 1;
    var j := 0;
    while j < n
      invariant 0 <= j <= n
      invariant entries == AddressEntries(lines, j)
    {
      var line := lines[j];
      entries := entries[AddressKey(FirstIndex(lines, line)) := line];
      j := j + 1;
    }
    if |lines| == 0 {
      return None;  // location_full[-1]
    }
    var parts := Split(lines[|lines| - 1], ',');
    entries := entries["city" := parts[0]];
    if |parts| < 2 {
      return None;  // split(",")[1]
    }
    var rest := Words(parts[1]);
    if |rest| < 2 {
      return None;  // rest[1]
    }
    entries := entries["zip_code" := rest[1]]["state" := rest[0]];
    location := Some(entries);
  }

  /** The text of `s` before its first `sep`, or all of it when there is none. */
  function Before(s: string, sep: char): string {
    if sep in s then s[..IndexOf(s, sep)] else s
  }

  /** The text of `s` between its first and second `sep` (or its end). */
  function Between(s: string, sep: char): string
    requires sep in s
  {
    Before(s[IndexOf(s, sep) + 1..], sep)
  }

  /** The split of the last line that `parse_location` relies on: the city before the
      first comma, the words between the first and second comma. */
  lemma SplitLastLine(last: string)
    requires ',' in last
    ensures Split(last, ',')[0] == Before(last, ',')
    ensures Split(last, ',')[1] == Between(last, ',')
  {
    var k := IndexOf(last, ',');
    assert Split(last, ',')[1] == Split(last[k + 1..], ',')[0];
    SplitFirst(last[k + 1..], ',');
  }

  /** The location is `None` exactly when there are no lines, the last line has no comma,
      or fewer than two words follow its first comma. */
  lemma {:induction false} LocationFails(lines: seq<string>)
    ensures LocationOf(lines).None? <==>
      |lines| == 0 || ',' !in lines[|lines| - 1] || |Words(Between(lines[|lines| - 1], ','))| < 2
  {
    if |lines| > 0 && ',' in lines[|lines| - 1] {
      SplitLastLine(lines[|lines| - 1]);
    }
  }

  /** A location holds `city`, the text of the last line before its first comma, and as
      `state` and `zip_code` the first two words of the text between its first and
      second comma. */
  lemma {:induction false} LocationPlace(lines: seq<string>)
    requires LocationOf(lines).Some?
    ensures ',' in lines[|lines| - 1] && |Words(Between(lines[|lines| - 1], ','))| >= 2
    ensures LocationOf(lines).value["city"] == Before(lines[|lines| - 1], ',')
    ensures LocationOf(lines).value["state"] == Words(Between(lines[|lines| - 1], ','))[0]
    ensures LocationOf(lines).value["zip_code"] == Words(Between(lines[|lines| - 1], ','))[1]
  {
    SplitLastLine(lines[|lines| - 1]);
  }

  /** A location's keys: one `addressN` per distinct line before the last, `city`,
      `state` and `zip_code`, and nothing else. */
  lemma {:induction false} LocationKeys(lines: seq<string>)
    requires LocationOf(lines).Some?
    ensures forall k :: k in LocationOf(lines).value <==>
      k in AddressKeys(lines, |lines| - 1) || k == "city" || k == "state" || k == "zip_code"
  {
    var entries := AddressEntries(lines, |lines| - 1);
    var parts := Split(lines[|lines| - 1], ',');
    var rest := Words(parts[1]);
    var location := entries["city" := parts[0]]["zip_code" := rest[1]]["state" := rest[0]];
    assert LocationOf(lines).value == location;
    assert forall k :: k in location <==> k in entries || k == "city" || k == "zip_code" || k == "state";
    AddressEntriesKeys(lines, |lines| - 1);
  }

  /** The line `lines[j]` before the last survives the three updates after the loop,
      whose keys no address key can equal. */
  lemma {:induction false} LocationAddressAt(lines: seq<string>, j: nat)
    requires LocationOf(lines).Some? && j < |lines| - 1
    ensures AddressKey(FirstIndex(lines, lines[j])) in LocationOf(lines).value
    ensures LocationOf(lines).value[AddressKey(FirstIndex(lines, lines[j]))] == lines[j]
  {
    var entries := AddressEntries(lines, |lines| - 1);
    var parts := Split(lines[|lines| - 1], ',');
    var rest := Words(parts[1]);
    assert LocationOf(lines).value == entries["city" := parts[0]]["zip_code" := rest[1]]["state" := rest[0]];
    AddressEntryAt(lines, |lines| - 1, j);
  }

  /** A location holds each line before the last under the key of the line's first
      position. */
  lemma {:induction false} LocationAddresses(lines: seq<string>)
    requires LocationOf(lines).Some?
    ensures forall j :: 0 <= j < |lines| - 1 ==>
      && AddressKey(FirstIndex(lines, lines[j])) in LocationOf(lines).value
      && LocationOf(lines).value[AddressKey(FirstIndex(lines, lines[j]))] == lines[j]
  {
    forall j | 0 <= j < |lines| - 1
      ensures AddressKey(FirstIndex(lines, lines[j])) in LocationOf(lines).value
      ensures LocationOf(lines).value[AddressKey(FirstIndex(lines, lines[j]))] == lines[j]
    {
      LocationAddressAt(lines, j);
    }
  }

  /** The first part of a split is the text before the first separator. */
  lemma SplitFirst(s: string, sep: char)
    ensures Split(s, sep)[0] == Before(s, sep)
  {
  }

  // ---------------------------------------------------------------------------
  // Schedule

  /** The day name of the `i`-th (day, hours) pair of the schedule texts. */
  function Day(texts: seq<string>, i: nat): string
    requires 2 * i + 1 < |texts|
  {
    texts[2 * i]
  }

  /** The opening hours of the `i`-th (day, hours) pair of the schedule texts. */
  function Hours(texts: seq<string>, i: nat): string
    requires 2 * i + 1 < |texts|
  {
    texts[2 * i + 1]
  }

  /** The dict comprehension `{t[i * 2]: t[i * 2 + 1] for i in range(n)}`. */
  function Pairs(texts: seq<string>, n: nat): map<string, string>
    requires 2 * n <= |texts|
  {
    if n == 0 then map[] else Pairs(texts, n - 1)[Day(texts, n - 1) := Hours(texts, n - 1)]
  }

  /** `parse_schedule`: the first 14 texts paired into day -> hours, or `None` when
      fewer than 14 texts make the comprehension raise `IndexError`. */
  function ScheduleOf(texts: seq<string>): (r: Option<map<string, string>>)
    ensures r.None? <==> |texts| < 14
  {
    if |texts| < 14 then None else Some(Pairs(texts, 7))
  }

  /** The keys are the day names of the pairs. */
  lemma {:induction false} PairsKeys(texts: seq<string>, n: nat)
    requires 2 * n <= |texts|
    ensures forall k :: k in Pairs(texts, n) <==> exists i :: 0 <= i < n && Day(texts, i) == k
  {
    if n > 0 {
      PairsKeys(texts, n - 1);
      forall k
        ensures k in Pairs(texts, n) <==> exists i :: 0 <= i < n && Day(texts, i) == k
      {
        if k == Day(texts, n - 1) {
          assert k in Pairs(texts, n);
        } else if exists i :: 0 <= i < n && Day(texts, i) == k {
          var i :| 0 <= i < n && Day(texts, i) == k;
          assert i < n - 1;
        }
      }
    }
  }

  /** A day's hours are those of the LAST pair naming it. */
  lemma {:induction false} PairsLastWins(texts: seq<string>, n: nat, i: nat)
    requires 2 * n <= |texts| && i < n
    requires forall i' :: i < i' < n ==> Day(texts, i') != Day(texts, i)
    ensures Day(texts, i) in Pairs(texts, n)
    ensures Pairs(texts, n)[Day(texts, i)] == Hours(texts, i)
  {
    if i < n - 1 {
      PairsLastWins(texts, n - 1, i);
    }
  }

  /** There are at most as many days as pairs. */
  lemma {:induction false} PairsSize(texts: seq<string>, n: nat)
    requires 2 * n <= |texts|
    ensures |Pairs(texts, n)| <= n
  {
    if n > 0 {
      PairsSize(texts, n - 1);
      var m := Pairs(texts, n - 1);
      var d := Day(texts, n - 1);
      if d in m {
        assert m[d := Hours(texts, n - 1)].Keys == m.Keys;
      } else {
        assert m[d := Hours(texts, n - 1)].Keys == m.Keys + {d};
      }
    }
  }

  /** Texts after the fourteenth do not matter. */
  lemma {:induction false} PairsIgnoreTail(texts: seq<string>, n: nat)
    requires 2 * n <= 14 <= |texts|
    ensures Pairs(texts, n) == Pairs(texts[..14], n)
  {
    if n > 0 {
      PairsIgnoreTail(texts, n - 1);
    }
  }

  lemma ScheduleIgnoresTail(texts: seq<string>)
    requires |texts| >= 14
    ensures ScheduleOf(texts) == ScheduleOf(texts[..14])
  {
    PairsIgnoreTail(texts, 7);
  }

  /** With 14 or more texts the schedule maps each day named in the first seven pairs to
      the hours of the last pair naming it, and has at most seven days. */
  lemma ScheduleHolds(texts: seq<string>)
    requires |texts| >= 14
    ensures forall k :: k in ScheduleOf(texts).value <==> exists i :: 0 <= i < 7 && Day(texts, i) == k
    ensures forall i :: 0 <= i < 7 && (forall i' :: i < i' < 7 ==> Day(texts, i') != Day(texts, i)) ==>
      Day(texts, i) in ScheduleOf(texts).value && ScheduleOf(texts).value[Day(texts, i)] == Hours(texts, i)
    ensures |ScheduleOf(texts).value| <= 7
  {
    PairsKeys(texts, 7);
    PairsSize(texts, 7);
    forall i | 0 <= i < 7 && (forall i' :: i < i' < 7 ==> Day(texts, i') != Day(texts, i))
      ensures Day(texts, i) in Pairs(texts, 7) && Pairs(texts, 7)[Day(texts, i)] == Hours(texts, i)
    {
      PairsLastWins(texts, 7, i);
    }
  }
}

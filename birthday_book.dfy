/** The second address book: the same name-to-record dictionary operations, and
    the query that lists whom to congratulate in the coming week, grouped under
    the `DD.MM.YYYY` text of the congratulation date. `today` is a parameter. */
module BirthdayBook {
  import opened Sequences
  import opened Calendar

  /** `ContactNotFound` is the KeyError of `delete`; `InvalidDate` the ValueError
      that `replace(year=...)` raises for 29 February in a common year or for the
      year 10000. */
  datatype Error = ContactNotFound | InvalidDate

  datatype Outcome = Pass | Fail(error: Error)

  datatype Result<T> = Success(value: T) | Failure(error: Error)

  /** What the query reads of one record: its name and its optional birthday. */
  datatype Entry = Entry(name: string, birthday: Option<Date>)

  /** A contact as the query sees it. */
  class Record {
    const name: string
    var birthday: Option<Date>

    constructor (name: string, birthday: Option<Date>)
      ensures this.name == name && this.birthday == birthday
    {
      this.name := name;
      this.birthday := birthday;
    }
  }

  /** The entry's birthday, if any, is a real date. */
  predicate Dated(e: Entry)
  {
    e.birthday.Some? ==> ValidDate(e.birthday.value)
  }

  /** Every birthday in the entries is a real date. */
  predicate WellFormed(es: seq<Entry>)
  {
    forall i :: 0 <= i < |es| ==> Dated(es[i])
  }

  function Names(es: seq<Entry>): (ns: seq<string>)
    ensures |ns| == |es| && forall i :: 0 <= i < |es| ==> ns[i] == es[i].name
  {
    seq(|es|, i requires 0 <= i < |es| => es[i].name)
  }

  // ---------------------------------------------------------------------------
  // One record

  /** The occurrence of birthday `b` the query looks at: this year's, or next
      year's when this year's is already past; None where `replace` raises. */
  function Occurrence(b: Date, today: Date): Option<Date>
    requires ValidDate(b) && ValidDate(today)
  {
    match ReplaceYear(b, today.year)
    case None => None
    case Some(thisYear) =>
      if Before(thisYear, today) then ReplaceYear(b, today.year + 1) else Some(thisYear)
  }

  /** The chosen occurrence falls on the birthday's day and month, is never before
      today, is this year's exactly when that one is not past, and so lies zero or
      more days ahead: the `0 <=` half of the window test never fails. */
  lemma OccurrenceSpec(b: Date, today: Date)
    requires ValidDate(b) && ValidDate(today)
    ensures var c := Occurrence(b, today);
            c.Some? ==> && ValidDate(c.value)
                        && c.value.month == b.month && c.value.day == b.day
                        && !Before(c.value, today)
                        && ToOrdinal(c.value) >= ToOrdinal(today)
                        && (c.value.year == today.year <==> !Before(Date(today.year, b.month, b.day), today))
                        && (c.value.year == today.year || c.value.year == today.year + 1)
  {
    var c := Occurrence(b, today);
    if c.Some? {
      BeforeIsOrdinalOrder(c.value, today);
    }
  }

  /** The occurrence is missing, and the query raises, exactly for a 29 February
      birthday whose chosen year is not a leap year, or when next year's date is
      needed in the year 9999. */
  lemma OccurrenceFails(b: Date, today: Date)
    requires ValidDate(b) && ValidDate(today)
    ensures var thisYear := Date(today.year, b.month, b.day);
            var feb29 := b.month == 2 && b.day == 29;
            Occurrence(b, today).None? <==>
              (feb29 && !IsLeapYear(today.year))
              || (!(feb29 && !IsLeapYear(today.year)) && Before(thisYear, today)
                  && (today.year == MaxYear || (feb29 && !IsLeapYear(today.year + 1))))
  {
  }

  /** What one record contributes to the result. */
  datatype Step = Skip | Congratulate(key: string) | Raise

  function StepOf(e: Entry, today: Date): Step
    requires e.birthday.Some? ==> ValidDate(e.birthday.value)
    requires ValidDate(today)
  {
    match e.birthday
    case None => Skip
    case Some(b) =>
      match Occurrence(b, today)
      case None => Raise
      case Some(c) =>
        if 0 <= ToOrdinal(c) - ToOrdinal(today) <= 7 then Congratulate(Format(MoveOffWeekend(c)))
        else Skip
  }

  /** A record is congratulated exactly when it has a birthday whose chosen
      occurrence is 0 to 7 days from today, and its key is then the text of a
      weekday 0 to 9 days from today: the occurrence itself, or the Monday after
      it when it falls on a weekend. */
  lemma StepSpec(e: Entry, today: Date, key: string)
    requires e.birthday.Some? ==> ValidDate(e.birthday.value)
    requires ValidDate(today)
    ensures StepOf(e, today) == Congratulate(key) <==>
              && e.birthday.Some?
              && Occurrence(e.birthday.value, today).Some?
              && var c := Occurrence(e.birthday.value, today).value;
                 ToOrdinal(c) - ToOrdinal(today) <= 7 && key == Format(MoveOffWeekend(c))
    ensures StepOf(e, today) == Congratulate(key) ==>
              var d := ParseDate(key);
              && ValidDate(d) && Format(d) == key && Weekday(d) < 5
              && 0 <= ToOrdinal(d) - ToOrdinal(today) <= 9
  {
    if e.birthday.Some? {
      var b := e.birthday.value;
      OccurrenceSpec(b, today);
      if Occurrence(b, today).Some? {
        var c := Occurrence(b, today).value;
        var d := MoveOffWeekend(c);
        MoveOffWeekendSpec(c);
        FormatRoundTrip(d);
      }
    }
  }

  // ---------------------------------------------------------------------------
  // The loop of the query, over what each record contributes

  /** `upcoming_birthdays[key].append(name)` on a `defaultdict(list)`. */
  function Append(acc: map<string, seq<string>>, key: string, name: string): map<string, seq<string>>
  {
    acc[key := (if key in acc then acc[key] else []) + [name]]
  }

  /** The loop over the records' contributions `st`, their names `ns` alongside:
      a `Raise` aborts it, a `Congratulate` appends the name under its key. */
  function Collect(st: seq<Step>, ns: seq<string>): Result<map<string, seq<string>>>
    requires |st| == |ns|
    decreases |st|
  {
    if st == [] then Success(map[])
    else
      match Collect(st[..|st| - 1], ns[..|ns| - 1])
      case Failure(err) => Failure(err)
      case Success(acc) =>
        match st[|st| - 1]
        case Skip => Success(acc)
        case Raise => Failure(InvalidDate)
        case Congratulate(key) => Success(Append(acc, key, ns[|ns| - 1]))
  }

  /** The names congratulated on `key`, in order. */
  function Chosen(st: seq<Step>, ns: seq<string>, key: string): seq<string>
    requires |st| == |ns|
    decreases |st|
  {
    if st == [] then []
    else
      var prev := Chosen(st[..|st| - 1], ns[..|ns| - 1], key);
      if st[|st| - 1] == Congratulate(key) then prev + [ns[|ns| - 1]] else prev
  }

  /** The loop fails exactly when some record raises; when it succeeds, a key is
      present exactly when some name is chosen for it, and holds those names. */
  lemma {:induction false} CollectSpec(st: seq<Step>, ns: seq<string>)
    requires |st| == |ns|
    ensures Collect(st, ns).Failure? <==> Raise in st
    ensures Collect(st, ns).Failure? ==> Collect(st, ns).error == InvalidDate
    ensures Collect(st, ns).Success? ==>
              forall key :: (key in Collect(st, ns).value <==> Chosen(st, ns, key) != [])
                            && (key in Collect(st, ns).value ==> Collect(st, ns).value[key] == Chosen(st, ns, key))
    decreases |st|
  {
    if st != [] {
      var init := st[..|st| - 1];
      CollectSpec(init, ns[..|ns| - 1]);
      assert st == init + [st[|st| - 1]];
    }
  }

  /** A name is chosen for `key` exactly when it stands beside a `Congratulate(key)`. */
  lemma {:induction false} ChosenMembers(st: seq<Step>, ns: seq<string>, key: string, n: string)
    requires |st| == |ns|
    ensures n in Chosen(st, ns, key) <==> exists i :: 0 <= i < |st| && ns[i] == n && st[i] == Congratulate(key)
    decreases |st|
  {
    if st != [] {
      var last := |st| - 1;
      var st', ns' := st[..last], ns[..last];
      ChosenMembers(st', ns', key, n);
      if n in Chosen(st, ns, key) {
        if n in Chosen(st', ns', key) {
          var i :| 0 <= i < last && ns'[i] == n && st'[i] == Congratulate(key);
          assert ns[i] == n && st[i] == Congratulate(key);
        } else {
          assert ns[last] == n && st[last] == Congratulate(key);
        }
      } else {
        forall i | 0 <= i < |st| && ns[i] == n ensures st[i] != Congratulate(key) {
          if i < last {
            assert st'[i] == st[i] && ns'[i] == ns[i];
          }
        }
      }
    }
  }

  /** With distinct names, the name beside a `Congratulate(key)` is chosen once
      for that key, and every other name is not chosen for it. */
  lemma {:induction false} ChosenOnce(st: seq<Step>, ns: seq<string>, i: nat, key: string)
    requires |st| == |ns| && Distinct(ns) && i < |st|
    ensures st[i] == Congratulate(key) ==> multiset(Chosen(st, ns, key))[ns[i]] == 1
    ensures st[i] != Congratulate(key) ==> ns[i] !in Chosen(st, ns, key)
    decreases |st|
  {
    var last := |st| - 1;
    var st', ns' := st[..last], ns[..last];
    assert Distinct(ns') by {
      forall a, b | 0 <= a < b < |ns'| ensures ns'[a] != ns'[b] {
        assert ns'[a] == ns[a] && ns'[b] == ns[b];
      }
    }
    if i == last {
      ChosenMembers(st', ns', key, ns[last]);
      forall j | 0 <= j < last ensures ns'[j] != ns[last] {
        assert ns'[j] == ns[j];
      }
      assert multiset(Chosen(st', ns', key))[ns[last]] == 0;
    } else {
      ChosenOnce(st', ns', i, key);
      assert st'[i] == st[i] && ns'[i] == ns[i];
      assert ns[last] != ns[i];
    }
  }

  /** One more record: the loop over the first `i + 1` contributions is the loop
      over the first `i` followed by contribution `i`. */
  lemma CollectNext(st: seq<Step>, ns: seq<string>, i: nat, acc: map<string, seq<string>>)
    requires |st| == |ns| && i < |st|
    requires Collect(st[..i], ns[..i]) == Success(acc)
    ensures st[i] == Skip ==> Collect(st[..i + 1], ns[..i + 1]) == Success(acc)
    ensures st[i] == Raise ==> Collect(st[..i + 1], ns[..i + 1]).Failure?
    ensures st[i].Congratulate? ==> Collect(st[..i + 1], ns[..i + 1]) == Success(Append(acc, st[i].key, ns[i]))
  {
    assert st[..i + 1][..i] == st[..i];
    assert ns[..i + 1][..i] == ns[..i];
  }

  /** Once the loop over a prefix fails, so does the loop over everything. */
  lemma {:induction false} CollectAborts(st: seq<Step>, ns: seq<string>, n: nat)
    requires |st| == |ns| && n <= |st|
    requires Collect(st[..n], ns[..n]).Failure?
    ensures Collect(st, ns) == Failure(InvalidDate)
    decreases |st| - n
  {
    CollectSpec(st[..n], ns[..n]);
    if n < |st| {
      assert st[..n + 1][..n] == st[..n];
      assert ns[..n + 1][..n] == ns[..n];
      CollectAborts(st, ns, n + 1);
    } else {
      assert st[..n] == st && ns[..n] == ns;
    }
  }

  // ---------------------------------------------------------------------------
  // The whole query

  /** What each record contributes, in iteration order. */
  function Steps(es: seq<Entry>, today: Date): (st: seq<Step>)
    requires WellFormed(es) && ValidDate(today)
    ensures |st| == |es|
    ensures forall i :: 0 <= i < |es| ==> st[i] == StepOf(es[i], today)
  {
    seq(|es|, i requires 0 <= i < |es| => StepOf(es[i], today))
  }

  /** The query over the records in iteration order. */
  function Upcoming(es: seq<Entry>, today: Date): Result<map<string, seq<string>>>
    requires WellFormed(es) && ValidDate(today)
  {
    Collect(Steps(es, today), Names(es))
  }

  /** The names congratulated on `key`, in iteration order. */
  function Selected(es: seq<Entry>, today: Date, key: string): seq<string>
    requires WellFormed(es) && ValidDate(today)
  {
    Chosen(Steps(es, today), Names(es), key)
  }

  /** Some record makes the query raise. */
  predicate SomeRaises(es: seq<Entry>, today: Date)
    requires WellFormed(es) && ValidDate(today)
  {
    exists i :: 0 <= i < |es| && StepOf(es[i], today) == Raise
  }

  /** The query fails exactly when some record's occurrence cannot be built; when
      it succeeds, a key is present exactly when some record is congratulated on
      it, and its list holds those records' names in iteration order. */
  lemma UpcomingSpec(es: seq<Entry>, today: Date)
    requires WellFormed(es) && ValidDate(today)
    ensures Upcoming(es, today).Failure? <==> SomeRaises(es, today)
    ensures Upcoming(es, today).Failure? ==> Upcoming(es, today).error == InvalidDate
    ensures Upcoming(es, today).Success? ==>
              forall key :: (key in Upcoming(es, today).value <==> Selected(es, today, key) != [])
                            && (key in Upcoming(es, today).value ==> Upcoming(es, today).value[key] == Selected(es, today, key))
  {
    var st := Steps(es, today);
    CollectSpec(st, Names(es));
    if Raise in st {
      var i :| 0 <= i < |st| && st[i] == Raise;
      assert StepOf(es[i], today) == Raise;
    }
  }

  /** A name is listed under `key` exactly when a record with that name is
      congratulated on `key`. */
  lemma SelectedMembers(es: seq<Entry>, today: Date, key: string, n: string)
    requires WellFormed(es) && ValidDate(today)
    ensures n in Selected(es, today, key) <==>
              exists i :: 0 <= i < |es| && es[i].name == n && StepOf(es[i], today) == Congratulate(key)
  {
    var st, ns := Steps(es, today), Names(es);
    ChosenMembers(st, ns, key, n);
    if n in Selected(es, today, key) {
      var i :| 0 <= i < |st| && ns[i] == n && st[i] == Congratulate(key);
      assert es[i].name == n && StepOf(es[i], today) == Congratulate(key);
    }
  }

  /** With distinct names, a congratulated record's name appears exactly once
      under its own key and under no other key. */
  lemma SelectedOnce(es: seq<Entry>, today: Date, i: nat, key: string)
    requires WellFormed(es) && ValidDate(today)
    requires Distinct(Names(es)) && i < |es|
    ensures StepOf(es[i], today) == Congratulate(key) ==> multiset(Selected(es, today, key))[es[i].name] == 1
    ensures StepOf(es[i], today) != Congratulate(key) ==> es[i].name !in Selected(es, today, key)
  {
    ChosenOnce(Steps(es, today), Names(es), i, key);
  }

  /** The result is empty exactly when no record is congratulated. */
  lemma EmptyWhenNoneQualifies(es: seq<Entry>, today: Date)
    requires WellFormed(es) && ValidDate(today)
    requires Upcoming(es, today).Success?
    ensures Upcoming(es, today).value == map[] <==>
              forall i, key :: 0 <= i < |es| ==> StepOf(es[i], today) != Congratulate(key)
  {
    UpcomingSpec(es, today);
    var m := Upcoming(es, today).value;
    if m == map[] {
      forall i, key | 0 <= i < |es| ensures StepOf(es[i], today) != Congratulate(key) {
        SelectedMembers(es, today, key, es[i].name);
        assert key !in m;
      }
    } else {
      var key :| key in m;
      var n := Selected(es, today, key)[0];
      SelectedMembers(es, today, key, n);
    }
  }

  /** The example of a Monday, 10 June 2024: a birthday on Saturday 15 June is
      congratulated on Monday 17 June, one on 9 June has passed and next year's is
      too far, one on the day itself is congratulated that day, and a record
      without a birthday is passed over. */
  lemma ExampleWeek(ann: Entry, bob: Entry, cara: Entry, dan: Entry, today: Date)
    requires today == Date(2024, 6, 10)
    requires ann == Entry("Ann", Some(Date(1990, 6, 15))) && bob == Entry("Bob", Some(Date(1985, 6, 9)))
    requires cara == Entry("Cara", Some(Date(1970, 6, 10))) && dan == Entry("Dan", None)
    ensures WellFormed([ann, bob, cara, dan]) && ValidDate(today)
    ensures Upcoming([ann, bob, cara, dan], today) == Success(map["17.06.2024" := ["Ann"], "10.06.2024" := ["Cara"]])
  {
    var es := [ann, bob, cara, dan];
    assert ValidDate(today) && WellFormed(es) by {
      assert ValidDate(Date(1990, 6, 15)) && ValidDate(Date(1985, 6, 9)) && ValidDate(Date(1970, 6, 10));
    }
    ExampleAnn(ann, today);
    ExampleBob(bob, today);
    ExampleCara(cara, today);
    assert StepOf(dan, today) == Skip;
    UpcomingOfFour(ann, bob, cara, dan, today);
    ExampleCollect();
  }

  /** The query over four records is the loop over their four contributions. */
  lemma UpcomingOfFour(a: Entry, b: Entry, c: Entry, d: Entry, today: Date)
    requires Dated(a) && Dated(b) && Dated(c) && Dated(d) && ValidDate(today)
    ensures WellFormed([a, b, c, d])
    ensures Upcoming([a, b, c, d], today)
            == Collect([StepOf(a, today), StepOf(b, today), StepOf(c, today), StepOf(d, today)],
                       [a.name, b.name, c.name, d.name])
  {
    var es := [a, b, c, d];
    assert Steps(es, today) == [StepOf(a, today), StepOf(b, today), StepOf(c, today), StepOf(d, today)];
    assert Names(es) == [a.name, b.name, c.name, d.name];
  }

  /** The loop over those four contributions. */
  lemma ExampleCollect()
    ensures Collect([Congratulate("17.06.2024"), Skip, Congratulate("10.06.2024"), Skip], ["Ann", "Bob", "Cara", "Dan"])
            == Success(map["17.06.2024" := ["Ann"], "10.06.2024" := ["Cara"]])
  {
    var st := [Congratulate("17.06.2024"), Skip, Congratulate("10.06.2024"), Skip];
    var ns := ["Ann", "Bob", "Cara", "Dan"];
    var m1 := map["17.06.2024" := ["Ann"]];
    var m3 := map["17.06.2024" := ["Ann"], "10.06.2024" := ["Cara"]];
    assert "10.06.2024" != "17.06.2024" by {
      assert "10.06.2024"[1] != "17.06.2024"[1];
    }
    assert Append(map[], "17.06.2024", "Ann") == m1 by {
      assert [] + ["Ann"] == ["Ann"];
    }
    assert Append(m1, "10.06.2024", "Cara") == m3 by {
      assert [] + ["Cara"] == ["Cara"];
    }
    assert st[..0] == [] && ns[..0] == [];
    CollectNext(st, ns, 0, map[]);
    CollectNext(st, ns, 1, m1);
    CollectNext(st, ns, 2, m1);
    CollectNext(st, ns, 3, m3);
    assert st[..4] == st && ns[..4] == ns;
  }

  /** A birthday on Saturday 15 June is congratulated on Monday 17 June. */
  lemma ExampleAnn(e: Entry, today: Date)
    requires e == Entry("Ann", Some(Date(1990, 6, 15))) && today == Date(2024, 6, 10)
    ensures ValidDate(today) && StepOf(e, today) == Congratulate("17.06.2024")
  {
    var c := Date(2024, 6, 15);
    assert Occurrence(Date(1990, 6, 15), Date(2024, 6, 10)) == Some(c);
    assert ToOrdinal(c) - ToOrdinal(Date(2024, 6, 10)) == 5;
    assert Weekday(c) == 5;
    MoveOffWeekendSpec(c);
    var d := MoveOffWeekend(c);
    assert ToOrdinal(d) == ToOrdinal(Date(2024, 6, 17));
    OrdinalInjective(d, Date(2024, 6, 17));
    assert Format(Date(2024, 6, 17)) == "17.06.2024";
  }

  /** A birthday on 9 June has passed, and next year's is too far. */
  lemma ExampleBob(e: Entry, today: Date)
    requires e == Entry("Bob", Some(Date(1985, 6, 9))) && today == Date(2024, 6, 10)
    ensures ValidDate(today) && StepOf(e, today) == Skip
  {
    assert Occurrence(Date(1985, 6, 9), Date(2024, 6, 10)) == Some(Date(2025, 6, 9));
    assert ToOrdinal(Date(2025, 6, 9)) - ToOrdinal(Date(2024, 6, 10)) == 364;
  }

  /** A birthday on the day itself, a Monday, is congratulated that day. */
  lemma ExampleCara(e: Entry, today: Date)
    requires e == Entry("Cara", Some(Date(1970, 6, 10))) && today == Date(2024, 6, 10)
    ensures ValidDate(today) && StepOf(e, today) == Congratulate("10.06.2024")
  {
    var c := Date(2024, 6, 10);
    assert Occurrence(Date(1970, 6, 10), c) == Some(c);
    assert Weekday(c) == 0;
    assert MoveOffWeekend(c) == c;
    assert Format(c) == "10.06.2024";
  }

  /** The body of the query's loop for one record, as the source computes it: a
      record without a birthday is passed over; otherwise the birthday is moved to
      this year, or to next year when this year's is past, kept when it is 0 to 7
      days ahead, moved off a weekend by `7 - weekday` days and written as
      `DD.MM.YYYY`. */
  method Contribution(e: Entry, today: Date) returns (step: Step)
    requires e.birthday.Some? ==> ValidDate(e.birthday.value)
    requires ValidDate(today)
    ensures step == StepOf(e, today)
  {
    if e.birthday.None? {
      return Skip;
    }
    var bday := e.birthday.value;
    var thisYear := ReplaceYear(bday, today.year);
    if thisYear.None? {
      return Raise;
    }
    var occurrence := thisYear.value;
    if Before(occurrence, today) {
      var nextYear := ReplaceYear(bday, today.year + 1);
      if nextYear.None? {
        return Raise;
      }
      occurrence := nextYear.value;
    }
    assert Occurrence(bday, today) == Some(occurrence);
    var days := ToOrdinal(occurrence) - ToOrdinal(today);
    if 0 <= days <= 7 {
      var congratulation := occurrence;
      var weekday := Weekday(congratulation);
      if weekday >= 5 {
        ShiftStaysInRange(congratulation);
        congratulation := AddDays(congratulation, 7 - weekday);
      }
      assert congratulation == MoveOffWeekend(occurrence);
      return Congratulate(Format(congratulation));
    }
    return Skip;
  }

  // ---------------------------------------------------------------------------
  // The book

  /** The dictionary from name to record, with its key order. */
  class AddressBook {
    var data: map<string, Record>
    var order: seq<string>

    /** Every key is its record's name, `order` lists each key once, and every
        stored birthday is a real date. */
    ghost predicate Valid()
      reads this, data.Values
    {
      && Distinct(order)
      && (set k | k in order) == data.Keys
      && (forall k :: k in data ==> data[k].name == k)
      && (forall k :: k in data && data[k].birthday.Some? ==> ValidDate(data[k].birthday.value))
    }

    constructor ()
      ensures Valid() && data == map[] && order == []
    {
      data := map[];
      order := [];
    }

    /** The records as the query sees them, in iteration order. */
    ghost function Entries(): (es: seq<Entry>)
      reads this, data.Values
      requires Valid()
      ensures |es| == |order| && WellFormed(es)
      ensures forall i :: 0 <= i < |order| ==> es[i] == Entry(data[order[i]].name, data[order[i]].birthday)
    {
      seq(|order|, i reads this, data.Values requires 0 <= i < |order| && order[i] in data =>
        Entry(data[order[i]].name, data[order[i]].birthday))
    }

    /** The names in the entries are the keys in order, so no two are equal. */
    lemma EntryNamesDistinct()
      requires Valid()
      ensures Names(Entries()) == order && Distinct(Names(Entries()))
    {
    }

    /** `data.get(name)`. */
    function Find(name: string): (r: Record?)
      reads this
      ensures r != null <==> name in data
      ensures r != null ==> r == data[name]
    {
      if name in data then data[name] else null
    }

    /** Stores the record under its name, replacing any record already there. */
    method AddRecord(record: Record)
      requires Valid()
      requires record.birthday.Some? ==> ValidDate(record.birthday.value)
      modifies this
      ensures Valid()
      ensures data == old(data)[record.name := record]
      ensures order == PutKey(old(order), record.name)
      ensures Find(record.name) == record
      ensures forall n :: n != record.name ==> Find(n) == old(Find(n))
    {
      PutKeySpec(order, record.name);
      data := data[record.name := record];
      order := PutKey(order, record.name);
    }

    /** Deletes the record under this name; a name not in the book fails with
        `ContactNotFound` and the book unchanged. */
    method Delete(name: string) returns (outcome: Outcome)
      requires Valid()
      modifies this
      ensures Valid()
      ensures outcome == if name in old(data) then Pass else Fail(ContactNotFound)
      ensures data == old(data) - {name}
      ensures order == DropKey(old(order), name)
      ensures Find(name) == null
      ensures forall n :: n != name ==> Find(n) == old(Find(n))
    {
      if name !in data {
        assert DropKey(order, name) == order by {
          RemoveFirstSpec(order, name);
        }
        return Fail(ContactNotFound);
      }
      DropKeySpec(order, name);
      data := data - {name};
      order := DropKey(order, name);
      return Pass;
    }

    /** `get_upcoming_birthdays` with `today` given: walks the records in order and
        builds the key-to-names dictionary; the book is not modified. */
    method GetUpcomingBirthdays(today: Date) returns (r: Result<map<string, seq<string>>>)
      requires Valid() && ValidDate(today)
      ensures r == Upcoming(Entries(), today)
    {
      ghost var es := Entries();
      ghost var st, ns := Steps(es, today), Names(es);
      var upcoming: map<string, seq<string>> := map[];
      var i := 0;
      while i < |order|
        invariant 0 <= i <= |order|
        invariant Collect(st[..i], ns[..i]) == Success(upcoming)
      {
        var record := data[order[i]];
        assert es[i] == Entry(record.name, record.birthday) && ns[i] == record.name;
        CollectNext(st, ns, i, upcoming);
        var step := Contribution(Entry(record.name, record.birthday), today);
        match step {
          case Skip =>
          case Raise =>
            CollectAborts(st, ns, i + 1);
            return Failure(InvalidDate);
          case Congratulate(key) =>
            upcoming := upcoming[key := (if key in upcoming then upcoming[key] else []) + [record.name]];
        }
        i := i + 1;
      }
      assert st[..|order|] == st && ns[..|order|] == ns;
      return Success(upcoming);
    }
  }
}

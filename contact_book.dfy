/** The contact data model of the first address book: a validated `Phone`, a
    `Record` holding a name and an ordered list of phones, and an `AddressBook`
    mapping names to records. Python's exceptions become `Outcome` values. */
module ContactBook {
  import opened Sequences
  import opened Text

  /** What the Python raises: `InvalidPhone` and `PhoneNotFound` are its two
      ValueErrors, `ContactNotFound` its KeyError. */
  datatype Error = InvalidPhone | PhoneNotFound | ContactNotFound

  /** Normal completion, or the exception an operation raised. */
  datatype Outcome = Pass | Fail(error: Error)

  /** The check of the `Phone` value setter: only digits, exactly ten of them. */
  predicate IsValidPhone(s: string)
  {
    IsDigits(s) && |s| == 10
  }

  /** A phone number; its setter refuses a value that is not ten digits. */
  class Phone {
    var value: string

    /** Used only by `Create`, after the value was checked. */
    constructor (v: string)
      requires IsValidPhone(v)
      ensures value == v
    {
      value := v;
    }

    /** `Phone(v)`: a fresh phone, or null where the Python raises ValueError. */
    static method Create(v: string) returns (phone: Phone?)
      ensures phone == null <==> !IsValidPhone(v)
      ensures phone != null ==> fresh(phone) && phone.value == v
    {
      if !IsValidPhone(v) {
        return null;
      }
      phone := new Phone(v);
    }

    /** Assignment to `value`: a valid value is stored, an invalid one fails and
        leaves the old value. */
    method SetValue(v: string) returns (outcome: Outcome)
      modifies this
      ensures outcome == if IsValidPhone(v) then Pass else Fail(InvalidPhone)
      ensures value == if IsValidPhone(v) then v else old(value)
    {
      if !IsValidPhone(v) {
        return Fail(InvalidPhone);
      }
      value := v;
      return Pass;
    }
  }

  /** The header `Record.__str__` writes before the phones. */
  function Header(name: string): string
  {
    "Contact name: " + name + ", phones: "
  }

  /** `Record.__str__` of a record with this name and these phone values. */
  function Display(name: string, values: seq<string>): string
  {
    Header(name) + Join(values, "; ")
  }

  /** The display string is the header followed by the phones, and the phones can
      be read back from it, all of them and in list order: a valid phone is never
      empty and has no ';' in it. */
  lemma DisplayRoundTrip(name: string, values: seq<string>)
    requires forall i :: 0 <= i < |values| ==> IsValidPhone(values[i])
    ensures |Display(name, values)| >= |Header(name)|
    ensures Display(name, values)[..|Header(name)|] == Header(name)
    ensures SplitOn(Display(name, values)[|Header(name)|..], "; ") == values
  {
    var s := Display(name, values);
    assert s[|Header(name)|..] == Join(values, "; ");
    assert Separable(values, "; ");
    SplitJoin(values, "; ");
  }

  /** The values of a list of phones, in order. */
  function ValuesOf(ps: seq<Phone>): (vs: seq<string>)
    reads ps
    ensures |vs| == |ps|
    ensures forall i :: 0 <= i < |ps| ==> vs[i] == ps[i].value
  {
    seq(|ps|, i reads ps requires 0 <= i < |ps| => ps[i].value)
  }

  /** Taking phone `k` out of the list takes value `k` out of the values, and keeps
      every other value valid. */
  lemma ValuesAfterRemoval(ps: seq<Phone>, k: nat)
    requires k < |ps|
    ensures ValuesOf(ps[..k] + ps[k + 1..]) == ValuesOf(ps)[..k] + ValuesOf(ps)[k + 1..]
  {
  }

  /** One contact: a name and an ordered list of distinct `Phone` objects. */
  class Record {
    const name: string
    var phones: seq<Phone>

    /** Every phone holds a valid number and no phone object is listed twice
        (each is created by `AddPhone`). */
    ghost predicate Valid()
      reads this, phones
    {
      Distinct(phones) && forall i :: 0 <= i < |phones| ==> IsValidPhone(phones[i].value)
    }

    /** The phone numbers, in list order. */
    function Values(): (vs: seq<string>)
      reads this, phones
      ensures |vs| == |phones|
      ensures forall i :: 0 <= i < |phones| ==> vs[i] == phones[i].value
    {
      ValuesOf(phones)
    }

    constructor (name: string)
      ensures this.name == name && phones == [] && Valid()
    {
      this.name := name;
      phones := [];
    }

    /** Validation runs before the append: a valid number becomes one new phone at
        the end; an invalid one fails with the list unchanged. */
    method AddPhone(number: string) returns (outcome: Outcome)
      requires Valid()
      modifies this
      ensures Valid()
      ensures outcome == if IsValidPhone(number) then Pass else Fail(InvalidPhone)
      ensures Values() == if outcome.Pass? then old(Values()) + [number] else old(Values())
      ensures outcome.Pass? ==> |phones| == |old(phones)| + 1 && phones[..|old(phones)|] == old(phones)
                                && fresh(phones[|old(phones)|])
      ensures outcome.Fail? ==> phones == old(phones)
    {
      var phone := Phone.Create(number);
      if phone == null {
        return Fail(InvalidPhone);
      }
      phones := phones + [phone];
      return Pass;
    }

    /** The first phone whose value is `number`, or null when there is none. */
    method FindPhone(number: string) returns (phone: Phone?)
      ensures phone == null <==> number !in Values()
      ensures phone != null ==> phone == phones[IndexOf(Values(), number)] && phone.value == number
    {
      var i := 0;
      while i < |phones|
        invariant 0 <= i <= |phones|
        invariant forall j :: 0 <= j < i ==> phones[j].value != number
      {
        if phones[i].value == number {
          return phones[i];
        }
        i := i + 1;
      }
      return null;
    }

    /** Removes the first phone with this number and reports whether there was one;
        nothing else moves or changes. */
    method RemovePhone(number: string) returns (removed: bool)
      requires Valid()
      modifies this
      ensures Valid()
      ensures removed <==> number in old(Values())
      ensures Values() == RemoveFirst(old(Values()), number)
      ensures var k := IndexOf(old(Values()), number);
              phones == if removed then old(phones)[..k] + old(phones)[k + 1..] else old(phones)
    {
      ghost var k := IndexOf(Values(), number);
      var phone := FindPhone(number);
      if phone == null {
        return false;
      }
      ghost var before := phones;
      RemoveDistinctAt(before, k);
      RemoveFirstSpec(Values(), number);
      ValuesAfterRemoval(before, k);
      DistinctAfterRemoval(before, k);
      phones := RemoveFirst(phones, phone);
      return true;
    }

    /** Finds the first phone with `oldNumber` and assigns `newNumber` to it through
        the validating setter. A missing old number or an invalid new one fails and
        changes nothing; otherwise exactly that position changes. */
    method EditPhone(oldNumber: string, newNumber: string) returns (outcome: Outcome)
      requires Valid()
      modifies phones
      ensures Valid()
      ensures phones == old(phones)
      ensures outcome == if oldNumber !in old(Values()) then Fail(PhoneNotFound)
                         else if !IsValidPhone(newNumber) then Fail(InvalidPhone)
                         else Pass
      ensures Values() == if outcome.Pass? then old(Values())[IndexOf(old(Values()), oldNumber) := newNumber]
                          else old(Values())
    {
      var phone := FindPhone(oldNumber);
      if phone == null {
        return Fail(PhoneNotFound);
      }
      ghost var k := IndexOf(Values(), oldNumber);
      outcome := phone.SetValue(newNumber);
      assert forall j :: 0 <= j < |phones| && j != k ==> phones[j] != phones[k];
    }

    /** `str(record)`: the header with the name, then the phone numbers, which
        can be read back from it in list order. */
    function ToString(): (s: string)
      reads this, phones
      requires Valid()
      ensures |s| >= |Header(name)| && s[..|Header(name)|] == Header(name)
      ensures SplitOn(s[|Header(name)|..], "; ") == Values()
    {
      DisplayRoundTrip(name, Values());
      Display(name, Values())
    }
  }

  /** In a distinct list the first occurrence of the element at `k` is at `k`, so
      `list.remove` of that element takes out position `k`. */
  lemma RemoveDistinctAt<T>(s: seq<T>, k: nat)
    requires Distinct(s) && k < |s|
    ensures RemoveFirst(s, s[k]) == s[..k] + s[k + 1..]
  {
    assert forall j :: 0 <= j < k ==> s[j] != s[k];
    assert IndexOf(s, s[k]) == k;
  }

  /** Taking one element out of a distinct list leaves a distinct list. */
  lemma DistinctAfterRemoval<T>(s: seq<T>, k: nat)
    requires Distinct(s) && k < |s|
    ensures Distinct(s[..k] + s[k + 1..])
  {
    var r := s[..k] + s[k + 1..];
    forall a, b | 0 <= a < b < |r| ensures r[a] != r[b] {
      var a' := if a < k then a else a + 1;
      var b' := if b < k then b else b + 1;
      assert r[a] == s[a'] && r[b] == s[b'];
    }
  }

  /** The book: a dictionary from a contact's name to its record. `order` is the
      dictionary's key order (insertion order). */
  class AddressBook {
    var data: map<string, Record>
    var order: seq<string>

    /** Every key is its record's name; `order` lists each key once. */
    ghost predicate Valid()
      reads this
    {
      && Distinct(order)
      && (set k | k in order) == data.Keys
      && forall k :: k in data ==> data[k].name == k
    }

    constructor ()
      ensures Valid() && data == map[] && order == []
    {
      data := map[];
      order := [];
    }

    /** `data.get(name)`: the record stored under this name, or null. */
    function Find(name: string): (r: Record?)
      reads this
      ensures r != null <==> name in data
      ensures r != null ==> r == data[name]
      ensures Valid() && r != null ==> r.name == name
    {
      if name in data then data[name] else null
    }

    /** Stores the record under its name, replacing any record already there. */
    method AddRecord(record: Record)
      requires Valid()
      modifies this
      ensures Valid()
      ensures data == old(data)[record.name := record]
      ensures order == PutKey(old(order), record.name)
      ensures Find(record.name) == record
      ensures forall n :: n != record.name ==> Find(n) == old(Find(n))
    {
      PutKeySpec(order, record.name);
      data := data[record.name := record];
      order := PutKey(order, record.name);
    }

    /** Deletes the record under this name; a name not in the book fails with
        `ContactNotFound` and the book unchanged. */
    method Delete(name: string) returns (outcome: Outcome)
      requires Valid()
      modifies this
      ensures Valid()
      ensures outcome == if name in old(data) then Pass else Fail(ContactNotFound)
      ensures data == old(data) - {name}
      ensures order == DropKey(old(order), name)
      ensures Find(name) == null
      ensures forall n :: n != name ==> Find(n) == old(Find(n))
    {
      if name !in data {
        assert DropKey(order, name) == order by {
          RemoveFirstSpec(order, name);
        }
        return Fail(ContactNotFound);
      }
      DropKeySpec(order, name);
      data := data - {name};
      order := DropKey(order, name);
      return Pass;
    }
  }

  /** The demonstration at the end of the module, record part: each printed
      outcome stated as an assertion. */
  method RecordDemonstration()
  {
    var john := new Record("John");
    assert IsValidPhone("1234567890") && IsValidPhone("5555555555");
    var o := john.AddPhone("1234567890");
    o := john.AddPhone("5555555555");
    assert john.Values() == ["1234567890", "5555555555"];
    EditDemonstration(john);
  }

  /** The editing, search and failed validation of the demonstration. */
  method EditDemonstration(john: Record)
    requires john.Valid() && john.Values() == ["1234567890", "5555555555"]
    modifies john, john.phones
  {
    assert IsValidPhone("1112223333") && !IsValidPhone("123");
    var o := john.EditPhone("1234567890", "1112223333");
    assert o == Pass && john.Values() == ["1112223333", "5555555555"];
    var phone := john.FindPhone("5555555555");
    assert phone != null && phone.value == "5555555555";
    o := john.AddPhone("123");
    assert o == Fail(InvalidPhone) && john.Values() == ["1112223333", "5555555555"];
  }

  /** The demonstration at the end of the module, book part. */
  method BookDemonstration()
  {
    var book := new AddressBook();
    var john := new Record("John");
    book.AddRecord(john);
    var jane := new Record("Jane");
    book.AddRecord(jane);
    assert book.order == ["John", "Jane"];
    var found := book.Find("John");
    assert found == john;
    var o := book.Delete("Jane");
    assert o == Pass && book.Find("Jane") == null && book.Find("John") == john;
    o := book.Delete("Jane");
    assert o == Fail(ContactNotFound);
  }
}

/** The command handlers of the console bot: the input tokeniser, the handlers
    that read and change the name-to-phone dictionary, and the decorator that
    turns the exceptions they raise into replies. Colours and the read-print
    loop are not modelled; a reply is the message kind, and `Message` gives its
    text. */
module Bot {
  import opened Sequences
  import opened Text

  // ---------------------------------------------------------------------------
  // parse_input

  /** `parse_input`: the whitespace-separated tokens of the line; the first,
      lower-cased, is the command and the rest are the arguments. A line with no
      token gives the empty command and no arguments. */
  function ParseInput(input: string): (r: (string, seq<string>))
  {
    var parts := Words(input);
    if parts == [] then ("", []) else (Lower(parts[0]), parts[1..])
  }

  /** The command is empty exactly when the line is empty or all whitespace, and
      then there are no arguments; otherwise the command is the first token
      lower-cased and the arguments are the other tokens, in order. */
  lemma ParseInputSpec(input: string)
    ensures ParseInput(input).0 == "" <==> forall i :: 0 <= i < |input| ==> IsSpace(input[i])
    ensures ParseInput(input).0 == "" ==> ParseInput(input).1 == []
    ensures ParseInput(input).0 != "" ==>
              && |Words(input)| == 1 + |ParseInput(input).1|
              && ParseInput(input).0 == Lower(Words(input)[0])
              && ParseInput(input).1 == Words(input)[1..]
  {
    WordsEmpty(input);
  }

  /** The command holds no upper-case ASCII letter and no whitespace, and every
      argument is a token: non-empty and free of whitespace. */
  lemma ParseInputTokens(input: string)
    ensures forall i :: 0 <= i < |ParseInput(input).0| ==>
              !('A' <= ParseInput(input).0[i] <= 'Z') && !IsSpace(ParseInput(input).0[i])
    ensures forall j :: 0 <= j < |ParseInput(input).1| ==> IsWord(ParseInput(input).1[j])
  {
    var parts := Words(input);
    if parts != [] {
      var w := parts[0];
      LowerSpec(w);
      forall i | 0 <= i < |w| ensures !IsSpace(Lower(w)[i]) {
        assert !IsSpace(w[i]);
      }
      assert forall j :: 0 <= j < |parts| - 1 ==> parts[1..][j] == parts[j + 1];
    }
  }

  /** Typing a command word and its arguments separated by single spaces gives
      back the lower-cased command and exactly those arguments. */
  lemma {:induction false} ParseTyped(command: string, args: seq<string>)
    requires IsWord(command)
    requires forall j :: 0 <= j < |args| ==> IsWord(args[j])
    ensures ParseInput(Join([command] + args, " ")) == (Lower(command), args)
  {
    var ws := [command] + args;
    assert forall j :: 0 <= j < |ws| ==> IsWord(ws[j]);
    WordsOfJoin(ws);
    assert ws[1..] == args;
  }

  // ---------------------------------------------------------------------------
  // Replies and the input_error decorator

  /** The exceptions that the handlers raise and `input_error` catches. */
  datatype Exception = KeyError | ValueError | IndexError

  /** What a handler returns, without its colour. */
  datatype Reply =
    | ContactAdded
    | ContactUpdated
    | PhoneOf(phone: string)
    | Listing(text: string)
    | NoContacts
    | ContactNotFound
    | EnterNameAndPhone
    | EnterArguments

  /** `input_error`: the reply that stands for each caught exception. */
  function InputError(e: Exception): (r: Reply)
  {
    match e
    case KeyError => ContactNotFound
    case ValueError => EnterNameAndPhone
    case IndexError => EnterArguments
  }

  /** The text shown for a reply. */
  function Message(r: Reply): string
  {
    match r
    case ContactAdded => "Контакт додано."
    case ContactUpdated => "Контакт оновлено."
    case PhoneOf(phone) => phone
    case Listing(text) => text
    case NoContacts => "Немає збережених контактів."
    case ContactNotFound => "Контакт не знайдено."
    case EnterNameAndPhone => "Введіть ім'я та номер телефону, будь ласка."
    case EnterArguments => "Введіть аргументи для команди."
  }

  /** Each exception kind has its own reply, with its own text, and none of them
      is a success reply. */
  lemma InputErrorDistinct(e1: Exception, e2: Exception)
    ensures e1 != e2 ==> InputError(e1) != InputError(e2)
    ensures e1 != e2 ==> Message(InputError(e1)) != Message(InputError(e2))
    ensures InputError(e1) !in {ContactAdded, ContactUpdated, NoContacts}
    ensures !InputError(e1).PhoneOf? && !InputError(e1).Listing?
  {
    var kf, vf, xf := Message(ContactNotFound), Message(EnterNameAndPhone), Message(EnterArguments);
    assert |kf| == 20 && |vf| == 43 && |xf| == 30;
  }

  // ---------------------------------------------------------------------------
  // The contacts dictionary and the handlers

  /** The bot's `contacts` dictionary from name to phone, with its key order. */
  class Contacts {
    var phones: map<string, string>
    var order: seq<string>

    /** `order` lists every key once. */
    ghost predicate Valid()
      reads this
    {
      Distinct(order) && (set k | k in order) == phones.Keys
    }

    constructor ()
      ensures Valid() && phones == map[] && order == []
    {
      phones := map[];
      order := [];
    }
  }

  /** `add_contact`: with exactly a name and a phone, stores the phone under the
      name, replacing any phone already there; any other number of arguments is
      the ValueError of the unpacking, and the dictionary is unchanged. */
  method AddContact(args: seq<string>, contacts: Contacts) returns (reply: Reply)
    requires contacts.Valid()
    modifies contacts
    ensures contacts.Valid()
    ensures reply == if |args| == 2 then ContactAdded else InputError(ValueError)
    ensures |args| != 2 ==> contacts.phones == old(contacts.phones) && contacts.order == old(contacts.order)
    ensures |args| == 2 ==> contacts.phones == old(contacts.phones)[args[0] := args[1]]
    ensures |args| == 2 ==> contacts.order == PutKey(old(contacts.order), args[0])
  {
    if |args| != 2 {
      return InputError(ValueError);
    }
    var name, phone := args[0], args[1];
    PutKeySpec(contacts.order, name);
    contacts.phones := contacts.phones[name := phone];
    contacts.order := PutKey(contacts.order, name);
    return ContactAdded;
  }

  /** `change_contact`: with exactly a name and a phone, replaces the phone of a
      name already present and changes no other entry; a missing name is the
      KeyError, a wrong number of arguments the ValueError, and on either the
      dictionary is unchanged. */
  method ChangeContact(args: seq<string>, contacts: Contacts) returns (reply: Reply)
    requires contacts.Valid()
    modifies contacts
    ensures contacts.Valid()
    ensures contacts.order == old(contacts.order)
    ensures reply == if |args| != 2 then InputError(ValueError)
                     else if args[0] !in old(contacts.phones) then InputError(KeyError)
                     else ContactUpdated
    ensures reply != ContactUpdated ==> contacts.phones == old(contacts.phones)
    ensures reply == ContactUpdated ==> contacts.phones == old(contacts.phones)[args[0] := args[1]]
  {
    if |args| != 2 {
      return InputError(ValueError);
    }
    var name, phone := args[0], args[1];
    if name !in contacts.phones {
      return InputError(KeyError);
    }
    contacts.phones := contacts.phones[name := phone];
    return ContactUpdated;
  }

  /** `show_phone`: the phone stored under the first argument; no argument is the
      IndexError, a missing name the KeyError. Further arguments are ignored. */
  function ShowPhone(args: seq<string>, contacts: Contacts): (r: Reply)
    reads contacts
    ensures r == InputError(IndexError) <==> |args| == 0
    ensures r == InputError(KeyError) <==> |args| > 0 && args[0] !in contacts.phones
    ensures r.PhoneOf? <==> |args| > 0 && args[0] in contacts.phones
    ensures r.PhoneOf? ==> r.phone == contacts.phones[args[0]]
  {
    if |args| == 0 then InputError(IndexError)
    else if args[0] !in contacts.phones then InputError(KeyError)
    else PhoneOf(contacts.phones[args[0]])
  }

  /** The line `show_all` writes for one entry. */
  function Line(name: string, phone: string): string
  {
    name + ": " + phone
  }

  /** The lines for the names in `keys`, in that order. */
  function Lines(keys: seq<string>, phones: map<string, string>): (ls: seq<string>)
    requires forall k :: k in keys ==> k in phones
    ensures |ls| == |keys|
    ensures forall i :: 0 <= i < |keys| ==> ls[i] == Line(keys[i], phones[keys[i]])
  {
    seq(|keys|, i requires 0 <= i < |keys| => Line(keys[i], phones[keys[i]]))
  }

  /** `show_all`: the "no contacts" reply for an empty dictionary; otherwise one
      `name: phone` line per entry, in dictionary order, joined by newlines. */
  method ShowAll(contacts: Contacts) returns (reply: Reply)
    requires contacts.Valid()
    ensures contacts.phones == map[] ==> reply == NoContacts
    ensures contacts.phones != map[] ==>
              reply == Listing(Join(Lines(contacts.order, contacts.phones), "\n"))
  {
    if contacts.phones == map[] {
      return NoContacts;
    }
    var result: seq<string> := [];
    var i := 0;
    while i < |contacts.order|
      invariant 0 <= i <= |contacts.order|
      invariant result == Lines(contacts.order[..i], contacts.phones)
    {
      var name := contacts.order[i];
      result := result + [Line(name, contacts.phones[name])];
      i := i + 1;
    }
    assert contacts.order[..i] == contacts.order;
    return Listing(Join(result, "\n"));
  }

  /** A listing loses nothing: when names and phones are tokens, splitting the
      text on newlines gives one line per entry in dictionary order, and each
      line splits at its first `": "` into the name and its phone. */
  lemma ListingRoundTrip(keys: seq<string>, phones: map<string, string>)
    requires forall k :: k in keys ==> k in phones && IsWord(k) && IsWord(phones[k])
    ensures SplitOn(Join(Lines(keys, phones), "\n"), "\n") == Lines(keys, phones)
    ensures forall i :: 0 <= i < |keys| ==>
              var line := Lines(keys, phones)[i];
              var k := IndexOfSub(line, ": ");
              line[..k] == keys[i] && line[k + 2..] == phones[keys[i]]
  {
    var ls := Lines(keys, phones);
    forall i | 0 <= i < |ls| ensures ls[i] != [] && '\n' !in ls[i] {
      var name, phone := keys[i], phones[keys[i]];
      assert keys[i] in keys;
      assert IsWord(name) && IsWord(phone);
      assert ls[i] == name + ": " + phone;
      forall j | 0 <= j < |ls[i]| ensures ls[i][j] != '\n' {
        if j < |name| {
          assert ls[i][j] == name[j] && !IsSpace(name[j]);
        } else if j < |name| + 2 {
          assert ls[i][j] == ": "[j - |name|];
        } else {
          assert ls[i][j] == phone[j - |name| - 2] && !IsSpace(phone[j - |name| - 2]);
        }
      }
    }
    SplitJoin(ls, "\n");
    forall i | 0 <= i < |keys|
      ensures var k := IndexOfSub(ls[i], ": "); ls[i][..k] == keys[i] && ls[i][k + 2..] == phones[keys[i]]
    {
      LineSplit(keys[i], phones[keys[i]]);
    }
  }

  /** A name without whitespace ends at the first `": "` of its line. */
  lemma LineSplit(name: string, phone: string)
    requires IsWord(name)
    ensures var line := Line(name, phone);
            var k := IndexOfSub(line, ": ");
            k == |name| && line[..k] == name && line[k + 2..] == phone
  {
    var line := Line(name, phone);
    forall j | 0 <= j < |name| ensures !MatchAt(line, ": ", j) {
      if j + 1 < |name| {
        assert line[j + 1] == name[j + 1] && !IsSpace(name[j + 1]);
      } else {
        assert line[j + 1] == ':';
      }
      if j + 2 <= |line| {
        assert line[j..j + 2][1] == line[j + 1];
      }
    }
    assert line[|name|..|name| + 2] == ": ";
    assert MatchAt(line, ": ", |name|);
    var k := IndexOfSub(line, ": ");
    assert k == |name|;
    assert line[..k] == name;
    assert line[k + 2..] == phone;
  }

  // ---------------------------------------------------------------------------
  // A session

  /** Adding and looking up, in the order a user would try them, with the
      argument errors on the way. */
  method SessionLookup()
  {
    var contacts := new Contacts();
    var r := ShowAll(contacts);
    assert r == NoContacts;
    r := AddContact(["John"], contacts);
    assert r == EnterNameAndPhone && contacts.phones == map[];
    r := AddContact(["John", "1234567890"], contacts);
    assert r == ContactAdded && contacts.order == ["John"];
    r := ShowPhone([], contacts);
    assert r == EnterArguments;
    r := ShowPhone(["Jane"], contacts);
    assert r == ContactNotFound;
    r := ShowPhone(["John"], contacts);
    assert r == PhoneOf("1234567890");
  }

  /** Changing an absent and a present contact. */
  method SessionChange()
  {
    var contacts := new Contacts();
    var r := AddContact(["John", "1234567890"], contacts);
    r := ChangeContact(["Jane", "5555555555"], contacts);
    assert r == ContactNotFound && contacts.phones == map["John" := "1234567890"];
    r := ChangeContact(["John", "5555555555"], contacts);
    assert r == ContactUpdated && contacts.phones == map["John" := "5555555555"];
    assert contacts.order == ["John"];
  }

  /** Listing a dictionary of one contact. */
  method SessionList()
  {
    var contacts := new Contacts();
    var r := AddContact(["John", "5555555555"], contacts);
    var lines := Lines(contacts.order, contacts.phones);
    assert lines == ["John: 5555555555"] by {
      assert contacts.order == ["John"] && contacts.phones["John"] == "5555555555";
      assert lines[0] == Line("John", "5555555555") == "John: 5555555555";
    }
    assert Join(lines, "\n") == "John: 5555555555";
    assert "John" in contacts.phones;
    r := ShowAll(contacts);
    assert r == Listing("John: 5555555555");
  }
}

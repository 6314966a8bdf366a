# console_bot address book, modelled in Dafny

This project models the core of a small Python command-line address book.
It has three parts:

- **The contact data model** (`bot/adress_book.py`) is module `ContactBook`.
  A `Phone` accepts only ten ASCII digits. A `Record` holds a name and an
  ordered list of phones: append, first-match find, remove and in-place edit.
  An `AddressBook` maps names to records: upsert, lookup, and delete that fails
  with a KeyError on an absent name.
- **The second address book** (`bot/adress_book_02.py`) is module
  `BirthdayBook`. It repeats the dictionary operations and adds
  `get_upcoming_birthdays`. For each record with a birthday, the query takes
  this year's occurrence, or next year's once this year's has passed. It keeps
  the occurrence when it is 0 to 7 days ahead and moves a Saturday or Sunday to
  the Monday after. It groups the names under the `DD.MM.YYYY` text of that
  date. `today` is a parameter.
- **The simple bot's command handlers** (`bot/bot.py`) are module `Bot`:
  `parse_input`, `add_contact`, `change_contact`, `show_phone`, `show_all`,
  and the `input_error` decorator that turns KeyError, ValueError and
  IndexError into three distinct replies.

Supporting modules:

- `Sequences` holds first-match search, removal of the first match, and the
  key order of a Python dictionary. A new key goes last, overwriting keeps the
  key's place, and `del` removes it.
- `Text` holds `str.isdigit`, `join` with the splitting that reads it back,
  `split()` on Python's whitespace, and `lower()`.
- `Calendar` holds the Gregorian arithmetic of Python's `datetime.date`. Day
  number 1 is 0001-01-01, a Monday. `weekday()` counts from Monday = 0. The
  last date is 9999-12-31, day number 3652059. It also holds
  `replace(year=...)`, `+ timedelta(days=n)`, comparison, and
  `strftime("%d.%m.%Y")`.

Python exceptions become values. `ContactBook` and `BirthdayBook` return an
`Outcome` or `Result` that carries the error kind. `Phone.Create` returns null
where the constructor raises. `Bot` replies with the message kind, and
`Bot.Message` gives the message text without its colour codes.

The classes keep the source's mutable state. `Record.phones` is a sequence of
`Phone` objects, and `EditPhone` changes one of those objects in place. Each
dictionary is a `map` plus an `order` sequence of its keys.

Some behaviours of the code worth knowing when reading the model:

- `Record.__str__` prints only the name and the phones.
- `Record` accepts any name, including the empty one.
- `edit_phone` raises ValueError in two cases, a missing old number and an
  invalid new one. The model keeps them apart as `PhoneNotFound` and
  `InvalidPhone`.
- The upcoming-birthday query does not catch the ValueError of
  `replace(year=...)`. A birthday on 29 February, looked up in a common year,
  makes the whole query fail (`InvalidDate`). So does a birthday that needs
  year 10000.
- The simple bot keeps a plain name-to-phone dictionary and has no birthday
  commands.

## Model

| member | source | states |
|---|---|---|
| Sequences.IndexOf | bot/adress_book.py:68-71 | The first position holding the value, or the length when it is absent; no earlier position holds it |
| Sequences.RemoveFirstSpec | bot/adress_book.py:77 | `list.remove` takes out exactly one occurrence (the first), keeps the elements before it and shifts those after it by one. Python raises ValueError for an absent value; `remove_phone` only removes a phone `find_phone` just found (lines 75-77), so the model's unchanged list for that case is never reached |
| Sequences.PutKeySpec | bot/adress_book.py:106 | Assigning `d[k]` keeps the key order free of repeats, adds exactly `k` to the key set and keeps the order of the keys already there |
| Sequences.DropKeySpec | bot/adress_book.py:115-116 | `del d[k]` on a key that `delete` has checked is present removes exactly `k` from the key set and keeps the order free of repeats |
| Text.SplitJoin | bot/adress_book.py:95 | `sep.join` loses nothing: when no piece is empty or holds the separator's first character, splitting the joined text gives back the pieces in order |
| Text.Words | bot/bot.py:33 | Every token of `split()` is non-empty and free of whitespace |
| Text.WordsEmpty | bot/bot.py:33-35 | `split()` finds no token exactly when the line is empty or all whitespace |
| Text.WordsKeepText | bot/bot.py:33 | The tokens glued together are exactly the line's non-whitespace characters, in order |
| Text.WordsOfJoin | bot/bot.py:33 | Tokens typed with single spaces between them split back into the same tokens |
| Text.LowerSpec | bot/bot.py:36 | `lower()` leaves no upper-case letter, changes nothing else and is idempotent |
| ContactBook.Phone.Create | bot/adress_book.py:34-47 | Creating a phone fails (null) exactly when the value is not ten digits; otherwise the fresh phone holds the value |
| ContactBook.Phone.SetValue | bot/adress_book.py:38-47 | The setter stores a ten-digit value and refuses any other with `InvalidPhone`, keeping the old value |
| ContactBook.Record.AddPhone | bot/adress_book.py:60-64 | A valid number becomes one new phone at the end of the list; an invalid one fails and the list is unchanged, because validation runs before the append |
| ContactBook.Record.FindPhone | bot/adress_book.py:66-71 | Returns the first phone whose value is the number, or null exactly when no phone has it |
| ContactBook.Record.RemovePhone | bot/adress_book.py:73-79 | Returns true exactly when the number is present; removes only the first phone with that number, and the values become those of the list without their first match |
| ContactBook.Record.EditPhone | bot/adress_book.py:81-91 | A missing old number fails with `PhoneNotFound`, an invalid new number with `InvalidPhone`, and both change nothing; otherwise only the first matching position changes, to the new number, and the list keeps its phones and length |
| ContactBook.Record.ToString | bot/adress_book.py:93-96 | `str(record)` starts with `Contact name: <name>, phones: `, and the rest splits on `; ` into the phone numbers in list order |
| ContactBook.DisplayRoundTrip | bot/adress_book.py:95-96 | The display text is the header followed by the valid phone numbers joined by `; `, which read back exactly |
| ContactBook.RemoveDistinctAt | bot/adress_book.py:75-77 | Since no phone object is listed twice, removing the found phone object takes out exactly its position |
| ContactBook.AddressBook.Find | bot/adress_book.py:108-111 | Returns the record stored under the name, or null exactly when the name is absent; a found record carries that name |
| ContactBook.AddressBook.AddRecord | bot/adress_book.py:103-106 | Stores the record under its name and overwrites an existing entry; afterwards `Find` of that name returns it and no other lookup changes; every key stays its record's name |
| ContactBook.AddressBook.Delete | bot/adress_book.py:113-119 | An absent name fails with `ContactNotFound` and leaves the book unchanged; a present one removes only that key, after which `Find` returns null |
| Calendar.BeforeIsOrdinalOrder | bot/adress_book_02.py:41 | Comparing two dates is comparing their day numbers |
| Calendar.OrdinalInjective | bot/adress_book_02.py:45 | Distinct dates have distinct day numbers, so a difference of 0 days means the same date |
| Calendar.OrdinalRange | bot/adress_book_02.py:45 | Every valid date has a day number from 1 to 3652059 |
| Calendar.NextDayOrdinal | bot/adress_book_02.py:54 | The next calendar day is valid and one day number later, up to the last date |
| Calendar.AddDays | bot/adress_book_02.py:54 | Adding `n` days gives a valid date exactly `n` day numbers later |
| Calendar.WeekdayAfter | bot/adress_book_02.py:52-54 | Moving `n` days forward moves the weekday `n` places forward, modulo 7 |
| Calendar.ReplaceYear | bot/adress_book_02.py:38-42 | `replace(year=y)` succeeds exactly for a year from 1 to 9999 that is not a common year paired with 29 February, and then keeps day and month |
| Calendar.ShiftStaysInRange | bot/adress_book_02.py:52-54 | The Monday after any weekend date up to 9999-12-31 exists, so the weekend shift never overflows |
| Calendar.MoveOffWeekendSpec | bot/adress_book_02.py:52-54 | The congratulation date is never a Saturday or Sunday: a Saturday moves 2 days and a Sunday 1 day to Monday, and a weekday stays |
| Calendar.DigitsRoundTrip | bot/adress_book_02.py:57 | Zero-padded digits of a number read back as that number |
| Calendar.FormatRoundTrip | bot/adress_book_02.py:57 | The `DD.MM.YYYY` key reads back as its date |
| Calendar.FormatInjective | bot/adress_book_02.py:57-58 | Two dates share a key exactly when they are the same date |
| BirthdayBook.OccurrenceSpec | bot/adress_book_02.py:38-45 | The chosen occurrence keeps the birthday's day and month and is never before today. It is this year's exactly when that date has not passed, and next year's otherwise. The day difference is never negative |
| BirthdayBook.OccurrenceFails | bot/adress_book_02.py:38-42 | The occurrence cannot be built exactly for 29 February in a common year, or when next year's date is needed after 9999 |
| BirthdayBook.StepSpec | bot/adress_book_02.py:31-58 | A record is congratulated exactly when it has a birthday whose occurrence is 0 to 7 days ahead; its key then names a weekday 0 to 9 days from today |
| BirthdayBook.Contribution | bot/adress_book_02.py:31-58 | The loop body for one record, computed as the source does, yields what that record contributes to the query |
| BirthdayBook.CollectSpec | bot/adress_book_02.py:28-60 | The accumulation fails exactly when some record raises; otherwise a key is present exactly when some name is chosen for it and holds those names |
| BirthdayBook.ChosenMembers | bot/adress_book_02.py:58 | A name is listed under a key exactly when it belongs to a record congratulated on that key |
| BirthdayBook.ChosenOnce | bot/adress_book_02.py:57-58 | With distinct names, each congratulated name is listed once under its own key and under no other |
| BirthdayBook.CollectNext | bot/adress_book_02.py:30-58 | One more record leaves the dictionary alone, aborts, or appends its name under its key |
| BirthdayBook.CollectAborts | bot/adress_book_02.py:38-42 | Once a record raises, the whole query fails with `InvalidDate` |
| BirthdayBook.UpcomingSpec | bot/adress_book_02.py:23-60 | The query fails exactly when some record's occurrence cannot be built; otherwise each key maps to the names of the records congratulated on it, in iteration order, and no other key is present |
| BirthdayBook.SelectedMembers | bot/adress_book_02.py:45-58 | A name is listed under a key exactly when a record with that name is congratulated on that key; records without a birthday never are |
| BirthdayBook.SelectedOnce | bot/adress_book_02.py:57-58 | Each included name appears exactly once, under the key of its congratulation date, and under no other key |
| BirthdayBook.EmptyWhenNoneQualifies | bot/adress_book_02.py:27-60 | A successful result is empty exactly when no record is congratulated |
| BirthdayBook.UpcomingOfFour | bot/adress_book_02.py:30-58 | The query over four records is the accumulation of their four contributions |
| BirthdayBook.ExampleAnn | bot/adress_book_02.py:38-58 | On Monday 2024-06-10, a birthday on 15 June falls on a Saturday and is congratulated under `17.06.2024` |
| BirthdayBook.ExampleBob | bot/adress_book_02.py:38-48 | On 2024-06-10, a birthday on 9 June has passed and next year's is 364 days ahead, so it is skipped |
| BirthdayBook.ExampleCara | bot/adress_book_02.py:38-58 | On 2024-06-10, a birthday on that Monday is congratulated under `10.06.2024` |
| BirthdayBook.ExampleCollect | bot/adress_book_02.py:57-58 | Accumulating those contributions with a skipped fourth gives `{17.06.2024: [Ann], 10.06.2024: [Cara]}` |
| BirthdayBook.ExampleWeek | bot/adress_book_02.py:23-60 | For those records plus one without a birthday, the query returns `{17.06.2024: [Ann], 10.06.2024: [Cara]}` |
| BirthdayBook.AddressBook.EntryNamesDistinct | bot/adress_book_02.py:8-10 | The records' names, in iteration order, are the keys, so no two are equal |
| BirthdayBook.AddressBook.Find | bot/adress_book_02.py:12-14 | Returns the record stored under the name, or null exactly when the name is absent |
| BirthdayBook.AddressBook.AddRecord | bot/adress_book_02.py:8-10 | Stores the record under its name and overwrites an existing entry; `Find` of that name returns it and no other lookup changes |
| BirthdayBook.AddressBook.Delete | bot/adress_book_02.py:16-21 | An absent name fails with `ContactNotFound` and leaves the book unchanged; a present one removes only that key |
| BirthdayBook.AddressBook.GetUpcomingBirthdays | bot/adress_book_02.py:23-60 | The loop over the records in dictionary order returns the query's result for today and does not modify the book |
| Bot.ParseInputSpec | bot/bot.py:28-38 | The command is empty exactly when the line is empty or all whitespace, and then there are no arguments; otherwise it is the first token lower-cased and the arguments are the other tokens in order |
| Bot.ParseInputTokens | bot/bot.py:33-37 | The command has no upper-case letter or whitespace, and every argument is a non-empty token without whitespace |
| Bot.ParseTyped | bot/bot.py:33-38 | A command word and arguments typed with single spaces parse back to the lower-cased command and exactly those arguments |
| Bot.InputErrorDistinct | bot/bot.py:5-22 | KeyError, ValueError and IndexError each map to a reply of its own, with its own text, and none is a success reply |
| Bot.AddContact | bot/bot.py:42-50 | With exactly two arguments it stores the phone under the name (insert or overwrite). Any other count gives the ValueError reply and leaves the dictionary unchanged |
| Bot.ChangeContact | bot/bot.py:52-64 | A wrong argument count gives the ValueError reply and an absent name the KeyError reply, both with the dictionary unchanged; a present name gets the new phone and no other entry changes |
| Bot.ShowPhone | bot/bot.py:66-73 | No argument gives the IndexError reply and an absent name the KeyError reply; otherwise the reply is the stored phone |
| Bot.ShowAll | bot/bot.py:76-87 | An empty dictionary gives the "no contacts" reply; otherwise one `name: phone` line per entry, in dictionary order, joined by newlines |
| Bot.ListingRoundTrip | bot/bot.py:84-87 | When names and phones are tokens, splitting the listing on newlines gives the lines in dictionary order. Each line splits at its first `: ` into the name and its phone |
| Bot.LineSplit | bot/bot.py:86 | A name without whitespace ends exactly at the first `: ` of its line |

Several functions that compute what the source computes carry their
promises in a lemma rather than in their own `ensures`: `Bot.ParseInput`
(bot/bot.py:28-38) in `Bot.ParseInputSpec`, `Bot.ParseInputTokens` and
`Bot.ParseTyped`; `Bot.InputError` (bot/bot.py:5-22) in
`Bot.InputErrorDistinct`; `BirthdayBook.Occurrence`
(bot/adress_book_02.py:38-42) in `BirthdayBook.OccurrenceSpec` and
`BirthdayBook.OccurrenceFails`; `BirthdayBook.StepOf`
(bot/adress_book_02.py:31-58) in `BirthdayBook.StepSpec`;
`BirthdayBook.Upcoming` (bot/adress_book_02.py:23-60) in
`BirthdayBook.UpcomingSpec`, `BirthdayBook.SelectedMembers` and
`BirthdayBook.SelectedOnce`; `Calendar.MoveOffWeekend`
(bot/adress_book_02.py:52-54) in `Calendar.MoveOffWeekendSpec`; and
`Calendar.Format` (bot/adress_book_02.py:57) in `Calendar.FormatRoundTrip`
and `Calendar.FormatInjective`.

The demonstration block at the end of `bot/adress_book.py` (lines 124-162)
appears as `ContactBook.RecordDemonstration`, `ContactBook.EditDemonstration`
and `ContactBook.BookDemonstration`. Each printed outcome there is an assertion.
`Bot.SessionLookup`, `Bot.SessionChange` and `Bot.SessionList` do the same for
the bot's handlers in a typical order.

## Left out

- Saving and loading with `pickle` (`bot/adress_book_02.py:62-78`): file I/O and a foreign serialiser.
- `datetime.today()` (`bot/adress_book_02.py:27`): the wall clock is a parameter, `today`.
- `datetime.strptime` of the stored birthday text (`bot/adress_book_02.py:35`): a record's birthday is already a date here. The `Record` class with a `birthday` field is not part of this model's sources, so a record is a name plus an optional date.
- The read-print loop, its command dispatch, and `colorama` colouring (`bot/bot.py:1-3`, `92-124`): interactive I/O and a foreign library. Replies are message kinds without colour codes.
- The generic `except Exception` branch of `input_error` (`bot/bot.py:23-25`): none of the modelled handlers raises any other exception.
- `Field` and `Name` (`bot/adress_book.py:5-29`): a name is a plain string and is not reassigned.
- Text.IsDigits: models `str.isdigit` on ASCII digits only; other Unicode digits are not modelled.
- Text.Lower: models `lower()` on ASCII letters only; Unicode case mapping is not modelled.
- Calendar.Format: writes the year with four zero-padded digits. Python's `%Y` for years below 1000 depends on the platform's C library.
- ContactBook.Record.Valid: assumes each phone object appears once in a record's list, which holds because `add_phone` always creates a new one. Code that appends the same `Phone` object twice by hand is not modelled.
- Other methods `UserDict` inherits, and iteration order beyond insertion order: not used by the modelled operations.
- BirthdayBook.AddressBook.GetUpcomingBirthdays: returns a `map`, so the key order of the source's `defaultdict` (the order in which each date is first congratulated) is not modelled; the name lists under each key do keep their order.

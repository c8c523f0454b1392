# dm.c: a record table with a CSV line parser

`dm.c` keeps course records (identifier, class name, duration, instructor)
in a growable table backed by one contiguous array. It fills the table from
a comma-separated file and then looks records up and deletes them by
identifier. This project models the two parts of the program that carry its
logic and proves properties of them:

- **The record table** (module `Table`, class `RecordTable`). It models
  `init_record_table`, `resize_record_table`, `add_record`,
  `find_record_by_id` and `remove_record_by_id` over an `array<Record>`
  with the fields `size` and `capacity`. A table starts with 10 slots. It
  doubles its capacity when an append finds it full. It halves its capacity
  when the records a removal leaves number fewer than `capacity / 4`,
  rounded down (that is, `4 * (size + 1) <= capacity`). The
  ghost function `Contents()` gives the records the table holds, in order.
  Every operation is proved against it, and against the pure lookup
  `FirstIndexOf`.
- **The line parser** (module `CsvLine`). It models `parse_csv_line` as a
  method over the line's character array. A quote character toggles the
  "inside quotes" state, and only a comma met outside quotes separates
  fields. The method overwrites every separating comma with NUL, as the C
  code does. It stores fields 0, 1 and 2 as the identifier, class name and
  duration when their separators are met. The instructor is the text after
  the last separator. The method is proved equal to a declarative
  description, `ParseLine`. That function is built on the parity of the
  quotes before a comma (`SplitsAt`) and the n-th separator (`NthSplit`).
- **The record** (module `Records`). It holds the record type, the limits
  `MAX_STRING_LENGTH` (256) and `INITIAL_CAPACITY` (10), and `Bounded`.
  `Bounded` is the text a `strncpy` into a 256-character field keeps.

Four behaviours of the code are easy to misread; the model follows the
code:

- **Quotes.** The quote characters stay part of the field text. The line
  `5,"Intro, to CS",3.50,Dr. Lee` gives the class name `"Intro, to CS"`,
  quotes included, not `Intro, to CS`. `QuotedCommaExample` proves this.
- **Instructor.** The instructor is the text after the last separating
  comma, not everything after the third one. `InstructorAfterLastSplit`
  states this.
- **Missing fields.** A line with fewer than three separators leaves the
  missing fields at the values the record already held. `read_csv` reuses
  one record for every line, so those are the previous line's values
  (indeterminate on the first line). The
  parser's `prior` parameter models this.
- **Minimum capacity.** Shrinking has no floor at `INITIAL_CAPACITY`; it
  stops at 2. Emptying a table of
  two records takes its capacity from 10 to 5 and then to 2. `DrainSession`
  proves this.

The C code works on `char`, that is, on bytes. One Dafny `char` of the
model stands for one C byte, so the bound of 256 counts bytes, and a name
in a multi-byte encoding can be cut in the middle of a character, as
`strncpy` cuts it.

`atoi` and `atof` are library calls whose code is not part of this model.
They are the function parameters `toId` and `toDuration`, and the duration
is an abstract type `Duration`.

## Model

| member | source | states |
|---|---|---|
| Records.Bounded | dm.c:84 | what `strncpy(dst, token, MAX_STRING_LENGTH)` keeps (lines 74 and 84): a prefix of the token of at most 256 characters, the whole token when it fits, and exactly 256 characters otherwise |
| Table.RecordTable.constructor | dm.c:23-31 | a new table is empty, has `INITIAL_CAPACITY` slots, and satisfies the table invariant |
| Table.RecordTable.Resize | dm.c:40-49 | after reallocation the capacity is the new one; size and contents are unchanged |
| Table.RecordTable.Add | dm.c:51-56 | the record is appended after the existing ones; size grows by one; the capacity doubles exactly when the table was full |
| Table.RecordTable.Find | dm.c:118-125 | the result is the index `FirstIndexOf` gives for the table's contents, or None; the table is left unchanged |
| Table.FirstIndexOf | dm.c:119-124 | the index the scan returns, if any, lies inside the table |
| Table.FirstIndexOfSpec | dm.c:119-124 | the index found holds the key and no earlier record does; None means no record holds the key |
| Table.FindInConcat | dm.c:119-124 | the scan over two stretches of records finds the first stretch's match if there is one, and otherwise the second stretch's match shifted by the first stretch's length |
| Table.FindAfterAppend | dm.c:51-56 | after an append, a key found before is found at the same index; otherwise the key is found at the new last index exactly when the new record holds it |
| Table.RecordTable.CloseGap | dm.c:130-132 | the shifting loop leaves in the first `size - 1` slots the old records without the one at `i`, in their old order |
| Table.RecordTable.Remove | dm.c:127-141 | it removes exactly when some record holds the key; it deletes the first such record and keeps the others in order; size drops by one; the capacity halves exactly when the records left number fewer than `capacity / 4`, rounded down (that is, `4 * (size + 1) <= capacity`); a failed removal changes nothing |
| Table.FindAfterRemoveSame | dm.c:127-141 | after the first record with a key is removed, a later duplicate of that key is found at its index shifted down by one |
| Table.FindWithoutFirst | dm.c:129-133 | dropping the record where the scan first finds a key leaves that key findable exactly when a later record holds it, at that record's index shifted down by one |
| Table.FindAfterRemoveOther | dm.c:127-141 | removing a record does not change which record another key finds; its index moves down by one when it lay after the removed slot |
| Table.FindWithoutOther | dm.c:130-133 | removing a record with a different key between two stretches leaves that key's match in place, or shifts it down by one when it lay after the removed record |
| Table.Grown | dm.c:52-53 | the capacity an append leaves is the old one or its double, and a table that was full (but no fuller) has room afterwards |
| Table.Shrunk | dm.c:134-135 | the capacity a removal leaves is at most the old one, stays positive, still holds the records left, and is never below 2 when it shrinks |
| Table.CapacityAfterAdds | dm.c:51-56 | the capacity after n appends to a new table is positive and holds the n records |
| Table.CapacityAfterAddsShape | dm.c:51-56 | the capacity `CapacityAfterAdds(n)` is 10 doubled some number of times, holds all n records, and is the smallest such value |
| Table.Load | dm.c:103-112 | the `add_record` loop of `read_csv`: a new table filled with a sequence of records holds them in order, and its capacity is `CapacityAfterAdds` of their number, so 10 doubled just often enough |
| Table.SessionKeys | dm.c:156-171 | among records keyed 1, 2 and 9, key 2 is at index 1 and key 9 at index 2; among records keyed 1 and 2, key 9 is absent |
| Table.MainSession | dm.c:143-175 | main's `find(2)` and `remove(9)` on a table loaded with ids 1, 2 and 9: `find(2)` returns index 1, and `remove(9)` succeeds and leaves two records; a repeated `remove(9)`, which main does not make, then fails |
| Table.DrainSession | dm.c:133-136 | removing both records from a two-record table moves the capacity from 10 to 5 to 2, below `INITIAL_CAPACITY`, whatever the records' ids |
| CsvLine.QuoteCountIsMultiplicity | dm.c:67-68 | `QuoteCount`, the number of quote toggles so far, is the number of '"' characters in the text read |
| CsvLine.InQuotesParity | dm.c:61-68 | the `in_quotes` flag, toggled at every quote from false, is set exactly when an odd number of quotes has been read |
| CsvLine.SplitsAtOutsideQuotes | dm.c:69 | `SplitsAt` holds exactly at a comma the scan meets while `in_quotes` is clear |
| CsvLine.SplitsAtPrefix | dm.c:66-69 | whether a position separates depends only on the characters before and at it |
| CsvLine.NthSplit | dm.c:69-78 | the n-th separating comma is a comma outside quotes with exactly n separators before it |
| CsvLine.NthSplitOrdered | dm.c:69-78 | separators come in increasing position order |
| CsvLine.NoSplitWithin | dm.c:69-84 | no field contains a separating comma; every field after the first starts just past a separator |
| CsvLine.SplitCountMonotone | dm.c:77 | the separator count of a prefix grows with the prefix |
| CsvLine.NthSplitUnique | dm.c:69-77 | a separator with n separators before it is the n-th one |
| CsvLine.InstructorAfterLastSplit | dm.c:83-84 | the instructor is the bounded text after the last separating comma, or the whole line when there is none |
| CsvLine.NthSplitExtend | dm.c:66-81 | text appended to a line does not move its earlier separators |
| CsvLine.FieldExtend | dm.c:70-78 | a field closed by a separator keeps its text whatever follows it |
| CsvLine.LaterFieldsIgnored | dm.c:72-76 | once three separators are seen, the rest of the line no longer changes the identifier, class name or duration |
| CsvLine.StoreFields | dm.c:66-81 | the fields the scan stores leave the instructor alone, leave the record unchanged on a line without separators, and give a class name of at most 256 characters unless it kept its earlier value |
| CsvLine.ParseLine | dm.c:58-85 | the instructor holds at most 256 characters, and a line without separators only sets the instructor, to the whole line |
| CsvLine.StoreField | dm.c:72-76 | the `switch`: field 0 may change only the identifier, field 1 only the class name (to at most 256 characters), field 2 only the duration; the instructor never changes and later fields change nothing |
| CsvLine.AppendChar | dm.c:66-69 | reading one more character adds one to the quote count for a quote, and one to the separator count for a comma outside quotes |
| CsvLine.PlainText | dm.c:66-69 | text without quotes and commas adds no quote and no separator |
| CsvLine.InsideQuotes | dm.c:67-69 | after an odd number of quotes, text without quotes adds no separator, whatever commas it holds |
| CsvLine.AfterClosedQuotes | dm.c:66-69 | after an even number of quotes, the quote and separator counts of the rest add up |
| CsvLine.CommaAfter | dm.c:69 | a comma after an even number of quotes is the next separator |
| CsvLine.AppendField | dm.c:69-78 | a comma and a field appended outside quotes: the comma is the next separator, and the counts of the field add up |
| CsvLine.EarlierSplitsKept | dm.c:69-78 | appending a comma and a field leaves the earlier separators in place |
| CsvLine.JoinedSeparators | dm.c:66-81 | four fields joined by commas, none separating and the first three with balanced quotes, have exactly the three joining commas as separators |
| CsvLine.JoinedFields | dm.c:66-84 | the fields of such a line are the four joined texts |
| CsvLine.ParseJoined | dm.c:58-85 | parsing such a line stores the four texts as identifier, class name, duration and instructor |
| CsvLine.QuotedClassCounts | dm.c:67-69 | the class name `"Intro, to CS"` holds two quotes and no separator |
| CsvLine.QuotedCommaExample | dm.c:58-85 | `5,"Intro, to CS",3.50,Dr. Lee` parses to identifier `atoi("5")`, class name `"Intro, to CS"` with its quotes, duration `atof("3.50")` and instructor `Dr. Lee` |
| CsvLine.ScanStep | dm.c:66-80 | one step of the scan: how the quote count, the separator count and the separator positions of the prefix read so far change by one character |
| CsvLine.ClosedFieldsStep | dm.c:66-80 | a field already closed keeps its text when the scan reads one more character |
| CsvLine.StoreFieldsPlain | dm.c:67-68 | a character that is not a separator leaves the stored fields and the open field's start unchanged |
| CsvLine.OpenFieldCloses | dm.c:69-71 | a separator closes the open field, whose text runs from `start` to the separator |
| CsvLine.StoreFieldsSplit | dm.c:69-78 | a separator stores the open field as the `switch` says, and the next field starts just past it |
| CsvLine.MarkStep | dm.c:70 | the buffer stays NUL at separators and original text elsewhere, one more position along |
| CsvLine.TokenIntact | dm.c:70-71 | the open field's text is still unmodified in the buffer when its separator is reached |
| CsvLine.ScanPlain | dm.c:67-68 | a quote toggles the quote state, and any other character outside a separator keeps the scan state |
| CsvLine.ScanSplit | dm.c:69-78 | at a comma outside quotes, the scan stores the field, counts it, and moves `start` past the comma |
| CsvLine.CloseField | dm.c:69-78 | the separator branch of the loop keeps the buffer and scan invariants one position further: NUL over the comma, the field stored and counted, `start` past the comma |
| CsvLine.ScanDone | dm.c:83-84 | at the end of the line, storing the open field as the instructor yields `ParseLine` of the original line |
| CsvLine.ParseCsvLine | dm.c:58-85 | the record returned is `ParseLine` of the original line from the caller's record; every separating comma in the buffer is NUL afterwards, and every other character is unchanged |

## Left out

- `read_csv` is not part of this model. That covers opening the file, the header skip, `fgets` with its 1024-character line limit, the newline strip and the per-line call to the parser. Its loop of `add_record` calls is `Load`, which takes the parsed records as a sequence.
- `main`'s `printf` calls and the `printf` inside `resize_record_table` are not modelled; they are output only.
- `free_record_table` is not part of this model; releasing memory has no counterpart in Dafny.
- Allocation failure is not modelled: `malloc` and `realloc` always succeed, so the `perror`/`exit` paths do not appear. `realloc` is modelled as a fresh array plus a copy of the first `size` records, so address reuse by `realloc` is not captured.
- Table.RecordTable.Find: returns an index into the table instead of the record's address. That address being invalidated by a later append or removal is therefore not captured.
- Table.RecordTable.Add: capacity and size are unbounded naturals, so the `size_t` overflow of `capacity * 2` is not modelled.
- CsvLine.ParseCsvLine: `atoi` and `atof` are the parameters `toId` and `toDuration`, and the `int` range of the identifier and the floating-point duration are not modelled. The line is a NUL-free character array; the scan's stop at the terminating NUL is its end.
- Records.Bounded: models the text a field holds after `strncpy`. It does not model the missing terminator when the token has 256 characters or more, or the NUL padding of shorter ones.

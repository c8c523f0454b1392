/** parse_csv_line of dm.c: one line of comma-separated text into a Record.
    A '"' toggles "inside quotes"; only a comma outside quotes separates
    fields, and the quote characters stay part of the field text. */
module CsvLine {
  import opened Records

  /** Number of '"' characters in `s`. */
  function QuoteCount(s: string): nat
  {
    if s == [] then 0 else QuoteCount(s[..|s| - 1]) + (if s[|s| - 1] == '"' then 1 else 0)
  }

  /** QuoteCount is the multiplicity of '"' in the text. */
  lemma {:induction false} QuoteCountIsMultiplicity(s: string)
    ensures QuoteCount(s) == multiset(s)['"']
  {
    if s != [] {
      QuoteCountIsMultiplicity(s[..|s| - 1]);
      assert s == s[..|s| - 1] + [s[|s| - 1]];
    }
  }

  /** The `in_quotes` flag of parse_csv_line after it has read `s`: every
      '"' toggles it, starting from false. */
  function InQuotes(s: string): bool
  {
    if s == [] then false
    else if s[|s| - 1] == '"' then !InQuotes(s[..|s| - 1])
    else InQuotes(s[..|s| - 1])
  }

  /** The toggled flag is the parity of the quotes read. */
  lemma {:induction false} InQuotesParity(s: string)
    ensures InQuotes(s) <==> QuoteCount(s) % 2 == 1
  {
    if s != [] {
      InQuotesParity(s[..|s| - 1]);
    }
  }

  /** Position `k` of `line` holds a separating comma: one preceded by an even
      number of quote characters. */
  predicate SplitsAt(line: string, k: int)
  {
    0 <= k < |line| && line[k] == ',' && QuoteCount(line[..k]) % 2 == 0
  }

  /** A separating comma is exactly a comma the scan meets while its
      `in_quotes` flag is clear. */
  lemma SplitsAtOutsideQuotes(line: string, k: int)
    ensures SplitsAt(line, k) <==> 0 <= k < |line| && line[k] == ',' && !InQuotes(line[..k])
  {
    if 0 <= k < |line| {
      InQuotesParity(line[..k]);
    }
  }

  /** Number of separating commas in `line`. */
  function SplitCount(line: string): nat
  {
    if line == [] then 0
    else SplitCount(line[..|line| - 1]) + (if SplitsAt(line, |line| - 1) then 1 else 0)
  }

  /** Whether a position separates depends only on the text up to it. */
  lemma SplitsAtPrefix(line: string, m: nat, k: int)
    requires m <= |line|
    ensures 0 <= k < m ==> (SplitsAt(line[..m], k) <==> SplitsAt(line, k))
  {
    if 0 <= k < m {
      assert line[..m][..k] == line[..k];
    }
  }

  /** The index of the `n`-th separating comma (counting from 0). */
  function NthSplit(line: string, n: nat): (k: nat)
    requires n < SplitCount(line)
    ensures SplitsAt(line, k) && SplitCount(line[..k]) == n
  {
    var p := line[..|line| - 1];
    if n < SplitCount(p) then
      var k := NthSplit(p, n);
      SplitsAtPrefix(line, |line| - 1, k);
      assert p[..k] == line[..k];
      k
    else
      |line| - 1
  }

  lemma {:induction false} NthSplitOrdered(line: string, n: nat)
    requires 0 < n < SplitCount(line)
    ensures NthSplit(line, n - 1) < NthSplit(line, n)
  {
    var p := line[..|line| - 1];
    if n < SplitCount(p) {
      NthSplitOrdered(p, n);
    }
  }

  /** Where field `n` starts: at 0, or just past the separator before it. */
  function FieldStart(line: string, n: nat): (k: nat)
    requires n <= SplitCount(line)
    ensures k <= |line|
  {
    if n == 0 then 0 else NthSplit(line, n - 1) + 1
  }

  /** Where field `n` ends: at the separator after it, or at the end of the
      line for the field after the last separator. */
  function FieldEnd(line: string, n: nat): (k: nat)
    requires n <= SplitCount(line)
    ensures FieldStart(line, n) <= k <= |line|
  {
    if n == SplitCount(line) then |line|
    else if n == 0 then NthSplit(line, n)
    else NthSplitOrdered(line, n); NthSplit(line, n)
  }

  /** The text of field `n`; field SplitCount(line) is everything after the
      last separator. */
  function Field(line: string, n: nat): string
    requires n <= SplitCount(line)
  {
    line[FieldStart(line, n)..FieldEnd(line, n)]
  }

  /** A field holds no separating comma: every field runs from one separator
      (or the start of the line) to the next one (or the end of the line). */
  lemma {:induction false} NoSplitWithin(line: string, n: nat)
    requires n <= SplitCount(line)
    ensures forall k :: FieldStart(line, n) <= k < FieldEnd(line, n) ==> !SplitsAt(line, k)
    ensures 0 < n ==> SplitsAt(line, FieldStart(line, n) - 1)
  {
    if line != [] {
      var p := line[..|line| - 1];
      if n <= SplitCount(p) {
        NoSplitWithin(p, n);
        forall k | 0 <= k < |p| {
          SplitsAtPrefix(line, |p|, k);
        }
      }
    }
  }

  /** The number of separators grows with the prefix. */
  lemma {:induction false} SplitCountMonotone(line: string, a: nat, b: nat)
    requires a <= b <= |line|
    ensures SplitCount(line[..a]) <= SplitCount(line[..b])
    decreases b - a
  {
    if a < b {
      SplitCountMonotone(line, a, b - 1);
      assert line[..b][..b - 1] == line[..b - 1];
    }
  }

  /** What parse_csv_line has stored into `prior` once it has scanned `line`:
      the identifier, label and duration come from fields 0, 1 and 2 when the
      separator closing that field was seen, and keep their earlier values
      otherwise. */
  function StoreFields(line: string, prior: Record, toId: string -> int, toDuration: string -> Duration): (r: Record)
    ensures r.instructor == prior.instructor
    ensures SplitCount(line) == 0 ==> r == prior
    ensures |r.className| <= MaxStringLength || r.className == prior.className
  {
    var n := SplitCount(line);
    prior.(id := if n > 0 then toId(Field(line, 0)) else prior.id,
           className := if n > 1 then Bounded(Field(line, 1)) else prior.className,
           duration := if n > 2 then toDuration(Field(line, 2)) else prior.duration)
  }

  /** The record parse_csv_line produces from `line`, starting from the
      caller's record `prior`; `toId` and `toDuration` stand for atoi and atof. */
  function ParseLine(line: string, prior: Record, toId: string -> int, toDuration: string -> Duration): (r: Record)
    ensures |r.instructor| <= MaxStringLength
    ensures SplitCount(line) == 0 ==> r == prior.(instructor := Bounded(line))
  {
    assert SplitCount(line) == 0 ==> Field(line, 0) == line[0..|line|];
    StoreFields(line, prior, toId, toDuration).(instructor := Bounded(Field(line, SplitCount(line))))
  }

  /** The instructor is the bounded text after the last separating comma, or
      of the whole line when there is none. */
  lemma {:induction false} InstructorAfterLastSplit(line: string, s: nat, prior: Record,
                                                    toId: string -> int, toDuration: string -> Duration)
    requires s <= |line| && (s == 0 || SplitsAt(line, s - 1))
    requires forall k :: s <= k < |line| ==> !SplitsAt(line, k)
    ensures ParseLine(line, prior, toId, toDuration).instructor == Bounded(line[s..])
  {
    NoSplitWithin(line, SplitCount(line));
  }

  /** A field is not changed by text appended after its closing separator. */
  lemma {:induction false} NthSplitExtend(line: string, ext: string, n: nat)
    requires n < SplitCount(line)
    ensures n < SplitCount(line + ext) && NthSplit(line + ext, n) == NthSplit(line, n)
    decreases |ext|
  {
    var l := line + ext;
    if ext == [] {
      assert l == line;
    } else {
      var e := ext[..|ext| - 1];
      NthSplitExtend(line, e, n);
      assert l[..|l| - 1] == line + e;
      assert SplitCount(l) >= SplitCount(line + e);
    }
  }

  /** A closed field keeps its text whatever follows the line. */
  lemma FieldExtend(line: string, ext: string, n: nat)
    requires n < SplitCount(line)
    ensures n < SplitCount(line + ext) && Field(line + ext, n) == Field(line, n)
  {
    var l := line + ext;
    NthSplitExtend(line, ext, n);
    if 0 < n {
      NthSplitExtend(line, ext, n - 1);
    }
    var a, b := FieldStart(line, n), FieldEnd(line, n);
    assert FieldStart(l, n) == a && FieldEnd(l, n) == b;
    assert l[a..b] == line[a..b];
  }

  /** Separators after the third never alter the identifier, label or duration. */
  lemma LaterFieldsIgnored(line: string, ext: string, prior: Record,
                           toId: string -> int, toDuration: string -> Duration)
    requires SplitCount(line) >= 3
    ensures StoreFields(line + ext, prior, toId, toDuration) == StoreFields(line, prior, toId, toDuration)
  {
    FieldExtend(line, ext, 0);
    FieldExtend(line, ext, 1);
    FieldExtend(line, ext, 2);
  }

  /** One step of the scan: how the quote count, the separators and field
      positions of the prefix `s[..p + 1]` follow from those of `s[..p]`. */
  lemma ScanStep(s: string, p: nat)
    requires p < |s|
    ensures QuoteCount(s[..p + 1]) == QuoteCount(s[..p]) + (if s[p] == '"' then 1 else 0)
    ensures SplitsAt(s, p) <==> s[p] == ',' && QuoteCount(s[..p]) % 2 == 0
    ensures SplitCount(s[..p + 1]) == SplitCount(s[..p]) + (if SplitsAt(s, p) then 1 else 0)
    ensures forall n :: 0 <= n < SplitCount(s[..p]) ==> NthSplit(s[..p + 1], n) == NthSplit(s[..p], n)
    ensures SplitsAt(s, p) ==> NthSplit(s[..p + 1], SplitCount(s[..p])) == p
  {
    var q, q' := s[..p], s[..p + 1];
    assert q'[..|q'| - 1] == q;
    SplitsAtPrefix(s, p + 1, p);
  }

  /** A separator whose prefix holds `n` separators is the `n`-th one. */
  lemma NthSplitUnique(line: string, n: nat, k: nat)
    requires SplitsAt(line, k) && SplitCount(line[..k]) == n
    ensures n < SplitCount(line) && NthSplit(line, n) == k
  {
    ScanStep(line, k);
    SplitCountMonotone(line, k + 1, |line|);
    assert line[..|line|] == line;
    var j := NthSplit(line, n);
    if j < k {
      ScanStep(line, j);
      SplitCountMonotone(line, j + 1, k);
    } else if k < j {
      SplitCountMonotone(line, k + 1, j);
    }
  }

  /** Appending one character: the quote count grows by one for a quote,
      and the separator count by one for a comma met outside quotes. */
  lemma AppendChar(s: string, c: char)
    ensures QuoteCount(s + [c]) == QuoteCount(s) + (if c == '"' then 1 else 0)
    ensures SplitCount(s + [c]) == SplitCount(s) + (if c == ',' && QuoteCount(s) % 2 == 0 then 1 else 0)
  {
    assert (s + [c])[..|s|] == s;
  }

  /** Text without quotes or commas neither toggles the quote state nor
      separates. */
  lemma {:induction false} PlainText(s: string)
    requires forall k :: 0 <= k < |s| ==> s[k] != '"' && s[k] != ','
    ensures QuoteCount(s) == 0 && SplitCount(s) == 0
  {
    if s != [] {
      var p := s[..|s| - 1];
      PlainText(p);
      assert s == p + [s[|s| - 1]];
      AppendChar(p, s[|s| - 1]);
    }
  }

  /** Inside an open quote, text without quotes never separates, whatever
      commas it holds. */
  lemma {:induction false} InsideQuotes(x: string, y: string)
    requires QuoteCount(x) % 2 == 1
    requires forall k :: 0 <= k < |y| ==> y[k] != '"'
    ensures QuoteCount(x + y) == QuoteCount(x) && SplitCount(x + y) == SplitCount(x)
  {
    if y != [] {
      var p := y[..|y| - 1];
      InsideQuotes(x, p);
      assert x + y == (x + p) + [y[|y| - 1]];
      AppendChar(x + p, y[|y| - 1]);
    } else {
      assert x + y == x;
    }
  }

  /** After an even number of quotes the scan is outside quotes, so the
      counts of the rest simply add up. */
  lemma {:induction false} AfterClosedQuotes(x: string, y: string)
    requires QuoteCount(x) % 2 == 0
    ensures QuoteCount(x + y) == QuoteCount(x) + QuoteCount(y)
    ensures SplitCount(x + y) == SplitCount(x) + SplitCount(y)
  {
    if y != [] {
      var p := y[..|y| - 1];
      var c := y[|y| - 1];
      AfterClosedQuotes(x, p);
      assert x + y == (x + p) + [c];
      assert y == p + [c];
      AppendChar(x + p, c);
      AppendChar(p, c);
    } else {
      assert x + y == x;
    }
  }

  /** A comma that follows a prefix with an even number of quotes is the
      separator numbered by the separators in that prefix. */
  lemma CommaAfter(x: string, y: string)
    requires QuoteCount(x) % 2 == 0
    ensures SplitCount(x) < SplitCount(x + [','] + y) && NthSplit(x + [','] + y, SplitCount(x)) == |x|
  {
    var line := x + [','] + y;
    assert line[..|x|] == x;
    assert SplitsAt(line, |x|);
    NthSplitUnique(line, SplitCount(x), |x|);
  }

  /** Appending a comma and a field to a line outside quotes: the comma
      becomes the next separator, the earlier ones stay where they were, and
      the counts of the field add up. */
  lemma AppendField(x: string, f: string)
    requires QuoteCount(x) % 2 == 0
    ensures var line := x + [','] + f;
      QuoteCount(line) == QuoteCount(x) + QuoteCount(f) &&
      SplitCount(line) == SplitCount(x) + 1 + SplitCount(f) &&
      NthSplit(line, SplitCount(x)) == |x| &&
      line[..|x|] == x && line[|x| + 1..] == f
  {
    AppendChar(x, ',');
    AfterClosedQuotes(x + [','], f);
    CommaAfter(x, f);
  }

  /** Appending a comma and a field keeps the earlier separators in place. */
  lemma EarlierSplitsKept(x: string, f: string, n: nat)
    requires n < SplitCount(x)
    ensures n < SplitCount(x + [','] + f) && NthSplit(x + [','] + f, n) == NthSplit(x, n)
  {
    assert x + [','] + f == x + ([','] + f);
    NthSplitExtend(x, [','] + f, n);
  }

  /** Four fields joined by commas, where no field separates and the first
      three hold whole quoted spans: the three commas are the separators. */
  lemma JoinedSeparators(a: string, b: string, c: string, d: string)
    requires QuoteCount(a) % 2 == 0 && QuoteCount(b) % 2 == 0 && QuoteCount(c) % 2 == 0
    requires SplitCount(a) == 0 && SplitCount(b) == 0 && SplitCount(c) == 0 && SplitCount(d) == 0
    ensures var l1 := a + [','] + b; var l2 := l1 + [','] + c; var line := l2 + [','] + d;
      SplitCount(line) == 3 &&
      NthSplit(line, 0) == |a| && NthSplit(line, 1) == |l1| && NthSplit(line, 2) == |l2|
  {
    var l1 := a + [','] + b;
    var l2 := l1 + [','] + c;
    AppendField(a, b);
    assert (QuoteCount(a) + QuoteCount(b)) % 2 == 0;
    AppendField(l1, c);
    assert (QuoteCount(l1) + QuoteCount(c)) % 2 == 0;
    AppendField(l2, d);
    EarlierSplitsKept(l1, c, 0);
    EarlierSplitsKept(l2, d, 0);
    EarlierSplitsKept(l2, d, 1);
  }

  /** The fields of four joined texts are those texts. */
  lemma JoinedFields(a: string, b: string, c: string, d: string)
    requires QuoteCount(a) % 2 == 0 && QuoteCount(b) % 2 == 0 && QuoteCount(c) % 2 == 0
    requires SplitCount(a) == 0 && SplitCount(b) == 0 && SplitCount(c) == 0 && SplitCount(d) == 0
    ensures var line := a + [','] + b + [','] + c + [','] + d;
      SplitCount(line) == 3 &&
      Field(line, 0) == a && Field(line, 1) == b && Field(line, 2) == c && Field(line, 3) == d
  {
    var l1 := a + [','] + b;
    var l2 := l1 + [','] + c;
    var line := l2 + [','] + d;
    JoinedSeparators(a, b, c, d);
    assert line[..|l2|] == l2 && l2[..|l1|] == l1;
    assert line[..|l1|] == l1;
    assert line[|a| + 1..|l1|] == l1[|a| + 1..] == b;
    assert line[|l1| + 1..|l2|] == l2[|l1| + 1..] == c;
    assert line[..|a|] == l1[..|a|] == a;
    assert line[|l2| + 1..] == d;
  }

  /** A line of four fields, where no field separates and the first three
      hold whole quoted spans: parse_csv_line stores the four texts as
      identifier, class name, duration and instructor. */
  lemma ParseJoined(a: string, b: string, c: string, d: string,
                    prior: Record, toId: string -> int, toDuration: string -> Duration)
    requires QuoteCount(a) % 2 == 0 && QuoteCount(b) % 2 == 0 && QuoteCount(c) % 2 == 0
    requires SplitCount(a) == 0 && SplitCount(b) == 0 && SplitCount(c) == 0 && SplitCount(d) == 0
    ensures ParseLine(a + [','] + b + [','] + c + [','] + d, prior, toId, toDuration) ==
      prior.(id := toId(a), className := Bounded(b), duration := toDuration(c), instructor := Bounded(d))
  {
    JoinedFields(a, b, c, d);
  }

  /** The example line below: a quoted class name that holds a comma. */
  const QuotedLine: string := "5,\"Intro, to CS\",3.50,Dr. Lee"

  /** The class name of QuotedLine, quotes included. */
  const QuotedClass: string := "\"Intro, to CS\""

  /** A quoted class name holds two quotes and no separator. */
  lemma QuotedClassCounts()
    ensures QuoteCount(QuotedClass) == 2 && SplitCount(QuotedClass) == 0
  {
    var open, inner := ['"'], "Intro, to CS";
    AppendChar([], '"');
    assert [] + ['"'] == open;
    InsideQuotes(open, inner);
    AppendChar(open + inner, '"');
    assert QuotedClass == (open + inner) + ['"'];
  }

  /** The line `5,"Intro, to CS",3.50,Dr. Lee`: the comma inside the quotes
      does not separate, and the class name keeps its quote characters. */
  lemma QuotedCommaExample(prior: Record, toId: string -> int, toDuration: string -> Duration)
    ensures ParseLine(QuotedLine, prior, toId, toDuration) ==
      prior.(id := toId("5"), className := QuotedClass, duration := toDuration("3.50"), instructor := "Dr. Lee")
  {
    PlainText("5");
    PlainText("3.50");
    PlainText("Dr. Lee");
    QuotedClassCounts();
    assert QuotedLine == "5" + [','] + QuotedClass + [','] + "3.50" + [','] + "Dr. Lee";
    ParseJoined("5", QuotedClass, "3.50", "Dr. Lee", prior, toId, toDuration);
  }

  /** The `switch (field_count)` of parse_csv_line: `token` goes to the
      identifier, the label or the duration for fields 0, 1 and 2; any later
      field is dropped. */
  function StoreField(record: Record, n: nat, token: string, toId: string -> int, toDuration: string -> Duration)
    : (r: Record)
    ensures r.instructor == record.instructor
    ensures n != 0 ==> r.id == record.id
    ensures n != 1 ==> r.className == record.className
    ensures n != 2 ==> r.duration == record.duration
    ensures n == 1 ==> |r.className| <= MaxStringLength
  {
    if n == 0 then record.(id := toId(token))
    else if n == 1 then record.(className := Bounded(token))
    else if n == 2 then record.(duration := toDuration(token))
    else record
  }

  /** The fields closed so far do not change when the scan moves on by one character. */
  lemma {:induction false} ClosedFieldsStep(s: string, p: nat, n: nat)
    requires p < |s| && n < SplitCount(s[..p])
    ensures n < SplitCount(s[..p + 1]) && Field(s[..p + 1], n) == Field(s[..p], n)
  {
    assert s[..p] + [s[p]] == s[..p + 1];
    FieldExtend(s[..p], [s[p]], n);
  }

  /** A character that is not a separator leaves the stored fields as they were. */
  lemma StoreFieldsPlain(s: string, p: nat, prior: Record, toId: string -> int, toDuration: string -> Duration)
    requires p < |s| && !SplitsAt(s, p)
    ensures SplitCount(s[..p + 1]) == SplitCount(s[..p])
    ensures StoreFields(s[..p + 1], prior, toId, toDuration) == StoreFields(s[..p], prior, toId, toDuration)
    ensures FieldStart(s[..p + 1], SplitCount(s[..p])) == FieldStart(s[..p], SplitCount(s[..p]))
  {
    ScanStep(s, p);
    var c := SplitCount(s[..p]);
    if 0 < c { ClosedFieldsStep(s, p, 0); }
    if 1 < c { ClosedFieldsStep(s, p, 1); }
    if 2 < c { ClosedFieldsStep(s, p, 2); }
  }

  /** A separator at `p` closes the open field, whose text is what lies
      between its start and `p`. */
  lemma OpenFieldCloses(s: string, p: nat)
    requires p < |s| && SplitsAt(s, p)
    ensures SplitCount(s[..p + 1]) == SplitCount(s[..p]) + 1
    ensures var c := SplitCount(s[..p]);
      FieldStart(s[..p], c) <= p && Field(s[..p + 1], c) == s[FieldStart(s[..p], c)..p]
  {
    ScanStep(s, p);
    var q, q' := s[..p], s[..p + 1];
    var c := SplitCount(q);
    assert FieldStart(q', c) == FieldStart(q, c);
    assert FieldEnd(q', c) == p;
    assert q'[FieldStart(q, c)..p] == s[FieldStart(q, c)..p];
  }

  /** A separator closes field SplitCount(s[..p]), which is stored as the
      switch of parse_csv_line says; the next field starts just past it. */
  lemma StoreFieldsSplit(s: string, p: nat, prior: Record, toId: string -> int, toDuration: string -> Duration)
    requires p < |s| && SplitsAt(s, p)
    ensures SplitCount(s[..p + 1]) == SplitCount(s[..p]) + 1
    ensures var c := SplitCount(s[..p]);
      StoreFields(s[..p + 1], prior, toId, toDuration) ==
        StoreField(StoreFields(s[..p], prior, toId, toDuration), c, s[FieldStart(s[..p], c)..p], toId, toDuration)
    ensures FieldStart(s[..p + 1], SplitCount(s[..p]) + 1) == p + 1
  {
    ScanStep(s, p);
    var c := SplitCount(s[..p]);
    if 0 < c { ClosedFieldsStep(s, p, 0); }
    if 1 < c { ClosedFieldsStep(s, p, 1); }
    if 2 < c { ClosedFieldsStep(s, p, 2); }
    if c <= 2 {
      OpenFieldCloses(s, p);
    }
  }

  /** The line buffer once the scan has reached `p`: the separators before
      `p` overwritten by NUL, everything else as in the original text `s`. */
  ghost predicate MarkedUpTo(buf: string, s: string, p: nat)
  {
    |buf| == |s| && p <= |s| &&
    (forall k :: 0 <= k < p ==> buf[k] == if SplitsAt(s, k) then '\0' else s[k]) &&
    (forall k :: p <= k < |s| ==> buf[k] == s[k])
  }

  /** Marking position `p` (with NUL exactly when it separates) extends the marked prefix. */
  lemma MarkStep(buf: string, s: string, p: nat)
    requires MarkedUpTo(buf, s, p) && p < |s|
    ensures MarkedUpTo(if SplitsAt(s, p) then buf[p := '\0'] else buf, s, p + 1)
  {
  }

  /** The open field's text is still intact in the buffer: no NUL was written
      after the last separator. */
  lemma TokenIntact(buf: string, s: string, p: nat)
    requires MarkedUpTo(buf, s, p)
    ensures FieldStart(s[..p], SplitCount(s[..p])) <= p
    ensures buf[FieldStart(s[..p], SplitCount(s[..p]))..p] == s[FieldStart(s[..p], SplitCount(s[..p]))..p]
  {
    var c := SplitCount(s[..p]);
    NoSplitWithin(s[..p], c);
    forall k | FieldStart(s[..p], c) <= k < p
      ensures buf[k] == s[k]
    {
      SplitsAtPrefix(s, p, k);
    }
  }

  /** The variables of parse_csv_line once the scan has reached `p`: the
      quote state is the parity of the quotes seen, `fieldCount` the number of
      separators seen, `start` where the open field begins, and `record` holds
      the fields closed so far. */
  ghost predicate ScanState(s: string, p: nat, inQuotes: bool, fieldCount: nat, start: nat, record: Record,
                            prior: Record, toId: string -> int, toDuration: string -> Duration)
  {
    p <= |s| &&
    (inQuotes <==> QuoteCount(s[..p]) % 2 == 1) &&
    fieldCount == SplitCount(s[..p]) &&
    start == FieldStart(s[..p], fieldCount) &&
    record == StoreFields(s[..p], prior, toId, toDuration)
  }

  /** A character other than a separator: only a quote changes anything, and
      it toggles the quote state. */
  lemma ScanPlain(s: string, p: nat, inQuotes: bool, fieldCount: nat, start: nat, record: Record,
                  prior: Record, toId: string -> int, toDuration: string -> Duration)
    requires p < |s| && ScanState(s, p, inQuotes, fieldCount, start, record, prior, toId, toDuration)
    requires !(s[p] == ',' && !inQuotes)
    ensures !SplitsAt(s, p)
    ensures ScanState(s, p + 1, if s[p] == '"' then !inQuotes else inQuotes, fieldCount, start, record,
                      prior, toId, toDuration)
  {
    ScanStep(s, p);
    assert !SplitsAt(s, p);
    StoreFieldsPlain(s, p, prior, toId, toDuration);
    var before, after := QuoteCount(s[..p]), QuoteCount(s[..p + 1]);
    if s[p] == '"' {
      assert ((before + 1) % 2 == 1) == (before % 2 == 0);
    } else {
      assert after == before;
    }
    assert fieldCount == SplitCount(s[..p + 1]);
    assert start == FieldStart(s[..p + 1], fieldCount);
    assert record == StoreFields(s[..p + 1], prior, toId, toDuration);
  }

  /** A separator: the open field is stored and the next one starts past it. */
  lemma ScanSplit(s: string, p: nat, inQuotes: bool, fieldCount: nat, start: nat, record: Record,
                  prior: Record, toId: string -> int, toDuration: string -> Duration)
    requires p < |s| && ScanState(s, p, inQuotes, fieldCount, start, record, prior, toId, toDuration)
    requires s[p] == ',' && !inQuotes
    ensures SplitsAt(s, p) && start <= p
    ensures ScanState(s, p + 1, inQuotes, fieldCount + 1, p + 1,
                      StoreField(record, fieldCount, s[start..p], toId, toDuration), prior, toId, toDuration)
  {
    ScanStep(s, p);
    StoreFieldsSplit(s, p, prior, toId, toDuration);
  }

  /** At the end of the line the open field, still intact in the buffer,
      becomes the instructor, which completes the record ParseLine describes. */
  lemma ScanDone(buf: string, s: string, inQuotes: bool, fieldCount: nat, start: nat, record: Record,
                 prior: Record, toId: string -> int, toDuration: string -> Duration)
    requires MarkedUpTo(buf, s, |s|)
    requires ScanState(s, |s|, inQuotes, fieldCount, start, record, prior, toId, toDuration)
    ensures start <= |buf|
    ensures record.(instructor := Bounded(buf[start..])) == ParseLine(s, prior, toId, toDuration)
  {
    assert s[..|s|] == s;
    TokenIntact(buf, s, |s|);
    assert buf[start..] == buf[start..|s|];
  }

  /** The separator branch of parse_csv_line's loop: at the comma at `p`,
      met outside quotes, write NUL over it, store the field that ends there
      and count it. */
  method CloseField(line: array<char>, ghost s: string, p: nat, inQuotes: bool, fieldCount: nat, start: nat,
                    record: Record, prior: Record, toId: string -> int, toDuration: string -> Duration)
    returns (stored: Record)
    requires p < line.Length && MarkedUpTo(line[..], s, p)
    requires ScanState(s, p, inQuotes, fieldCount, start, record, prior, toId, toDuration)
    requires line[p] == ',' && !inQuotes
    modifies line
    ensures MarkedUpTo(line[..], s, p + 1)
    ensures ScanState(s, p + 1, inQuotes, fieldCount + 1, p + 1, stored, prior, toId, toDuration)
  {
    ghost var buf := line[..];
    ScanSplit(s, p, inQuotes, fieldCount, start, record, prior, toId, toDuration);
    MarkStep(buf, s, p);
    TokenIntact(buf, s, p);
    line[p] := '\0';
    assert line[..] == buf[p := '\0'];
    var token := line[start..p];
    assert token == buf[start..p];
    stored := StoreField(record, fieldCount, token, toId, toDuration);
  }

  /** parse_csv_line: scan `line` once, overwriting every separating comma with
      NUL and storing fields 0, 1 and 2 into the record as their separators are
      met; the instructor takes the text after the last separator. The array
      holds the characters of a C string, so none of them is NUL. */
  method ParseCsvLine(line: array<char>, prior: Record, toId: string -> int, toDuration: string -> Duration)
    returns (record: Record)
    requires forall k :: 0 <= k < line.Length ==> line[k] != '\0'
    modifies line
    ensures record == ParseLine(old(line[..]), prior, toId, toDuration)
    ensures forall k :: 0 <= k < line.Length ==>
      line[k] == if SplitsAt(old(line[..]), k) then '\0' else old(line[k])
  {
    ghost var s := line[..];
    var fieldCount: nat := 0;
    var inQuotes := false;
    var start: nat := 0;
    var p := 0;
    record := prior;
    while p < line.Length
      invariant 0 <= p <= line.Length
      invariant MarkedUpTo(line[..], s, p)
      invariant ScanState(s, p, inQuotes, fieldCount, start, record, prior, toId, toDuration)
    {
      ghost var buf := line[..];
      if line[p] == '"' {
        ScanPlain(s, p, inQuotes, fieldCount, start, record, prior, toId, toDuration);
        MarkStep(buf, s, p);
        inQuotes := !inQuotes;
      } else if line[p] == ',' && !inQuotes {
        record := CloseField(line, s, p, inQuotes, fieldCount, start, record, prior, toId, toDuration);
        fieldCount := fieldCount + 1;
        start := p + 1;
      } else {
        ScanPlain(s, p, inQuotes, fieldCount, start, record, prior, toId, toDuration);
        MarkStep(buf, s, p);
      }
      p := p + 1;
    }
    ScanDone(line[..], s, inQuotes, fieldCount, start, record, prior, toId, toDuration);
    record := record.(instructor := Bounded(line[start..]));
  }
}

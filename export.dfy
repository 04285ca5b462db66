/** `export_to_csv`: the records ranked by count, one Outlook row per
    record, and the top-50 frequency report with its file name. */
module Export {
  import opened Text
  import opened Contacts

  /** One item of `self.email_addresses.items()`. */
  datatype Entry = Entry(email: string, info: Record)

  /** The dictionary's items in insertion order. */
  function Items(t: Table): (r: seq<Entry>)
    ensures |r| == |t.order|
    ensures forall i :: 0 <= i < |r| ==> r[i] == Entry(t.order[i], Lookup(t, t.order[i]))
  {
    seq(|t.order|, i requires 0 <= i < |t.order| => Entry(t.order[i], Lookup(t, t.order[i])))
  }

  // ---- sorted(items, key=count, reverse=True) ----

  /** Places `x` before the first entry whose count is not larger, so that
      among equal counts the entry inserted here stays first. */
  function Insert(x: Entry, s: seq<Entry>): (r: seq<Entry>)
    ensures |r| == |s| + 1
    ensures multiset(r) == multiset(s) + multiset{x}
  {
    if s == [] || s[0].info.count <= x.info.count then [x] + s
    else
      assert s == [s[0]] + s[1..];
      [s[0]] + Insert(x, s[1..])
  }

  /** Python's stable `sorted(..., reverse=True)` by count. */
  function SortByCount(s: seq<Entry>): (r: seq<Entry>)
    ensures multiset(r) == multiset(s)
  {
    if s == [] then []
    else
      assert s == [s[0]] + s[1..];
      Insert(s[0], SortByCount(s[1..]))
  }

  predicate SortedDesc(s: seq<Entry>) {
    forall i, j :: 0 <= i < j < |s| ==> s[i].info.count >= s[j].info.count
  }

  lemma {:induction false} InsertSorted(x: Entry, s: seq<Entry>)
    requires SortedDesc(s)
    ensures SortedDesc(Insert(x, s))
  {
    if !(s == [] || s[0].info.count <= x.info.count) {
      InsertSorted(x, s[1..]);
      var r := Insert(x, s);
      assert r[1..] == Insert(x, s[1..]);
      assert multiset(r[1..]) == multiset(s[1..]) + multiset{x};
      forall j | 1 <= j < |r| ensures r[0].info.count >= r[j].info.count {
        assert r[j] in multiset(r[1..]);
        assert r[j] in s[1..] || r[j] == x;
      }
    }
  }

  /** The export order is by count, largest first. */
  lemma {:induction false} SortByCountSorted(s: seq<Entry>)
    ensures SortedDesc(SortByCount(s))
  {
    if s != [] {
      SortByCountSorted(s[1..]);
      InsertSorted(s[0], SortByCount(s[1..]));
    }
  }

  /** The entries with count `c`, in order. */
  function WithCount(s: seq<Entry>, c: nat): seq<Entry> {
    if s == [] then []
    else (if s[0].info.count == c then [s[0]] else []) + WithCount(s[1..], c)
  }

  lemma {:induction false} InsertWithCount(x: Entry, s: seq<Entry>, c: nat)
    ensures WithCount(Insert(x, s), c) == WithCount([x] + s, c)
  {
    assert ([x] + s)[1..] == s;
    if !(s == [] || s[0].info.count <= x.info.count) {
      var r := Insert(x, s);
      assert r[0] == s[0] && r[1..] == Insert(x, s[1..]);
      InsertWithCount(x, s[1..], c);
      assert ([x] + s[1..])[1..] == s[1..];
      if x.info.count == c {
        assert s[0].info.count != c;
      }
    }
  }

  /** Stability: for every count, the entries with that count come out in
      the order they went in, that is, in first-insertion order. */
  lemma {:induction false} SortByCountStable(s: seq<Entry>, c: nat)
    ensures WithCount(SortByCount(s), c) == WithCount(s, c)
  {
    if s != [] {
      SortByCountStable(s[1..], c);
      InsertWithCount(s[0], SortByCount(s[1..]), c);
      assert ([s[0]] + SortByCount(s[1..]))[1..] == SortByCount(s[1..]);
    }
  }

  // ---- one CSV row per record ----

  /** The four columns `First Name`, `Last Name`, `E-mail Address`,
      `E-mail Display As`. */
  datatype Row = Row(firstName: string, lastName: string, email: string, displayAs: string)

  /** `f"{name} ({email})"` when the record has a name, else the email. */
  function DisplayAs(name: string, email: string): string {
    if name != "" then name + " (" + email + ")" else email
  }

  function ContactRow(e: Entry): Row {
    var name := e.info.name;
    var parts := if name != "" then Words(name) else [];
    Row(if parts != [] then parts[0] else "",
        if |parts| > 1 then Join(parts[1..], " ") else "",
        e.email,
        DisplayAs(name, e.email))
  }

  /** First and last name: the first is the first whitespace-separated
      word of the name (or empty), the last the remaining words joined by
      single spaces (or empty for one word or none); splitting the two
      fields again gives back exactly the words of the name. */
  lemma ContactRowNames(e: Entry)
    ensures var row := ContactRow(e);
            var ws := Words(e.info.name);
            && (ws == [] ==> row.firstName == "" && row.lastName == "")
            && (ws != [] ==> row.firstName == ws[0])
            && (|ws| <= 1 ==> row.lastName == "")
            && (|ws| > 1 ==> row.lastName == Join(ws[1..], " "))
            && Words(row.firstName) + Words(row.lastName) == ws
  {
    var ws := Words(e.info.name);
    if e.info.name == "" {
      assert ws == [];
    }
    var row := ContactRow(e);
    if ws != [] {
      WordsOfJoin([ws[0]]);
      if |ws| > 1 {
        WordsOfJoin(ws[1..]);
        assert ws == [ws[0]] + ws[1..];
      } else {
        assert Words("") == [];
      }
    } else {
      assert Words("") == [];
    }
  }

  /** Reads a name back out of a display value: the text before
      ` (email)`, when the value ends so. */
  function NameFromDisplay(display: string, email: string): string {
    var tail := " (" + email + ")";
    if |display| >= |tail| && display[|display| - |tail|..] == tail
    then display[..|display| - |tail|] else ""
  }

  /** The display column and the address column together determine the
      name: the CSV row loses no information about it. */
  lemma DisplayAsRoundTrip(e: Entry)
    ensures ContactRow(e).email == e.email
    ensures NameFromDisplay(ContactRow(e).displayAs, e.email) == e.info.name
    ensures e.info.name == "" ==> ContactRow(e).displayAs == e.email
  {
    var name := e.info.name;
    var tail := " (" + e.email + ")";
    if name != "" {
      var d := name + tail;
      assert d[|d| - |tail|..] == tail;
      assert d[..|d| - |tail|] == name;
    }
  }

  /** The CSV rows, in export order. */
  function ExportRows(t: Table): (rows: seq<Row>)
    ensures |rows| == |t.order|
  {
    var sorted := SortByCount(Items(t));
    assert |sorted| == |multiset(sorted)| == |multiset(Items(t))| == |Items(t)|;
    seq(|sorted|, i requires 0 <= i < |sorted| => ContactRow(sorted[i]))
  }

  /** The address column of a sequence of rows. */
  function RowEmails(rows: seq<Row>): seq<string> {
    seq(|rows|, i requires 0 <= i < |rows| => rows[i].email)
  }

  function EntryEmails(es: seq<Entry>): (r: seq<string>)
    ensures |r| == |es|
    ensures forall i :: 0 <= i < |es| ==> r[i] == es[i].email
  {
    seq(|es|, i requires 0 <= i < |es| => es[i].email)
  }

  lemma EntryEmailsCons(x: Entry, s: seq<Entry>)
    ensures EntryEmails([x] + s) == [x.email] + EntryEmails(s)
  {
  }

  lemma {:induction false} InsertEmails(x: Entry, s: seq<Entry>)
    ensures multiset(EntryEmails(Insert(x, s))) == multiset(EntryEmails(s)) + multiset{x.email}
  {
    EntryEmailsCons(x, s);
    if !(s == [] || s[0].info.count <= x.info.count) {
      InsertEmails(x, s[1..]);
      EntryEmailsCons(s[0], Insert(x, s[1..]));
      EntryEmailsCons(s[0], s[1..]);
      assert s == [s[0]] + s[1..];
    }
  }

  lemma {:induction false} SortByCountEmails(s: seq<Entry>)
    ensures multiset(EntryEmails(SortByCount(s))) == multiset(EntryEmails(s))
  {
    if s != [] {
      SortByCountEmails(s[1..]);
      InsertEmails(s[0], SortByCount(s[1..]));
      EntryEmailsCons(s[0], s[1..]);
      assert s == [s[0]] + s[1..];
    }
  }

  /** The address column is a permutation of the recorded keys: for a
      well-formed table, every recorded email gets exactly one row and
      every row is a recorded email. */
  lemma ExportRowsCoverTable(t: Table)
    ensures multiset(RowEmails(ExportRows(t))) == multiset(t.order)
    ensures WellFormed(t) ==> forall e :: e in t.records <==> e in RowEmails(ExportRows(t))
  {
    var sorted := SortByCount(Items(t));
    assert RowEmails(ExportRows(t)) == EntryEmails(sorted);
    assert EntryEmails(Items(t)) == t.order;
    SortByCountEmails(Items(t));
    forall e ensures e in RowEmails(ExportRows(t)) <==> e in t.order {
      assert e in t.order <==> e in multiset(t.order);
    }
  }

  // ---- the frequency report ----

  /** `f"{email:<40} - {count} messages"` */
  function CountLine(e: Entry): string {
    PadRight(e.email, 40) + " - " + NatToString(e.info.count) + " messages"
  }

  /** The lines one entry contributes: its count line, and a name line
      only when the name is non-empty. */
  function EntryLines(e: Entry): seq<string> {
    [CountLine(e)] + (if e.info.name != "" then ["  Name: " + e.info.name] else [])
  }

  function LinesOf(es: seq<Entry>): seq<string> {
    if es == [] then [] else LinesOf(es[..|es| - 1]) + EntryLines(es[|es| - 1])
  }

  /** The title line, a rule of 50 `=`, and an empty line. */
  function ReportHeader(title: string): seq<string> {
    [title, seq(50, _ => '='), ""]
  }

  function Min(a: int, b: int): int { if a < b then a else b }

  /** The report file's lines: the header, then the lines of the first 50
      entries of the ranking. */
  function ReportLines(title: string, ranked: seq<Entry>): seq<string> {
    ReportHeader(title) + LinesOf(ranked[..Min(50, |ranked|)])
  }

  /** The loop over `sorted_addresses[:50]` that writes the report. */
  method WriteReport(title: string, ranked: seq<Entry>) returns (lines: seq<string>)
    ensures lines == ReportLines(title, ranked)
    ensures |lines| == 3 + Min(50, |ranked|) + Named(ranked[..Min(50, |ranked|)])
  {
    var top := ranked[..Min(50, |ranked|)];
    lines := WriteEntries(ReportHeader(title), top);
    LinesOfLength(top);
  }

  /** The loop `for email_addr, info in sorted_addresses[:50]`, appending
      each entry's lines after what is already written. */
  method WriteEntries(written: seq<string>, top: seq<Entry>) returns (lines: seq<string>)
    ensures lines == written + LinesOf(top)
  {
    lines := written;
    var i := 0;
    while i < |top|
      invariant 0 <= i <= |top|
      invariant lines == written + LinesOf(top[..i])
    {
      ghost var before := lines;
      lines := lines + [CountLine(top[i])];
      if top[i].info.name != "" {
        lines := lines + ["  Name: " + top[i].info.name];
      }
      WriteStep(written, top, i, before, lines);
      i := i + 1;
    }
    assert top[..i] == top;
  }

  /** One iteration of the report loop appends exactly the entry's lines. */
  lemma WriteStep(written: seq<string>, top: seq<Entry>, i: nat, before: seq<string>, after: seq<string>)
    requires i < |top| && before == written + LinesOf(top[..i])
    requires top[i].info.name != "" ==> after == before + [CountLine(top[i])] + ["  Name: " + top[i].info.name]
    requires top[i].info.name == "" ==> after == before + [CountLine(top[i])]
    ensures after == written + LinesOf(top[..i + 1])
  {
    LinesOfSnoc(top, i);
    assert after == before + EntryLines(top[i]);
  }

  lemma LinesOfSnoc(es: seq<Entry>, i: nat)
    requires i < |es|
    ensures LinesOf(es[..i + 1]) == LinesOf(es[..i]) + EntryLines(es[i])
  {
    assert es[..i + 1][..i] == es[..i];
  }

  /** How many of the entries have a name. */
  function Named(es: seq<Entry>): nat {
    if es == [] then 0 else Named(es[..|es| - 1]) + (if es[|es| - 1].info.name != "" then 1 else 0)
  }

  lemma {:induction false} LinesOfLength(es: seq<Entry>)
    ensures |LinesOf(es)| == |es| + Named(es)
  {
    if es != [] {
      LinesOfLength(es[..|es| - 1]);
    }
  }

  /** A count line starts with the email, padded with spaces to at least
      40 characters, and the count can be read back from it exactly. */
  lemma CountLineRoundTrip(e: Entry)
    ensures var line := CountLine(e);
            var w := |PadRight(e.email, 40)|;
            var digits := NatToString(e.info.count);
            && w == (if |e.email| < 40 then 40 else |e.email|)
            && line[..|e.email|] == e.email
            && (forall i :: |e.email| <= i < w ==> line[i] == ' ')
            && line[w..w + 3] == " - "
            && line[w + 3..|line| - 9] == digits
            && DigitsValue(line[w + 3..|line| - 9]) == e.info.count
            && line[|line| - 9..] == " messages"
  {
    var pad := PadRight(e.email, 40);
    var digits := NatToString(e.info.count);
    var line := CountLine(e);
    assert line == pad + " - " + digits + " messages";
    assert line[..|pad|] == pad;
    assert line[..|e.email|] == pad[..|e.email|];
    assert line[|pad|..|pad| + 3] == " - ";
    assert line[|pad| + 3..|line| - 9] == digits;
    NatToStringRoundTrip(e.info.count);
  }

  // ---- file names ----

  /** `filename.replace('.csv', '_report.txt')` */
  function ReportFileName(csvName: string): string {
    Replace(csvName, ".csv", "_report.txt")
  }

  /** A name that does not contain `.csv` is kept as it is... */
  lemma ReportFileNameWithoutCsv(name: string)
    requires !Occurs(".csv", name)
    ensures ReportFileName(name) == name
  {
    ReplaceAbsent(name, ".csv", "_report.txt");
  }

  /** ...and a name whose only `.csv` is its extension gets the suffix
      `_report.txt` in its place. */
  lemma ReportFileNameOfCsv(base: string)
    requires !Occurs(".csv", base)
    ensures ReportFileName(base + ".csv") == base + "_report.txt"
  {
    var pat := ".csv";
    var s := base + pat;
    forall i | 0 <= i < |base| ensures !OccursAt(pat, s, i) {
      if i + 4 <= |base| {
        assert s[i..i + 4] == base[i..i + 4];
        assert !OccursAt(pat, base, i);
      } else {
        var d := |base| - i;
        assert s[i..i + 4][d] == '.';
        assert pat[d] != '.';
      }
    }
    assert s[|base|..|base| + 4] == pat;
    ReplaceFirstAt(s, pat, "_report.txt", |base|);
    assert s[|base| + 4..] == [];
    assert s[..|base|] == base;
  }

  /** The report name the code evidently intends: `.csv` replaced as the
      code does, and `_report.txt` appended when there is no `.csv` to
      replace, so that the report never overwrites the CSV file. */
  function IntendedReportFileName(csvName: string): (r: string)
    ensures r != csvName
  {
    var r := ReportFileName(csvName);
    if r == csvName then csvName + "_report.txt" else r
  }

  /** The intended name agrees with the code whenever the name contains
      `.csv`, and otherwise adds the suffix instead of reusing the name. */
  lemma IntendedReportFileNameAgrees(csvName: string)
    ensures Occurs(".csv", csvName) ==> IntendedReportFileName(csvName) == ReportFileName(csvName)
    ensures !Occurs(".csv", csvName) ==> IntendedReportFileName(csvName) == csvName + "_report.txt"
  {
    ReplaceGrows(csvName, ".csv", "_report.txt");
    if !Occurs(".csv", csvName) {
      ReportFileNameWithoutCsv(csvName);
    }
  }

  // ---- the message-id limit ----

  /** Python's `s[start:]` for an integer `start`; a negative start
      counts from the end. */
  function SliceFrom(s: seq<string>, start: int): seq<string> {
    if start < 0 then s[(if |s| + start < 0 then 0 else |s| + start)..]
    else s[(if start < |s| then start else |s|)..]
  }

  /** `message_ids[-max_messages:] if len(message_ids) > max_messages
      else message_ids`, as written. */
  function LimitIdsAsWritten(ids: seq<string>, max: int): seq<string> {
    if |ids| > max then SliceFrom(ids, -max) else ids
  }

  /** For a limit of at least one, the ids kept are the last
      `min(len, max)` ids. */
  lemma LimitIdsAsWrittenPositive(ids: seq<string>, max: int)
    requires max >= 1
    ensures LimitIdsAsWritten(ids, max) == ids[|ids| - Min(|ids|, max)..]
  {
  }

  /** With a limit of 0, `-0` is `0` and the slice keeps every id: a limit
      of zero messages scans them all. */
  lemma LimitIdsAsWrittenZeroKeepsAll(ids: seq<string>)
    ensures LimitIdsAsWritten(ids, 0) == ids
  {
  }

  /** With a negative limit the slice starts from the front: it drops the
      first `-max` ids instead of keeping the last ones. */
  lemma LimitIdsAsWrittenNegative(ids: seq<string>, max: int)
    requires max < 0
    ensures LimitIdsAsWritten(ids, max) == ids[Min(|ids|, -max)..]
  {
  }

  /** The intended limit: the last `max` ids, none for a limit below 1. */
  function LimitIds(ids: seq<string>, max: int): (r: seq<string>)
    ensures |r| == Min(|ids|, if max < 0 then 0 else max)
    ensures r == ids[|ids| - |r|..]
  {
    if max <= 0 then [] else if |ids| > max then ids[|ids| - max..] else ids
  }

  /** The two agree on every limit except the ones below 1. */
  lemma LimitIdsAgree(ids: seq<string>, max: int)
    ensures max >= 1 ==> LimitIds(ids, max) == LimitIdsAsWritten(ids, max)
  {
  }
}

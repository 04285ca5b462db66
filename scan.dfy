/** `scan_sent_folder` and `export_to_csv` as the three front ends run
    them: the command-line builder, the Windows GUI and the macOS GUI. The
    mailbox is a list of message ids and a fetch function; the header
    decoder of the command-line builder is a parameter. */
module Scan {
  import opened Wrappers
  import opened HeaderParser
  import opened Contacts
  import opened Export

  /** Which of the three scripts runs the scan. */
  datatype Frontend = Cli | WindowsGui | MacGui

  /** The headers a scan reads from one message; an absent header is `""`,
      as `msg.get(field, '')` gives. */
  datatype Message = Message(date: string, to: string, cc: string, bcc: string)

  /** A fetched message, or one whose fetch or parse raised (and is then
      skipped by the `except: continue`). */
  datatype Fetched = Parsed(msg: Message) | Unreadable

  /** `for field in ['To', 'Cc', 'Bcc']` */
  function Recipients(m: Message): seq<string> {
    [m.to, m.cc, m.bcc]
  }

  /** The date recorded for the message's addresses: the command-line
      builder reads `Date`; the GUIs record none, which the model writes
      as the empty date that `Observed` never stores. */
  function DateOf(f: Frontend, m: Message): string {
    if f == Cli then m.date else ""
  }

  /** The header text handed to `extract_email_addresses`. The
      command-line builder decodes it first, and a decoder that raises
      (`None`) abandons the rest of the message; the GUIs pass the value
      as it is. */
  function Decoded(f: Frontend, raw: string, decode: string -> Option<string>): Option<string> {
    if f == Cli then decode(raw) else Some(raw)
  }

  /** The fields from the first one on, folded into the table. A field
      whose decoding raises stops the message, keeping what the earlier
      fields added. */
  function ScanFields(t: Table, f: Frontend, fields: seq<string>, date: string,
                      account: string, decode: string -> Option<string>): Table
    decreases |fields|
  {
    if fields == [] then t
    else if fields[0] == "" then ScanFields(t, f, fields[1..], date, account, decode)
    else match Decoded(f, fields[0], decode)
      case None => t
      case Some(h) => ScanFields(ObservedAll(t, ParseHeader(h, account), date), f, fields[1..], date, account, decode)
  }

  function ScanMessage(t: Table, f: Frontend, m: Fetched, account: string,
                       decode: string -> Option<string>): Table {
    match m
    case Unreadable => t
    case Parsed(msg) => ScanFields(t, f, Recipients(msg), DateOf(f, msg), account, decode)
  }

  /** The messages in turn, the first one first. */
  function ScanMessages(t: Table, f: Frontend, ms: seq<Fetched>, account: string,
                        decode: string -> Option<string>): Table
    decreases |ms|
  {
    if ms == [] then t
    else ScanMessages(ScanMessage(t, f, ms[0], account, decode), f, ms[1..], account, decode)
  }

  function FetchAll(fetch: string -> Fetched, ids: seq<string>): (r: seq<Fetched>)
    ensures |r| == |ids|
    ensures forall i :: 0 <= i < |ids| ==> r[i] == fetch(ids[i])
  {
    seq(|ids|, i requires 0 <= i < |ids| => fetch(ids[i]))
  }

  /** The `for field in ['To', 'Cc', 'Bcc']` loop for one message. */
  method ProcessMessage(agg: Aggregator, f: Frontend, m: Message, account: string,
                        decode: string -> Option<string>)
    requires agg.Valid()
    modifies agg
    ensures agg.Valid()
    ensures agg.Contents() == ScanMessage(old(agg.Contents()), f, Parsed(m), account, decode)
  {
    var fields := Recipients(m);
    var date := DateOf(f, m);
    ghost var target := ScanFields(agg.Contents(), f, fields, date, account, decode);
    var i := 0;
    while i < |fields|
      invariant 0 <= i <= |fields|
      invariant agg.Valid()
      invariant ScanFields(agg.Contents(), f, fields[i..], date, account, decode) == target
    {
      assert fields[i..][1..] == fields[i + 1..];
      if fields[i] != "" {
        var header := Decoded(f, fields[i], decode);
        if header.None? {
          return;
        }
        var pairs := ExtractEmailAddresses(header.value, account);
        agg.ObserveAll(pairs, date);
      }
      i := i + 1;
    }
  }

  /** `scan_sent_folder` after the search: limit the ids with the slice
      the code writes (`LimitIdsAsWritten`), then fold every message into
      the aggregator. */
  method ScanSentFolder(agg: Aggregator, f: Frontend, ids: seq<string>, maxMessages: int,
                        fetch: string -> Fetched, account: string,
                        decode: string -> Option<string>)
    requires agg.Valid()
    modifies agg
    ensures agg.Valid()
    ensures agg.Contents() == ScanMessages(old(agg.Contents()), f, FetchAll(fetch, LimitIdsAsWritten(ids, maxMessages)), account, decode)
  {
    var todo := LimitIdsAsWritten(ids, maxMessages);
    ghost var ms := FetchAll(fetch, todo);
    ghost var target := ScanMessages(agg.Contents(), f, ms, account, decode);
    var i := 0;
    while i < |todo|
      invariant 0 <= i <= |todo|
      invariant agg.Valid()
      invariant ScanMessages(agg.Contents(), f, ms[i..], account, decode) == target
    {
      assert ms[i..][1..] == ms[i + 1..];
      var fetched := fetch(todo[i]);
      if fetched.Parsed? {
        ProcessMessage(agg, f, fetched.msg, account, decode);
      }
      i := i + 1;
    }
    assert ms[i..] == [];
  }

  // ---- properties of a scan ----

  lemma {:induction false} ScanFieldsWellFormed(t: Table, f: Frontend, fields: seq<string>, date: string,
                                                account: string, decode: string -> Option<string>)
    requires WellFormed(t)
    ensures WellFormed(ScanFields(t, f, fields, date, account, decode))
    decreases |fields|
  {
    if fields != [] {
      if fields[0] != "" && Decoded(f, fields[0], decode).Some? {
        var h := Decoded(f, fields[0], decode).value;
        ObserveAllWellFormed(t, ParseHeader(h, account), date);
        ScanFieldsWellFormed(ObservedAll(t, ParseHeader(h, account), date), f, fields[1..], date, account, decode);
      } else if fields[0] == "" {
        ScanFieldsWellFormed(t, f, fields[1..], date, account, decode);
      }
    }
  }

  /** A scan keeps the table well formed: each key once in the key order,
      every recorded email counted at least once, and no key lost. */
  lemma {:induction false} ScanMessagesWellFormed(t: Table, f: Frontend, ms: seq<Fetched>, account: string,
                                                  decode: string -> Option<string>)
    requires WellFormed(t)
    ensures WellFormed(ScanMessages(t, f, ms, account, decode))
    ensures t.records.Keys <= ScanMessages(t, f, ms, account, decode).records.Keys
    decreases |ms|
  {
    if ms != [] {
      var t' := ScanMessage(t, f, ms[0], account, decode);
      if ms[0].Parsed? {
        ScanFieldsWellFormed(t, f, Recipients(ms[0].msg), DateOf(f, ms[0].msg), account, decode);
      }
      ScanFieldsKeepsKeys(t, f, if ms[0].Parsed? then Recipients(ms[0].msg) else [], if ms[0].Parsed? then DateOf(f, ms[0].msg) else "", account, decode);
      ScanMessagesWellFormed(t', f, ms[1..], account, decode);
    }
  }

  lemma {:induction false} ScanFieldsKeepsKeys(t: Table, f: Frontend, fields: seq<string>, date: string,
                                               account: string, decode: string -> Option<string>)
    requires WellFormed(t)
    ensures t.records.Keys <= ScanFields(t, f, fields, date, account, decode).records.Keys
    decreases |fields|
  {
    if fields != [] {
      if fields[0] != "" && Decoded(f, fields[0], decode).Some? {
        var h := Decoded(f, fields[0], decode).value;
        ObserveAllWellFormed(t, ParseHeader(h, account), date);
        ScanFieldsKeepsKeys(ObservedAll(t, ParseHeader(h, account), date), f, fields[1..], date, account, decode);
      } else if fields[0] == "" {
        ScanFieldsKeepsKeys(t, f, fields[1..], date, account, decode);
      }
    }
  }

  /** No record carries a date. */
  predicate Undated(t: Table) {
    forall k :: k in t.records ==> t.records[k].lastUsed.None?
  }

  lemma {:induction false} ObservedAllUndated(t: Table, pairs: seq<Address>)
    requires Undated(t)
    ensures Undated(ObservedAll(t, pairs, ""))
    decreases |pairs|
  {
    if pairs != [] {
      ObservedAllUndated(t, pairs[..|pairs| - 1]);
    }
  }

  lemma {:induction false} ScanFieldsUndated(t: Table, f: Frontend, fields: seq<string>,
                                             account: string, decode: string -> Option<string>)
    requires Undated(t)
    ensures Undated(ScanFields(t, f, fields, "", account, decode))
    decreases |fields|
  {
    if fields != [] {
      if fields[0] != "" && Decoded(f, fields[0], decode).Some? {
        var h := Decoded(f, fields[0], decode).value;
        ObservedAllUndated(t, ParseHeader(h, account));
        ScanFieldsUndated(ObservedAll(t, ParseHeader(h, account), ""), f, fields[1..], account, decode);
      } else if fields[0] == "" {
        ScanFieldsUndated(t, f, fields[1..], account, decode);
      }
    }
  }

  /** The GUIs never fill `last_used`: starting from an empty (or undated)
      table, every record still has no date after the scan. */
  lemma {:induction false} GuiScanLeavesDatesUnset(t: Table, f: Frontend, ms: seq<Fetched>, account: string,
                                                   decode: string -> Option<string>)
    requires f != Cli && Undated(t)
    ensures Undated(ScanMessages(t, f, ms, account, decode))
    decreases |ms|
  {
    if ms != [] {
      if ms[0].Parsed? {
        ScanFieldsUndated(t, f, Recipients(ms[0].msg), account, decode);
      }
      GuiScanLeavesDatesUnset(ScanMessage(t, f, ms[0], account, decode), f, ms[1..], account, decode);
    }
  }

  lemma {:induction false} GuiFieldsAgree(t: Table, fields: seq<string>, account: string,
                                          d1: string -> Option<string>, d2: string -> Option<string>)
    ensures ScanFields(t, WindowsGui, fields, "", account, d1) == ScanFields(t, MacGui, fields, "", account, d2)
    decreases |fields|
  {
    if fields != [] {
      if fields[0] != "" {
        GuiFieldsAgree(ObservedAll(t, ParseHeader(fields[0], account), ""), fields[1..], account, d1, d2);
      } else {
        GuiFieldsAgree(t, fields[1..], account, d1, d2);
      }
    }
  }

  /** The two GUIs build the same table from the same messages, and the
      decoder plays no part in either. */
  lemma {:induction false} GuisAgree(t: Table, ms: seq<Fetched>, account: string,
                                     d1: string -> Option<string>, d2: string -> Option<string>)
    ensures ScanMessages(t, WindowsGui, ms, account, d1) == ScanMessages(t, MacGui, ms, account, d2)
    decreases |ms|
  {
    if ms != [] {
      if ms[0].Parsed? {
        GuiFieldsAgree(t, Recipients(ms[0].msg), account, d1, d2);
      }
      GuisAgree(ScanMessage(t, WindowsGui, ms[0], account, d1), ms[1..], account, d1, d2);
    }
  }

  /** Two tables that differ at most in their dates. */
  predicate SameButDates(a: Table, b: Table) {
    && a.order == b.order
    && a.records.Keys == b.records.Keys
    && forall k :: k in a.records ==>
         a.records[k].count == b.records[k].count && a.records[k].name == b.records[k].name
  }

  lemma {:induction false} ObservedAllSameButDates(a: Table, b: Table, pairs: seq<Address>, da: string, db: string)
    requires SameButDates(a, b)
    ensures SameButDates(ObservedAll(a, pairs, da), ObservedAll(b, pairs, db))
    decreases |pairs|
  {
    if pairs != [] {
      ObservedAllSameButDates(a, b, pairs[..|pairs| - 1], da, db);
    }
  }

  /** The decoder that leaves every header as it is. */
  function Verbatim(raw: string): Option<string> {
    Some(raw)
  }

  lemma {:induction false} CliFieldsMatchGui(a: Table, b: Table, fields: seq<string>, date: string,
                                             account: string, d: string -> Option<string>)
    requires SameButDates(a, b)
    ensures SameButDates(ScanFields(a, Cli, fields, date, account, Verbatim),
                         ScanFields(b, WindowsGui, fields, "", account, d))
    decreases |fields|
  {
    if fields != [] {
      if fields[0] != "" {
        var pairs := ParseHeader(fields[0], account);
        ObservedAllSameButDates(a, b, pairs, date, "");
        CliFieldsMatchGui(ObservedAll(a, pairs, date), ObservedAll(b, pairs, ""), fields[1..], date, account, d);
      } else {
        CliFieldsMatchGui(a, b, fields[1..], date, account, d);
      }
    }
  }

  /** When no header needs decoding, the command-line builder and the GUIs
      agree on every count, every name and the key order; they differ only
      in the dates the builder records. */
  lemma {:induction false} CliMatchesGuiButForDates(a: Table, b: Table, ms: seq<Fetched>, account: string,
                                                    d: string -> Option<string>)
    requires SameButDates(a, b)
    ensures SameButDates(ScanMessages(a, Cli, ms, account, Verbatim), ScanMessages(b, WindowsGui, ms, account, d))
    decreases |ms|
  {
    if ms != [] {
      if ms[0].Parsed? {
        CliFieldsMatchGui(a, b, Recipients(ms[0].msg), ms[0].msg.date, account, d);
      }
      CliMatchesGuiButForDates(ScanMessage(a, Cli, ms[0], account, Verbatim),
                               ScanMessage(b, WindowsGui, ms[0], account, d), ms[1..], account, d);
    }
  }

  // ---- the export ----

  /** The report's title line, or None for the macOS GUI, which writes no
      report. */
  function ReportTitle(f: Frontend): Option<string> {
    match f
    case Cli => Some("Email Address Frequency Report")
    case WindowsGui => Some("Top 50 Most Contacted Email Addresses")
    case MacGui => None
  }

  /** What `export_to_csv` writes: the CSV rows, and the report's file
      name and lines when the front end writes one. */
  datatype Written = Written(rows: seq<Row>, report: Option<(string, seq<string>)>)

  function ExportToCsv(f: Frontend, t: Table, csvName: string): Written {
    var ranked := SortByCount(Items(t));
    Written(ExportRows(t),
            match ReportTitle(f)
            case None => None
            case Some(title) => Some((ReportFileName(csvName), ReportLines(title, ranked))))
  }

  /** The three front ends write the same CSV rows; a report is written by
      all but the macOS GUI, named after the CSV file, and it lists at
      most the 50 most frequent entries under a three-line header. */
  lemma ExportByFrontend(f: Frontend, g: Frontend, t: Table, csvName: string)
    ensures ExportToCsv(f, t, csvName).rows == ExportToCsv(g, t, csvName).rows
    ensures ExportToCsv(f, t, csvName).report.Some? <==> f != MacGui
    ensures f != MacGui ==>
              var (name, lines) := ExportToCsv(f, t, csvName).report.value;
              && name == ReportFileName(csvName)
              && 3 + Min(50, |t.order|) <= |lines| <= 3 + 2 * Min(50, |t.order|)
  {
    if f != MacGui {
      var ranked := SortByCount(Items(t));
      assert |ranked| == |multiset(ranked)| == |multiset(Items(t))| == |t.order|;
      var top := ranked[..Min(50, |ranked|)];
      LinesOfLength(top);
      NamedAtMost(top);
    }
  }

  lemma {:induction false} NamedAtMost(es: seq<Entry>)
    ensures Named(es) <= |es|
  {
    if es != [] {
      NamedAtMost(es[..|es| - 1]);
    }
  }
}

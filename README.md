# Gmail autocomplete export: the recipient-address pipeline

The repository ships three near-identical scripts:

- `gmail_autocomplete_builder.py`, a command-line tool;
- `gmail_autocomplete_gui.py`, a Windows GUI;
- `gmail_autocomplete_mac.py`, a macOS GUI.

Each one reads the sent folder of a Gmail account over IMAP and collects the recipients of the `To`, `Cc` and `Bcc` headers. It then writes them as an Outlook-importable CSV file and, except on macOS, a top-50 frequency report. This project models the part of that work that is pure computation:

- **Header parser** (`HeaderParser`, on top of `Text` and `AddressPattern`). `extract_email_addresses` turns one header value into an ordered list of `(email, name)` pairs.
  - The value is split on every comma.
  - A segment holding both `<` and `>` is read as `Name <email>`.
  - Any other segment is searched for the first match of the address pattern `[a-zA-Z0-9._%+-]+@[a-zA-Z0-9.-]+\.[a-zA-Z]{2,}`. `re.findall(...)[0]` is modelled as the leftmost, longest match.
  - Emails are lower-cased. Empty ones and the account's own address are dropped.
- **Aggregator** (`Contacts`). This is the per-address loop of `scan_sent_folder` over `self.email_addresses`, a `defaultdict` of `{count, name, last_used}`.
  - The `Aggregator` class holds the dictionary as a `map` plus the sequence of its keys in insertion order, because Python dicts keep that order and the export depends on it.
  - Each observation adds one to the count and sets `name` and `last_used` only while they are unset.
- **Scan** (`Scan`). The fields and messages of a scan are folded into the aggregator.
  - All three first cut the ids with `message_ids[-max_messages:]`. For a limit of at least one that keeps the last `max_messages` ids; for 0 it keeps every id, and for a negative limit all but the first |max| (see Findings).
  - The front ends differ in the fold. The command-line builder decodes each header and records the first `Date`. The GUIs pass headers as given and record no date.
- **Export** (`Export`).
  - The records are ordered by Python's stable `sorted(..., reverse=True)` on the count.
  - Each record maps to a First Name / Last Name / E-mail Address / Display As row.
  - The report lists the first 50 entries, and its file name is derived with `replace('.csv', '_report.txt')`.

Strings are `seq<char>`. `lower()`, `strip()` and `split()` use the ASCII letters and Python's ASCII whitespace set, which includes `\x1c`–`\x1f`.

Two behaviours of the code worth noting:

- In the `Name <email>` form the email is cut at the next `<` *or* `>` after the first `<`, not only at the first `>`. This is because the code takes `split('<')[1]` before `split('>')[0]`.
- The email in that form is not validated, so `<foo>` yields `foo`.

## Model

| member | source | states |
|---|---|---|
| Text.Lower | gmail_autocomplete_builder.py:75-76 | ASCII `lower()`: same length, each upper-case letter mapped to its lower-case letter and every other character kept; the result has no upper-case letter |
| Text.LowerIdempotent | gmail_autocomplete_builder.py:75-76 | lower-casing twice is lower-casing once, so the comparison with the lower-cased account is stable |
| Text.StripBySlice | gmail_autocomplete_builder.py:65-67 | `strip()` / `strip('"\'')` returns a contiguous slice of its input, and every character dropped before or after it is in the stripped class |
| Text.StripByTrimmed | gmail_autocomplete_builder.py:65-67 | the stripped result neither starts nor ends with a character of the stripped class (so the slice is the maximal one) |
| Text.Split | gmail_autocomplete_builder.py:56 | `split(',')` always gives at least one piece, and at least two when the separator occurs |
| Text.JoinSplit | gmail_autocomplete_builder.py:56 | joining the pieces of `split(sep)` with `sep` gives back the original string |
| Text.SplitPiecesLackSeparator | gmail_autocomplete_builder.py:56 | no piece of `split(sep)` contains `sep` |
| Text.SplitLength | gmail_autocomplete_builder.py:56-58 | `split(sep)` has exactly one more piece than `sep` has occurrences |
| Text.SplitFirst | gmail_autocomplete_builder.py:65 | `split(sep)[0]` is the prefix before the first `sep` (the whole string when there is none) |
| Text.SplitRest | gmail_autocomplete_builder.py:66 | when `sep` occurs, the pieces after the first are the pieces of the text after the first `sep`, so `split('<')[1]` ends at the second `<` |
| Text.Words | gmail_autocomplete_builder.py:178 | `split()` with no argument: every piece is a non-empty run without whitespace |
| Text.WordsOfWordThen | gmail_autocomplete_builder.py:178 | a word followed by whitespace or the end of the text is the first word, and the rest is split the same way |
| Text.WordsSkipLeadingSpace | gmail_autocomplete_builder.py:178 | a leading whitespace character of any kind does not change the words |
| Text.WordsOfBlank | gmail_autocomplete_builder.py:178 | a text of whitespace only (including the empty text) has no words |
| Text.WordsOfJoin | gmail_autocomplete_builder.py:180 | splitting words joined by single spaces gives the words back (`' '.join` and `split()` are inverse on words) |
| Text.ReplaceAbsent | gmail_autocomplete_builder.py:192 | `replace` leaves a string without an occurrence of the pattern unchanged |
| Text.ReplaceFirstAt | gmail_autocomplete_builder.py:192 | `replace` keeps the text before the leftmost occurrence of the pattern, puts the replacement there, and goes on after that occurrence |
| Text.PadRight | gmail_autocomplete_builder.py:198 | `f"{s:<40}"`: length is the larger of the width and `len(s)`, it starts with `s` and is padded with spaces only, never truncating |
| Text.NatToStringRoundTrip | gmail_autocomplete_builder.py:198 | `str(count)` is a non-empty digit string that reads back to the count, with no leading zero unless the count is 0 |
| AddressPattern.MatchAt | gmail_autocomplete_builder.py:53 | a match found at a start ends after that start and within the text |
| AddressPattern.MatchAtSound | gmail_autocomplete_builder.py:71-73 | a match found at a start is a match of the address pattern (local part, `@`, domain part, `.`, two or more letters) |
| AddressPattern.MatchAtCompleteAndLongest | gmail_autocomplete_builder.py:71-73 | wherever the pattern matches at a start, a match is found there and it is at least as long as that match (greedy) |
| AddressPattern.NoMatchAt | gmail_autocomplete_builder.py:71-73 | when no match is found at a start, no slice from that start matches the pattern |
| AddressPattern.FirstSpanIsLeftmostLongest | gmail_autocomplete_builder.py:71-73 | `re.findall(p, s)[0]`: the first match is an address, no address starts further left, none from its start is longer; with no match, no slice of the segment is an address |
| AddressPattern.AddressShape | gmail_autocomplete_builder.py:53 | a match contains `@`, uses only the allowed characters, and ends in `.` followed by at least two letters |
| HeaderParser.ParseSegment | gmail_autocomplete_builder.py:58-76 | a segment yields at most one pair, whose email is non-empty, lower-case and never the lower-cased account |
| HeaderParser.ExtractEmailAddresses | gmail_autocomplete_builder.py:48-78 | the append loop returns the segment-by-segment pairs, each valid, at most one per comma-separated segment |
| HeaderParser.ParseSegmentsValid | gmail_autocomplete_mac.py:514-515 | every returned pair is non-empty, lower-case and not the account address |
| HeaderParser.ParseSegmentsAtMostOnePerSegment | gmail_autocomplete_gui.py:316-333 | at most one pair per comma-separated segment |
| HeaderParser.ParseSegmentsAppend | gmail_autocomplete_mac.py:498-517 | segments are handled independently and in order: the pairs of `a + b` are those of `a` followed by those of `b` |
| HeaderParser.EmptyHeaderNamesNobody | gmail_autocomplete_builder.py:56-76 | an empty header (`""` splits to `[""]`) yields no pair |
| HeaderParser.BracketSegment | gmail_autocomplete_builder.py:64-68 | in the `Name <email>` form the email is the trimmed text after the first `<` up to the next `<` or `>`, and the name the trimmed text before the first `<` stripped of quotes; the pair is kept iff that email is non-empty and not the account |
| HeaderParser.BracketsOnly | gmail_autocomplete_gui.py:322-333 | `<...>` yields its trimmed, lower-cased contents unvalidated (`<foo>` gives `foo`) with an empty name, and `<>` yields nothing |
| HeaderParser.PlainSegment | gmail_autocomplete_gui.py:327-330 | without both brackets the pair is the lower-cased first pattern match with an empty name; no match, no pair |
| HeaderParser.PlainSegmentEmailIsAddress | gmail_autocomplete_mac.py:509-512 | an email from the pattern branch matches the whole address pattern, lower-case as it is |
| HeaderParser.LowerKeepsAddress | gmail_autocomplete_builder.py:76 | lower-casing an address keeps it an address |
| Contacts.ObserveEffect | gmail_autocomplete_builder.py:142-143 | one observation keeps the table well formed, raises that email's count by exactly one, leaves every other record untouched, and appends the key only on first sight |
| Contacts.ObserveWriteOnce | gmail_autocomplete_builder.py:144-147 | `name` and `last_used` are set only while unset and only to a non-empty value, and never overwritten |
| Contacts.ObserveAllCounts | gmail_autocomplete_builder.py:142-143 | after folding a list of pairs each email's count grew by exactly its number of occurrences in the list |
| Contacts.ObserveAllWellFormed | gmail_autocomplete_builder.py:24 | folding keeps the table well formed, and its keys become the old keys plus the emails of the pairs |
| Contacts.ObserveTotal | gmail_autocomplete_builder.py:143 | one observation raises the sum of all counts by one |
| Contacts.ObserveAllTotal | gmail_autocomplete_mac.py:467-470 | the sum of all counts grows by exactly the number of pairs folded |
| Contacts.ObserveAllFirstNameWins | gmail_autocomplete_gui.py:286-289 | an unnamed record ends with the first non-empty name among the pairs for its email; a named record keeps its name |
| Contacts.Aggregator.constructor | gmail_autocomplete_gui.py:36 | a fresh aggregator is empty and well formed |
| Contacts.Aggregator.Observe | gmail_autocomplete_builder.py:142-147 | the in-place update leaves the aggregator holding exactly the table of one observation, well formed |
| Contacts.Aggregator.ObserveAll | gmail_autocomplete_gui.py:286-289 | the loop over one header's pairs leaves exactly the folded table |
| Contacts.Aggregator.Size | gmail_autocomplete_builder.py:152 | `len(self.email_addresses)` equals the number of keys in insertion order |
| Export.Items | gmail_autocomplete_builder.py:164 | `items()` lists every key in insertion order with its record |
| Export.Insert | gmail_autocomplete_builder.py:164-166 | inserting an entry yields the old entries plus that entry (a permutation) |
| Export.SortByCount | gmail_autocomplete_builder.py:164-166 | the export order is a permutation of the records |
| Export.SortByCountSorted | gmail_autocomplete_mac.py:524-526 | the export order is by count, largest first |
| Export.SortByCountStable | gmail_autocomplete_gui.py:340-342 | for every count, the entries with that count keep their insertion order (stability) |
| Export.ContactRowNames | gmail_autocomplete_builder.py:178-180 | First Name is the first word of the name or empty, Last Name the other words joined by one space or empty for at most one word, with Last Name equal to the words after the first joined by one space, and the two split back into exactly the name's words |
| Export.DisplayAsRoundTrip | gmail_autocomplete_builder.py:174-186 | the address column is the key, and Display As is `name (email)` or the email alone for no name, from which the name is recovered exactly |
| Export.ExportRowsCoverTable | gmail_autocomplete_mac.py:533-544 | the address column is a permutation of the keys: one row per recorded email, no other rows |
| Export.WriteReport | gmail_autocomplete_gui.py:364-371 | the report loop writes the title, a rule of 50 `=`, an empty line, then for each of at most 50 entries its count line and a name line only when named |
| Export.WriteEntries | gmail_autocomplete_gui.py:368-371 | the loop over the top entries appends, entry by entry, a count line and a name line only when the entry has a name |
| Export.CountLineRoundTrip | gmail_autocomplete_builder.py:198 | a count line starts with the email padded with spaces to 40 columns, then ` - `, then the count, which reads back exactly, then ` messages` |
| Export.ReportFileNameWithoutCsv | gmail_autocomplete_builder.py:192 | a file name without `.csv` is used unchanged as the report name |
| Export.IntendedReportFileName | gmail_autocomplete_builder.py:192-193 | the corrected report name never equals the CSV name, so the report cannot overwrite the CSV file |
| Export.IntendedReportFileNameAgrees | gmail_autocomplete_gui.py:363 | the corrected name is the code's name whenever the CSV name contains `.csv`, and the CSV name plus `_report.txt` otherwise |
| Export.ReportFileNameOfCsv | gmail_autocomplete_gui.py:363 | `base.csv` with no other `.csv` gives the report name `base_report.txt` |
| Export.LimitIdsAsWrittenPositive | gmail_autocomplete_builder.py:107 | for a limit of at least one, the slice keeps the last `min(n, max)` ids |
| Export.LimitIdsAsWrittenZeroKeepsAll | gmail_autocomplete_gui.py:267 | as written, a limit of 0 keeps every id |
| Export.LimitIdsAsWrittenNegative | gmail_autocomplete_gui.py:267 | as written, a negative limit drops the first `min(n, -max)` ids and keeps the rest |
| Export.LimitIds | gmail_autocomplete_mac.py:447 | the intended limit keeps a suffix of length `min(n, max)`, none for a limit below one |
| Export.LimitIdsAgree | gmail_autocomplete_builder.py:107 | the intended limit and the code agree for every limit of at least one |
| Scan.ProcessMessage | gmail_autocomplete_builder.py:126-147 | the loop over `To`, `Cc`, `Bcc` folds each non-empty, decodable field's pairs into the aggregator in order, and a failing decode abandons the rest of the message |
| Scan.ScanSentFolder | gmail_autocomplete_gui.py:272-290 | the scan limits the ids with the slice as written (a limit of 0 keeps all, a negative one drops leading ids), folds every fetched message of that list into the aggregator, skipping unreadable ones, and keeps it well formed |
| Scan.ScanMessagesWellFormed | gmail_autocomplete_mac.py:453-472 | a scan keeps the table well formed and loses no key |
| Scan.GuiScanLeavesDatesUnset | gmail_autocomplete_gui.py:282-289 | the GUIs never record a date: an undated table stays undated |
| Scan.GuisAgree | gmail_autocomplete_gui.py:305-306 | the two GUIs build the same table and no decoding step takes part: a `str` header is parsed as given |
| Scan.CliMatchesGuiButForDates | gmail_autocomplete_builder.py:124-147 | when headers need no decoding, the command-line builder agrees with the GUIs on key order, counts and names; only dates differ |
| Scan.ExportByFrontend | gmail_autocomplete_builder.py:159-200 | all three write the same rows; all but macOS write a report named after the CSV file, with between 3 + k and 3 + 2k lines for the k = min(50, records) top entries |

## Left out

- IMAP work is not modelled. This covers `connect`, `select`, `search`, `fetch`, `logout` and the sent-folder fallback list (the macOS copy omits `[Gmail]/Sent`). It is network I/O: the ids and a fetch function are parameters of `Scan.ScanSentFolder`.
- `email.message_from_bytes` is not modelled. A message is its `Date`, `To`, `Cc` and `Bcc` values. A fetch or parse that raises is an `Unreadable` message and is skipped.
- `decode_header` and the byte decoding that follows it (RFC 2047 encoded words) are a parameter `decode` of the command-line scan. `None` stands for a decoding that raises. The builder uses only the first decoded chunk, and that choice lies inside `decode`.
- The GUIs' non-`str` branch of `extract_email_addresses` is not modelled. The program takes it when `msg.get` returns an `email.header.Header`, as it does for a header holding raw non-ASCII bytes; a decoding that raises there ends that message. In the model every header is a `str`.
- `csv.DictWriter` quoting and all file writes are not modelled. Rows are records of four strings and the report is a list of lines.
- Unicode-aware `lower()`, `strip()` and `split()` are not modelled; only ASCII is.
- The tkinter UI, logging, `threading`, `messagebox`, `subprocess`, argparse/getpass in `main`, and the build and packaging scripts are not modelled. They are UI, OS and packaging plumbing.

## Findings

| source | as written | input that shows it | evidently intended | confidence | as-written member | corrected member |
|---|---|---|---|---|---|---|
| gmail_autocomplete_gui.py:267 | `message_ids[-max_messages:] if len(message_ids) > max_messages else message_ids` | a message limit of 0 typed into the GUI, with any ids: `-0` is `0`, so the slice keeps every id; a negative limit keeps all but the first ones | keep the last `max_messages` ids and none for a limit below one | not executed | Export.LimitIdsAsWrittenZeroKeepsAll | Export.LimitIds |
| gmail_autocomplete_builder.py:192-193 | `report_file = filename.replace('.csv', '_report.txt')`, then `open(report_file, 'w')` | a CSV name without `.csv`, such as `contacts.txt`: the report name equals the CSV name, so writing the report (gmail_autocomplete_builder.py:193, gmail_autocomplete_gui.py:364) replaces the CSV just written (gmail_autocomplete_builder.py:168, gmail_autocomplete_gui.py:344) | a report file distinct from the CSV file | not executed | Export.ReportFileNameWithoutCsv | Export.IntendedReportFileName |

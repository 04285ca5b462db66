/** `extract_email_addresses`: one header value (a `To`, `Cc` or `Bcc`
    field) to the ordered list of `(email, name)` pairs it names, without
    the account's own address. The three front ends share this code. */
module HeaderParser {
  import opened Wrappers
  import opened Text
  import opened AddressPattern

  /** One `(email, name)` pair; `name` is empty when the header gave none. */
  datatype Address = Address(email: string, name: string)

  /** The pair one comma-separated segment contributes, if any: the
      `Name <email>` form when the segment holds both `<` and `>`,
      otherwise the first match of the address pattern with no name;
      lower-cased, and dropped when empty or the account's own address. */
  function ParseSegment(part: string, account: string): (r: Option<Address>)
    ensures r.Some? ==> r.value.email != [] && IsLowerCase(r.value.email)
    ensures r.Some? ==> r.value.email != Lower(account)
  {
    var (email, name) :=
      if '<' in part && '>' in part then
        var namePart := Strip(Split(part, '<')[0]);
        var emailPart := Strip(Split(Split(part, '<')[1], '>')[0]);
        (emailPart, StripQuotes(namePart))
      else
        match FirstMatch(part)
        case Some(m) => (m, "")
        case None => ("", "");
    if email != [] && Lower(email) != Lower(account) then Some(Address(Lower(email), name))
    else None
  }

  /** The pairs of a sequence of segments, in segment order. */
  function ParseSegments(parts: seq<string>, account: string): seq<Address> {
    if parts == [] then []
    else
      var init := ParseSegments(parts[..|parts| - 1], account);
      match ParseSegment(parts[|parts| - 1], account)
      case Some(a) => init + [a]
      case None => init
  }

  /** What `extract_email_addresses` returns for a header value. */
  function ParseHeader(header: string, account: string): seq<Address> {
    ParseSegments(Split(header, ','), account)
  }

  /** `extract_email_addresses`: splits on every comma and appends the
      pair of each segment in turn. */
  method ExtractEmailAddresses(header: string, account: string) returns (addresses: seq<Address>)
    ensures addresses == ParseHeader(header, account)
    ensures forall k :: 0 <= k < |addresses| ==> IsValidPair(addresses[k], account)
    ensures |addresses| <= Count(header, ',') + 1
  {
    var parts := Split(header, ',');
    addresses := [];
    var i := 0;
    while i < |parts|
      invariant 0 <= i <= |parts|
      invariant addresses == ParseSegments(parts[..i], account)
    {
      assert parts[..i + 1][..i] == parts[..i];
      var pair := ParseSegment(parts[i], account);
      if pair.Some? {
        addresses := addresses + [pair.value];
      }
      i := i + 1;
    }
    assert parts[..i] == parts;
    ParseSegmentsValid(parts, account);
    ParseSegmentsAtMostOnePerSegment(parts, account);
    SplitLength(header, ',');
  }

  /** A returned pair: non-empty, lower-case, never the account itself. */
  predicate IsValidPair(a: Address, account: string) {
    a.email != [] && IsLowerCase(a.email) && a.email != Lower(account)
  }

  lemma {:induction false} ParseSegmentsValid(parts: seq<string>, account: string)
    ensures forall k :: 0 <= k < |ParseSegments(parts, account)| ==>
              IsValidPair(ParseSegments(parts, account)[k], account)
  {
    if parts != [] {
      ParseSegmentsValid(parts[..|parts| - 1], account);
    }
  }

  /** At most one pair per comma-separated segment. */
  lemma {:induction false} ParseSegmentsAtMostOnePerSegment(parts: seq<string>, account: string)
    ensures |ParseSegments(parts, account)| <= |parts|
  {
    if parts != [] {
      ParseSegmentsAtMostOnePerSegment(parts[..|parts| - 1], account);
    }
  }

  /** Segments are handled independently and their pairs keep segment
      order: the pairs of `a + b` are those of `a` followed by those of `b`. */
  lemma {:induction false} ParseSegmentsAppend(a: seq<string>, b: seq<string>, account: string)
    ensures ParseSegments(a + b, account) == ParseSegments(a, account) + ParseSegments(b, account)
    decreases |b|
  {
    if b != [] {
      var b' := b[..|b| - 1];
      assert (a + b)[..|a + b| - 1] == a + b';
      assert (a + b)[|a + b| - 1] == b[|b| - 1];
      ParseSegmentsAppend(a, b', account);
    } else {
      assert a + b == a;
    }
  }

  /** An empty header value (`""` splits to `[""]`) names nobody. */
  lemma EmptyHeaderNamesNobody(account: string)
    ensures ParseHeader("", account) == []
  {
    assert Split("", ',') == [""];
    assert FirstSpan("") == None;
    assert ParseSegment("", account).None?;
    var parts: seq<string> := [""];
    assert parts[..|parts| - 1] == [];
    assert ParseSegments(parts, account) == ParseSegments([], account);
  }

  /** The `Name <email>` form, stated by positions: `lt` is the first `<`
      and `stop` the first `<` or `>` after it (or the end). The email is
      the trimmed text strictly between them and the name the trimmed text
      before `lt`, stripped of surrounding quotes. */
  lemma BracketSegment(part: string, account: string, lt: nat, stop: nat)
    requires '>' in part
    requires lt < |part| && part[lt] == '<' && '<' !in part[..lt]
    requires lt < stop <= |part| && (stop == |part| || part[stop] == '<' || part[stop] == '>')
    requires forall k :: lt < k < stop ==> part[k] != '<' && part[k] != '>'
    ensures var email := Strip(part[lt + 1..stop]);
            var name := StripQuotes(Strip(part[..lt]));
            ParseSegment(part, account)
              == if email != [] && Lower(email) != Lower(account)
                 then Some(Address(Lower(email), name)) else None
  {
    assert '<' in part by { assert part[lt] == '<'; }
    BracketNameSlice(part, lt);
    BracketEmailSlice(part, lt, stop);
  }

  /** `part.split('<')[0]` is the text before the first `<`. */
  lemma BracketNameSlice(part: string, lt: nat)
    requires lt < |part| && part[lt] == '<' && '<' !in part[..lt]
    ensures Split(part, '<')[0] == part[..lt]
  {
    forall k | 0 <= k < lt ensures part[k] != '<' {
      assert part[..lt][k] == part[k];
    }
    FirstPieceUpTo(part, '<', lt);
  }

  /** `part.split('<')[1].split('>')[0]` is the text from the first `<` to
      the next `<` or `>`. */
  lemma BracketEmailSlice(part: string, lt: nat, stop: nat)
    requires lt < |part| && part[lt] == '<' && '<' !in part[..lt]
    requires lt < stop <= |part| && (stop == |part| || part[stop] == '<' || part[stop] == '>')
    requires forall k :: lt < k < stop ==> part[k] != '<' && part[k] != '>'
    ensures |Split(part, '<')| >= 2
    ensures Split(Split(part, '<')[1], '>')[0] == part[lt + 1..stop]
  {
    SecondPiece(part, lt);
    var rest := part[lt + 1..];
    var d := stop - lt - 1;
    forall k | 0 <= k < d ensures rest[k] != '<' && rest[k] != '>' {
      assert rest[k] == part[lt + 1 + k];
    }
    assert d == |rest| || rest[d] == part[stop];
    EmailCut(rest, d);
    assert rest[..d] == part[lt + 1..stop];
  }

  /** `part.split('<')[1]` is the first piece of the text after the
      first `<`. */
  lemma SecondPiece(part: string, lt: nat)
    requires lt < |part| && part[lt] == '<' && '<' !in part[..lt]
    ensures |Split(part, '<')| >= 2
    ensures Split(part, '<')[1] == Split(part[lt + 1..], '<')[0]
  {
    assert '<' in part by { assert part[lt] == '<'; }
    BracketNameSlice(part, lt);
    SplitRest(part, '<');
  }

  /** Cutting at the first `<` and then at the first `>` stops at the
      first of either. */
  lemma EmailCut(rest: string, d: nat)
    requires d <= |rest|
    requires forall k :: 0 <= k < d ==> rest[k] != '<' && rest[k] != '>'
    requires d == |rest| || rest[d] == '<' || rest[d] == '>'
    ensures Split(Split(rest, '<')[0], '>')[0] == rest[..d]
  {
    SplitFirst(rest, '<');
    var x := Split(rest, '<')[0];
    assert d <= |x|;
    forall k | 0 <= k < d ensures x[k] != '>' {
      assert x[k] == rest[k];
    }
    assert d == |x| || x[d] == '>' by {
      if d < |x| {
        assert x[d] == rest[d];
      }
    }
    FirstPieceUpTo(x, '>', d);
    assert x[..d] == rest[..d];
  }

  /** A segment that is only `<...>` yields whatever the brackets hold,
      trimmed and lower-cased, with an empty name: the email is not
      validated, so `<foo>` yields `foo`, and `<>` (or blanks only) yields
      nothing. */
  lemma BracketsOnly(inner: string, account: string)
    requires forall k :: 0 <= k < |inner| ==> inner[k] != '<' && inner[k] != '>'
    ensures var email := Strip(inner);
            ParseSegment("<" + inner + ">", account)
              == if email != [] && Lower(email) != Lower(account)
                 then Some(Address(Lower(email), "")) else None
  {
    var part := "<" + inner + ">";
    assert part[|part| - 1] == '>';
    assert part[..0] == [];
    assert part[1..|inner| + 1] == inner;
    BracketSegment(part, account, 0, |inner| + 1);
  }

  /** Lower-casing keeps every character class of the address pattern. */
  lemma LowerKeepsAddress(t: string)
    requires IsAddress(t)
    ensures IsAddress(Lower(t))
  {
    var at, dot :| AddressAt(t, 0, at, dot, |t|);
    var u := Lower(t);
    assert AddressAt(u, 0, at, dot, |u|);
  }

  /** Without both brackets, the pair is the lower-cased first match of
      the address pattern with an empty name; a segment with no match
      contributes nothing. */
  lemma PlainSegment(part: string, account: string)
    requires !('<' in part && '>' in part)
    ensures FirstSpan(part).None? ==> ParseSegment(part, account).None?
    ensures FirstSpan(part).Some? ==>
              var m := part[FirstSpan(part).value.0..FirstSpan(part).value.1];
              ParseSegment(part, account)
                == if Lower(m) != Lower(account) then Some(Address(Lower(m), "")) else None
  {
  }

  /** Such an email is a match of the address pattern, so it contains `@`
      and ends in `.` and at least two letters. */
  lemma PlainSegmentEmailIsAddress(part: string, account: string)
    requires !('<' in part && '>' in part)
    requires ParseSegment(part, account).Some?
    ensures IsAddress(ParseSegment(part, account).value.email)
    ensures ParseSegment(part, account).value.name == ""
  {
    FirstSpanIsLeftmostLongest(part);
    var (a, e) := FirstSpan(part).value;
    LowerKeepsAddress(part[a..e]);
  }
}

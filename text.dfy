/** ASCII models of the Python string operations the address pipeline uses:
    `lower()`, `strip()`, `strip(chars)`, `split(sep)`, `split()`, `' '.join`,
    `replace` and left-aligned padding. */
module Text {

  /** The characters Python's `str.isspace()` accepts within ASCII:
      tab, line feed, vertical tab, form feed, carriage return,
      the four separators 0x1C-0x1F, and space. */
  predicate IsSpace(c: char) {
    c == ' ' || 9 <= c as int <= 13 || 28 <= c as int <= 31
  }

  predicate IsUpper(c: char) { 'A' <= c <= 'Z' }

  function LowerChar(c: char): (r: char)
    ensures !IsUpper(r)
    ensures !IsUpper(c) ==> r == c
  {
    if IsUpper(c) then (c as int + 32) as char else c
  }

  predicate IsLowerCase(s: string) {
    forall i :: 0 <= i < |s| ==> !IsUpper(s[i])
  }

  /** `s.lower()` restricted to ASCII letters. */
  function Lower(s: string): (r: string)
    ensures |r| == |s|
    ensures forall i :: 0 <= i < |s| ==> r[i] == LowerChar(s[i])
    ensures IsLowerCase(r)
  {
    if s == [] then [] else [LowerChar(s[0])] + Lower(s[1..])
  }

  lemma LowerOfLowerCase(s: string)
    requires IsLowerCase(s)
    ensures Lower(s) == s
  {
  }

  lemma LowerIdempotent(s: string)
    ensures Lower(Lower(s)) == Lower(s)
  {
    LowerOfLowerCase(Lower(s));
  }

  /** The character classes the pipeline strips, splits or scans by. */
  datatype CharClass = Space | NonSpace | Quote

  predicate InClass(cls: CharClass, c: char) {
    match cls
    case Space => IsSpace(c)
    case NonSpace => !IsSpace(c)
    case Quote => c == '"' || c == '\''
  }

  /** Drops the longest prefix whose characters are in `cls`. */
  function DropWhile(s: string, cls: CharClass): (r: string)
    ensures |r| <= |s|
    ensures r == [] || !InClass(cls, r[0])
  {
    if s != [] && InClass(cls, s[0]) then DropWhile(s[1..], cls) else s
  }

  /** The longest prefix whose characters are in `cls`. */
  function TakeWhile(s: string, cls: CharClass): (r: string)
    ensures |r| <= |s|
    ensures forall i :: 0 <= i < |r| ==> r[i] == s[i] && InClass(cls, r[i])
    ensures |r| == |s| || !InClass(cls, s[|r|])
  {
    if s != [] && InClass(cls, s[0]) then [s[0]] + TakeWhile(s[1..], cls) else []
  }

  /** `TakeWhile` stops at the first character outside the class. */
  lemma {:induction false} TakeWhileUpTo(s: string, cls: CharClass, n: nat)
    requires n <= |s|
    requires forall i :: 0 <= i < n ==> InClass(cls, s[i])
    requires n == |s| || !InClass(cls, s[n])
    ensures TakeWhile(s, cls) == s[..n]
  {
    if n > 0 {
      TakeWhileUpTo(s[1..], cls, n - 1);
      assert [s[0]] + s[1..][..n - 1] == s[..n];
    }
  }

  /** The first position at or after `i` whose character is not in `cls`
      (or the end). */
  function SkipFrom(s: string, i: nat, cls: CharClass): (k: nat)
    requires i <= |s|
    ensures i <= k <= |s|
    ensures forall m :: i <= m < k ==> InClass(cls, s[m])
    ensures k == |s| || !InClass(cls, s[k])
    decreases |s| - i
  {
    if i < |s| && InClass(cls, s[i]) then SkipFrom(s, i + 1, cls) else i
  }

  /** Walking back from `j` but not past `lo`: the start of the run of
      `cls` characters that ends at `j`. */
  function BackTo(s: string, lo: nat, j: nat, cls: CharClass): (k: nat)
    requires lo <= j <= |s|
    ensures lo <= k <= j
    ensures forall m :: k <= m < j ==> InClass(cls, s[m])
    ensures k == lo || !InClass(cls, s[k - 1])
    decreases j - lo
  {
    if lo < j && InClass(cls, s[j - 1]) then BackTo(s, lo, j - 1, cls) else j
  }

  /** Python's `s.strip(chars)`: removes every leading and trailing
      character of the class. */
  function StripBy(s: string, cls: CharClass): string {
    var i := SkipFrom(s, 0, cls);
    s[i..BackTo(s, i, |s|, cls)]
  }

  /** What `strip` promises: the result is the slice `s[i..j]` left after
      removing a run of class characters at each end... */
  lemma StripBySlice(s: string, cls: CharClass) returns (i: nat, j: nat)
    ensures i <= j <= |s| && StripBy(s, cls) == s[i..j]
    ensures forall k :: 0 <= k < i ==> InClass(cls, s[k])
    ensures forall k :: j <= k < |s| ==> InClass(cls, s[k])
  {
    i := SkipFrom(s, 0, cls);
    j := BackTo(s, i, |s|, cls);
  }

  /** ...and it neither starts nor ends with a class character, so the
      runs removed are the longest ones. */
  lemma StripByTrimmed(s: string, cls: CharClass)
    ensures var r := StripBy(s, cls); r == [] || (!InClass(cls, r[0]) && !InClass(cls, r[|r| - 1]))
  {
    var i := SkipFrom(s, 0, cls);
    var j := BackTo(s, i, |s|, cls);
    var r := s[i..j];
    if r != [] {
      assert r[0] == s[i];
      assert r[|r| - 1] == s[j - 1];
    }
  }

  /** `s.strip()` with no argument. */
  function Strip(s: string): string {
    StripBy(s, Space)
  }

  /** `s.strip('"\'')`. */
  function StripQuotes(s: string): string {
    StripBy(s, Quote)
  }

  /** Python's `s.split(sep)` for a one-character separator: the pieces
      between separators, including empty ones, so `""` splits to `[""]`. */
  function Split(s: string, sep: char): (r: seq<string>)
    ensures |r| >= 1
    ensures sep in s ==> |r| >= 2
  {
    if s == [] then [""]
    else
      var rest := Split(s[1..], sep);
      if s[0] == sep then [""] + rest else [[s[0]] + rest[0]] + rest[1..]
  }

  /** `sep.join(parts)`. */
  function Join(parts: seq<string>, sep: string): string {
    if |parts| == 0 then ""
    else if |parts| == 1 then parts[0]
    else parts[0] + sep + Join(parts[1..], sep)
  }

  /** Joining the pieces with the separator gives back the input. */
  lemma {:induction false} JoinSplit(s: string, sep: char)
    ensures Join(Split(s, sep), [sep]) == s
  {
    if s != [] {
      var rest := Split(s[1..], sep);
      JoinSplit(s[1..], sep);
      if s[0] != sep {
        if |rest| > 1 {
          assert Split(s, sep)[1..] == rest[1..];
          assert [s[0]] + rest[0] + [sep] + Join(rest[1..], [sep])
              == [s[0]] + (rest[0] + [sep] + Join(rest[1..], [sep]));
        }
      }
    }
  }

  /** The first piece is the text before the first separator. */
  lemma {:induction false} SplitFirst(s: string, sep: char)
    ensures var h := Split(s, sep)[0];
            |h| <= |s| && h == s[..|h|] && sep !in h && (|h| == |s| || s[|h|] == sep)
  {
    if s != [] && s[0] != sep {
      SplitFirst(s[1..], sep);
      var h := Split(s[1..], sep)[0];
      assert [s[0]] + h == s[..|h| + 1];
    }
  }

  /** The first piece ends at the first separator. */
  lemma FirstPieceUpTo(s: string, sep: char, n: nat)
    requires n <= |s|
    requires forall k :: 0 <= k < n ==> s[k] != sep
    requires n == |s| || s[n] == sep
    ensures Split(s, sep)[0] == s[..n]
  {
    SplitFirst(s, sep);
  }

  /** The pieces after the first are the pieces of the text after the
      first separator. */
  lemma {:induction false} SplitRest(s: string, sep: char)
    requires sep in s
    ensures var h := Split(s, sep)[0];
            |h| < |s| && Split(s, sep)[1..] == Split(s[|h| + 1..], sep)
  {
    SplitFirst(s, sep);
    if s[0] != sep {
      SplitRest(s[1..], sep);
      var h := Split(s[1..], sep)[0];
      assert s[1..][|h| + 1..] == s[|h| + 2..];
    } else {
      assert s[1..] == s[0 + 1..];
    }
  }

  /** No piece contains the separator. */
  lemma {:induction false} SplitPiecesLackSeparator(s: string, sep: char)
    ensures forall k :: 0 <= k < |Split(s, sep)| ==> sep !in Split(s, sep)[k]
  {
    if s != [] {
      SplitPiecesLackSeparator(s[1..], sep);
      var rest := Split(s[1..], sep);
      var r := Split(s, sep);
      if s[0] != sep {
        forall k | 0 <= k < |r| ensures sep !in r[k] {
          if k > 0 { assert r[k] == rest[k]; }
        }
      }
    }
  }

  function Count(s: string, c: char): (n: nat)
    ensures n <= |s|
  {
    if s == [] then 0 else (if s[0] == c then 1 else 0) + Count(s[1..], c)
  }

  /** There is one more piece than there are separators. */
  lemma {:induction false} SplitLength(s: string, sep: char)
    ensures |Split(s, sep)| == Count(s, sep) + 1
  {
    if s != [] {
      SplitLength(s[1..], sep);
    }
  }

  predicate IsWord(w: string) {
    w != [] && forall i :: 0 <= i < |w| ==> !IsSpace(w[i])
  }

  /** Python's `s.split()` with no argument: the maximal runs of
      non-whitespace characters, in order; never an empty word. */
  function Words(s: string): (r: seq<string>)
    ensures forall k :: 0 <= k < |r| ==> IsWord(r[k])
    decreases |s|
  {
    var t := DropWhile(s, Space);
    if t == [] then []
    else
      var w := TakeWhile(t, NonSpace);
      assert |w| > 0;
      [w] + Words(t[|w|..])
  }

  lemma WordsOfWordThen(w: string, rest: string)
    requires IsWord(w)
    requires rest == [] || IsSpace(rest[0])
    ensures Words(w + rest) == [w] + Words(rest)
  {
    var s := w + rest;
    assert DropWhile(s, Space) == s;
    TakeWhileUpTo(s, NonSpace, |w|);
    assert s[..|w|] == w;
    assert s[|w|..] == rest;
  }

  /** Leading whitespace of any kind is skipped... */
  lemma WordsSkipLeadingSpace(c: char, t: string)
    requires IsSpace(c)
    ensures Words([c] + t) == Words(t)
  {
    var s := [c] + t;
    assert s[1..] == t;
    assert DropWhile(s, Space) == DropWhile(t, Space);
  }

  /** ...and a text of whitespace only has no words. Together with
      `WordsOfWordThen` this fixes `Words` on every text: the words are
      exactly the maximal runs of non-whitespace characters, in order. */
  lemma {:induction false} WordsOfBlank(s: string)
    requires forall i :: 0 <= i < |s| ==> IsSpace(s[i])
    ensures Words(s) == []
  {
    if s != [] {
      WordsOfBlank(s[1..]);
      WordsSkipLeadingSpace(s[0], s[1..]);
      assert s == [s[0]] + s[1..];
    }
  }

  /** Round trip: splitting words that were joined by single spaces
      gives back the words. */
  lemma {:induction false} WordsOfJoin(ws: seq<string>)
    requires forall k :: 0 <= k < |ws| ==> IsWord(ws[k])
    ensures Words(Join(ws, " ")) == ws
  {
    if |ws| == 1 {
      WordsOfWordThen(ws[0], "");
      assert ws[0] + "" == ws[0];
    } else if |ws| > 1 {
      WordsOfJoin(ws[1..]);
      WordsOfJoinStep(ws[0], ws[1..]);
      assert ws == [ws[0]] + ws[1..];
    }
  }

  lemma WordsOfJoinStep(w: string, ws: seq<string>)
    requires IsWord(w) && |ws| > 0
    ensures Words(Join([w] + ws, " ")) == [w] + Words(Join(ws, " "))
  {
    var tail := Join(ws, " ");
    JoinCons(w, ws, " ");
    WordsOfWordThen(w, " " + tail);
    WordsSkipLeadingSpace(' ', tail);
    assert " " + tail == [' '] + tail;
  }

  lemma JoinCons(p: string, ps: seq<string>, sep: string)
    requires |ps| > 0
    ensures Join([p] + ps, sep) == p + (sep + Join(ps, sep))
  {
    var all := [p] + ps;
    assert all[0] == p && all[1..] == ps;
    assert Join(all, sep) == p + sep + Join(ps, sep);
  }

  /** Python's `s.replace(pat, rep)`: every non-overlapping occurrence of
      `pat`, found left to right, becomes `rep`. */
  function Replace(s: string, pat: string, rep: string): string
    requires pat != []
    decreases |s|
  {
    if |s| < |pat| then s
    else if s[..|pat|] == pat then rep + Replace(s[|pat|..], pat, rep)
    else [s[0]] + Replace(s[1..], pat, rep)
  }

  predicate OccursAt(pat: string, s: string, i: int) {
    0 <= i <= |s| - |pat| && s[i..i + |pat|] == pat
  }

  ghost predicate Occurs(pat: string, s: string) {
    exists i :: OccursAt(pat, s, i)
  }

  /** A text that does not contain the pattern is left unchanged. */
  lemma {:induction false} ReplaceAbsent(s: string, pat: string, rep: string)
    requires pat != []
    requires !Occurs(pat, s)
    ensures Replace(s, pat, rep) == s
    decreases |s|
  {
    if |s| >= |pat| {
      assert !OccursAt(pat, s, 0);
      assert s[0..0 + |pat|] == s[..|pat|];
      forall i | 0 <= i <= |s| - 1 - |pat| ensures !OccursAt(pat, s[1..], i) {
        assert s[1..][i..i + |pat|] == s[i + 1..i + 1 + |pat|];
        assert !OccursAt(pat, s, i + 1);
      }
      ReplaceAbsent(s[1..], pat, rep);
    }
  }

  /** When the leftmost occurrence of the pattern starts at `n`, the text
      before it is kept and that occurrence becomes `rep`. */
  lemma {:induction false} ReplaceFirstAt(s: string, pat: string, rep: string, n: nat)
    requires pat != [] && n + |pat| <= |s| && OccursAt(pat, s, n)
    requires forall i :: 0 <= i < n ==> !OccursAt(pat, s, i)
    ensures Replace(s, pat, rep) == s[..n] + rep + Replace(s[n + |pat|..], pat, rep)
    decreases n
  {
    if n == 0 {
      assert s[..|pat|] == s[0..0 + |pat|];
    } else {
      var t := s[1..];
      ReplaceKeepsHead(s, pat, rep);
      OccurrencesShift(s, pat, n);
      ReplaceFirstAt(t, pat, rep, n - 1);
      var after := Replace(s[n + |pat|..], pat, rep);
      assert t[n - 1 + |pat|..] == s[n + |pat|..];
      calc {
        Replace(s, pat, rep);
        [s[0]] + Replace(t, pat, rep);
        [s[0]] + (t[..n - 1] + rep + after);
        ([s[0]] + t[..n - 1]) + rep + after;
        { assert [s[0]] + t[..n - 1] == s[..n]; }
        s[..n] + rep + after;
      }
    }
  }

  /** Where no occurrence starts at 0, the first character is kept. */
  lemma ReplaceKeepsHead(s: string, pat: string, rep: string)
    requires pat != [] && |pat| <= |s| && !OccursAt(pat, s, 0)
    ensures Replace(s, pat, rep) == [s[0]] + Replace(s[1..], pat, rep)
  {
    assert s[..|pat|] == s[0..0 + |pat|];
  }

  lemma OccurrencesShift(s: string, pat: string, n: nat)
    requires 0 < n && n + |pat| <= |s| && OccursAt(pat, s, n)
    requires forall i :: 0 <= i < n ==> !OccursAt(pat, s, i)
    ensures OccursAt(pat, s[1..], n - 1)
    ensures forall i :: 0 <= i < n - 1 ==> !OccursAt(pat, s[1..], i)
  {
    var t := s[1..];
    forall i | 0 <= i < n - 1 ensures !OccursAt(pat, t, i) {
      assert t[i..i + |pat|] == s[i + 1..i + 1 + |pat|];
      assert !OccursAt(pat, s, i + 1);
    }
    assert t[n - 1..n - 1 + |pat|] == s[n..n + |pat|];
  }

  /** A replacement longer than the pattern never shortens the text, and
      lengthens it as soon as the pattern occurs. */
  lemma {:induction false} ReplaceGrows(s: string, pat: string, rep: string)
    requires pat != [] && |rep| >= |pat|
    ensures |Replace(s, pat, rep)| >= |s|
    ensures Occurs(pat, s) && |rep| > |pat| ==> |Replace(s, pat, rep)| > |s|
    decreases |s|
  {
    if |s| < |pat| {
    } else if s[..|pat|] == pat {
      ReplaceGrows(s[|pat|..], pat, rep);
    } else {
      ReplaceGrows(s[1..], pat, rep);
      if Occurs(pat, s) {
        var i :| OccursAt(pat, s, i);
        assert s[..|pat|] == s[0..0 + |pat|];
        assert s[1..][i - 1..i - 1 + |pat|] == s[i..i + |pat|];
        assert OccursAt(pat, s[1..], i - 1);
      }
    }
  }

  /** `s` left-aligned in a field of `width` characters, as the format
      `{s:<width}` does: padded with spaces, never truncated. */
  function PadRight(s: string, width: nat): (r: string)
    ensures |r| == if |s| < width then width else |s|
    ensures r[..|s|] == s
    ensures forall i :: |s| <= i < |r| ==> r[i] == ' '
  {
    if |s| < width then s + seq(width - |s|, _ => ' ') else s
  }

  function DigitChar(d: nat): char
    requires d < 10
  {
    ['0', '1', '2', '3', '4', '5', '6', '7', '8', '9'][d]
  }

  /** The decimal text of a natural number, as `str(n)` gives it. */
  function NatToString(n: nat): (r: string)
    ensures r != []
    ensures forall i :: 0 <= i < |r| ==> '0' <= r[i] <= '9'
  {
    if n < 10 then [DigitChar(n)] else NatToString(n / 10) + [DigitChar(n % 10)]
  }

  function DigitsValue(s: string): nat
    requires forall i :: 0 <= i < |s| ==> '0' <= s[i] <= '9'
  {
    if s == [] then 0 else DigitsValue(s[..|s| - 1]) * 10 + (s[|s| - 1] as int - '0' as int)
  }

  /** Reading the decimal text back gives the number, and only zero
      itself starts with the digit 0. */
  lemma {:induction false} NatToStringRoundTrip(n: nat)
    ensures DigitsValue(NatToString(n)) == n
    ensures NatToString(n)[0] == '0' ==> n == 0
  {
    if n >= 10 {
      NatToStringRoundTrip(n / 10);
      var r := NatToString(n);
      assert r[..|r| - 1] == NatToString(n / 10);
    }
  }
}

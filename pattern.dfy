/** The first match of the address pattern
      [a-zA-Z0-9._%+-]+@[a-zA-Z0-9.-]+\.[a-zA-Z]{2,}
    in a header segment, as Python's backtracking `re.findall(...)[0]`
    finds it: the leftmost start at which the pattern matches, and at that
    start the greedy (longest) match. */
module AddressPattern {
  import opened Wrappers

  predicate IsAlpha(c: char) { 'a' <= c <= 'z' || 'A' <= c <= 'Z' }

  predicate IsAlnum(c: char) { IsAlpha(c) || '0' <= c <= '9' }

  /** `[a-zA-Z0-9._%+-]` */
  predicate IsLocalChar(c: char) {
    IsAlnum(c) || c == '.' || c == '_' || c == '%' || c == '+' || c == '-'
  }

  /** `[a-zA-Z0-9.-]` */
  predicate IsDomainChar(c: char) { IsAlnum(c) || c == '.' || c == '-' }

  datatype Class = Local | Domain | Alpha

  predicate In(cls: Class, c: char) {
    match cls
    case Local => IsLocalChar(c)
    case Domain => IsDomainChar(c)
    case Alpha => IsAlpha(c)
  }

  /** `s[a..b]` is a match of the pattern whose `@` is at `at` and whose
      last `.` (the one before the top-level domain) is at `dot`. */
  predicate AddressAt(s: string, a: int, at: int, dot: int, b: int) {
    && 0 <= a < at && at + 1 < dot && dot + 2 < b <= |s|
    && s[at] == '@' && s[dot] == '.'
    && (forall i :: a <= i < at ==> IsLocalChar(s[i]))
    && (forall i :: at < i < dot ==> IsDomainChar(s[i]))
    && (forall i :: dot < i < b ==> IsAlpha(s[i]))
  }

  /** The whole of `t` matches the pattern. */
  ghost predicate IsAddress(t: string) {
    exists at, dot :: AddressAt(t, 0, at, dot, |t|)
  }

  /** The end of the run of `cls` characters that starts at `i`. */
  function Scan(s: string, i: nat, cls: Class): (r: nat)
    requires i <= |s|
    ensures i <= r <= |s|
    ensures forall k :: i <= k < r ==> In(cls, s[k])
    ensures r == |s| || !In(cls, s[r])
    decreases |s| - i
  {
    if i < |s| && In(cls, s[i]) then Scan(s, i + 1, cls) else i
  }

  /** A `.` followed by two letters: where `\.[a-zA-Z]{2,}` can start. */
  predicate IsTldDot(s: string, q: int) {
    0 <= q && q + 2 < |s| && s[q] == '.' && IsAlpha(s[q + 1]) && IsAlpha(s[q + 2])
  }

  /** The last position in `lo..hi` where the top-level domain can start:
      the greedy domain part gives back characters from the right until
      `\.[a-zA-Z]{2,}` matches. */
  function LastTldDot(s: string, lo: nat, hi: int): (r: Option<nat>)
    ensures r.Some? ==> lo <= r.value <= hi && IsTldDot(s, r.value)
                        && forall q :: r.value < q <= hi ==> !IsTldDot(s, q)
    ensures r.None? ==> forall q :: lo <= q <= hi ==> !IsTldDot(s, q)
    decreases hi - lo + 1
  {
    if hi < lo then None
    else if IsTldDot(s, hi) then Some(hi)
    else LastTldDot(s, lo, hi - 1)
  }

  /** The end of the match starting at `a`, if the pattern matches there. */
  function MatchAt(s: string, a: nat): (r: Option<nat>)
    requires a <= |s|
    ensures r.Some? ==> a < r.value <= |s|
  {
    var j := Scan(s, a, Local);
    if j == a || j == |s| || s[j] != '@' then None
    else
      var k := Scan(s, j + 1, Domain);
      match LastTldDot(s, j + 2, k - 3)
      case None => None
      case Some(p) => Some(Scan(s, p + 1, Alpha))
  }

  /** The span `(start, end)` of the first match at or after `i`. */
  function FirstSpanFrom(s: string, i: nat): (r: Option<(nat, nat)>)
    requires i <= |s|
    ensures r.Some? ==> i <= r.value.0 < r.value.1 <= |s|
    decreases |s| - i
  {
    if i == |s| then None
    else if MatchAt(s, i).Some? then Some((i, MatchAt(s, i).value))
    else FirstSpanFrom(s, i + 1)
  }

  function FirstSpan(s: string): (r: Option<(nat, nat)>)
    ensures r.Some? ==> r.value.0 < r.value.1 <= |s|
  {
    FirstSpanFrom(s, 0)
  }

  /** `re.findall(pattern, s)[0]`, or None when `re.findall` finds nothing. */
  function FirstMatch(s: string): Option<string> {
    match FirstSpan(s)
    case None => None
    case Some((a, e)) => Some(s[a..e])
  }

  // ---- Proofs ----

  /** A match found by `MatchAt` is a match of the pattern. */
  lemma MatchAtSound(s: string, a: nat)
    requires a <= |s| && MatchAt(s, a).Some?
    ensures var e := MatchAt(s, a).value; a < e <= |s|
    ensures exists at, dot :: AddressAt(s, a, at, dot, MatchAt(s, a).value)
  {
    var j := Scan(s, a, Local);
    var k := Scan(s, j + 1, Domain);
    var p := LastTldDot(s, j + 2, k - 3).value;
    var e := Scan(s, p + 1, Alpha);
    assert IsAlpha(s[p + 1]) && IsAlpha(s[p + 2]);
    assert e >= p + 3;
    assert AddressAt(s, a, j, p, e);
  }

  lemma ScanStopsAt(s: string, i: nat, cls: Class, n: nat)
    requires i <= n <= |s|
    requires forall k :: i <= k < n ==> In(cls, s[k])
    requires n == |s| || !In(cls, s[n])
    ensures Scan(s, i, cls) == n
  {
  }

  lemma ScanReaches(s: string, i: nat, cls: Class, n: nat)
    requires i <= n <= |s|
    requires forall k :: i <= k < n ==> In(cls, s[k])
    ensures Scan(s, i, cls) >= n
  {
  }

  /** Wherever the pattern matches at `a`, `MatchAt` finds a match there,
      and none shorter than any match at `a`: it is the greedy one. */
  lemma MatchAtCompleteAndLongest(s: string, a: nat, at: int, dot: int, b: int)
    requires AddressAt(s, a, at, dot, b)
    ensures MatchAt(s, a).Some? && MatchAt(s, a).value >= b
  {
    ScanStopsAt(s, a, Local, at);
    var j := Scan(s, a, Local);
    assert j == at;
    ScanReaches(s, j + 1, Domain, b);
    var k := Scan(s, j + 1, Domain);
    assert IsTldDot(s, dot);
    var p := LastTldDot(s, j + 2, k - 3).value;
    if p == dot {
      ScanReaches(s, p + 1, Alpha, b);
    } else {
      assert p > dot;
    }
  }

  /** A match of the pattern is a match wherever it stands in a text. */
  lemma AddressAtShift(s: string, a: int, b: int)
    requires 0 <= a <= b <= |s|
    ensures IsAddress(s[a..b]) <==> exists at, dot :: AddressAt(s, a, at, dot, b)
  {
    var t := s[a..b];
    if IsAddress(t) {
      var at, dot :| AddressAt(t, 0, at, dot, |t|);
      assert forall i :: 0 <= i < |t| ==> t[i] == s[a + i];
      assert AddressAt(s, a, at + a, dot + a, b);
    }
    if exists at, dot :: AddressAt(s, a, at, dot, b) {
      var at, dot :| AddressAt(s, a, at, dot, b);
      assert forall i :: a <= i < b ==> s[i] == t[i - a];
      assert AddressAt(t, 0, at - a, dot - a, |t|);
    }
  }

  /** No match of the pattern starts at `a` when `MatchAt` finds none. */
  lemma NoMatchAt(s: string, a: nat)
    requires a <= |s| && MatchAt(s, a).None?
    ensures forall b :: a <= b <= |s| ==> !IsAddress(s[a..b])
  {
    forall b | a <= b <= |s| ensures !IsAddress(s[a..b]) {
      AddressAtShift(s, a, b);
      if exists at, dot :: AddressAt(s, a, at, dot, b) {
        var at, dot :| AddressAt(s, a, at, dot, b);
        MatchAtCompleteAndLongest(s, a, at, dot, b);
      }
    }
  }

  /** The span found from `i` starts at the leftmost position `>= i` where
      the pattern matches, and ends where the longest match there ends. */
  lemma {:induction false} FirstSpanFromSpec(s: string, i: nat)
    requires i <= |s|
    ensures FirstSpanFrom(s, i).Some? ==>
              MatchAt(s, FirstSpanFrom(s, i).value.0) == Some(FirstSpanFrom(s, i).value.1)
    ensures FirstSpanFrom(s, i).Some? ==>
              forall a' :: i <= a' < FirstSpanFrom(s, i).value.0 ==> MatchAt(s, a').None?
    ensures FirstSpanFrom(s, i).None? ==> forall a' :: i <= a' <= |s| ==> MatchAt(s, a').None?
    decreases |s| - i
  {
    if i == |s| {
      assert Scan(s, i, Local) == i;
      assert MatchAt(s, i).None?;
    } else if MatchAt(s, i).None? {
      FirstSpanFromSpec(s, i + 1);
      assert FirstSpanFrom(s, i) == FirstSpanFrom(s, i + 1);
    }
  }

  /** The first match, characterised without reference to how it is
      found: it matches the pattern, no match starts further left, and no
      match from the same start is longer. With no match, no slice of the
      text matches at all. */
  lemma FirstSpanIsLeftmostLongest(s: string)
    ensures FirstSpan(s).Some? ==>
              var (a, e) := FirstSpan(s).value;
              a <= e <= |s| && IsAddress(s[a..e])
              && (forall a', b' :: 0 <= a' < a && a' <= b' <= |s| ==> !IsAddress(s[a'..b']))
              && (forall b' :: e < b' <= |s| ==> !IsAddress(s[a..b']))
    ensures FirstSpan(s).None? ==>
              forall a', b' :: 0 <= a' <= b' <= |s| ==> !IsAddress(s[a'..b'])
  {
    FirstSpanFromSpec(s, 0);
    if FirstSpan(s).Some? {
      var (a, e) := FirstSpan(s).value;
      MatchAtSound(s, a);
      AddressAtShift(s, a, e);
      forall a', b' | 0 <= a' < a && a' <= b' <= |s| ensures !IsAddress(s[a'..b']) {
        NoMatchAt(s, a');
      }
      forall b' | e < b' <= |s| ensures !IsAddress(s[a..b']) {
        AddressAtShift(s, a, b');
        if exists at, dot :: AddressAt(s, a, at, dot, b') {
          var at, dot :| AddressAt(s, a, at, dot, b');
          MatchAtCompleteAndLongest(s, a, at, dot, b');
        }
      }
    } else {
      forall a', b' | 0 <= a' <= b' <= |s| ensures !IsAddress(s[a'..b']) {
        NoMatchAt(s, a');
      }
    }
  }

  /** What a match looks like: it contains `@`, every character is one
      the pattern allows, and it ends in `.` and at least two letters. */
  lemma AddressShape(t: string)
    requires IsAddress(t)
    ensures '@' in t
    ensures forall i :: 0 <= i < |t| ==> IsLocalChar(t[i]) || t[i] == '@'
    ensures exists dot :: 0 < dot < |t| - 2 && t[dot] == '.'
                          && forall i :: dot < i < |t| ==> IsAlpha(t[i])
  {
    var at, dot :| AddressAt(t, 0, at, dot, |t|);
    assert t[at] == '@';
  }
}

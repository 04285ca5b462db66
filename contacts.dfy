/** The per-address statistics `scan_sent_folder` keeps in
    `self.email_addresses`: a dictionary from lower-cased email to a record
    of count, first name seen and first date seen, which remembers the
    order in which its keys were first inserted. */
module Contacts {
  import opened Wrappers
  import opened HeaderParser

  /** One dictionary value: `{'count', 'name', 'last_used'}`. */
  datatype Record = Record(count: nat, name: string, lastUsed: Option<string>)

  /** What the `defaultdict` factory creates on first access. */
  const Fresh := Record(0, "", None)

  /** The dictionary as a value: its entries, and its keys in insertion order. */
  datatype Table = Table(records: map<string, Record>, order: seq<string>)

  const Empty := Table(map[], [])

  predicate Distinct(s: seq<string>) {
    forall i, j :: 0 <= i < j < |s| ==> s[i] != s[j]
  }

  /** The key list lists each key of the map exactly once, and every
      record was observed at least once. */
  ghost predicate WellFormed(t: Table) {
    && Distinct(t.order)
    && (forall k :: k in t.records <==> k in t.order)
    && (forall k :: k in t.records ==> t.records[k].count >= 1)
  }

  /** `self.email_addresses[e]`, creating nothing. */
  function Lookup(t: Table, e: string): Record {
    if e in t.records then t.records[e] else Fresh
  }

  /** Python's truth test on `last_used`: None and the empty string are false. */
  predicate IsUnset(o: Option<string>) {
    o.None? || o.value == ""
  }

  /** One iteration of the per-address loop in `scan_sent_folder`: count
      once more, keep the first non-empty name, and record `date` as the
      first date only if none is recorded yet. The front ends that record
      no date pass `""`. */
  function Observed(t: Table, email: string, name: string, date: string): Table {
    var r := Lookup(t, email);
    var r' := Record(r.count + 1,
                     if name != "" && r.name == "" then name else r.name,
                     if date != "" && IsUnset(r.lastUsed) then Some(date) else r.lastUsed);
    Table(t.records[email := r'], if email in t.records then t.order else t.order + [email])
  }

  /** Observing raises that email's count by exactly one, appends the email
      to the key order only on its first occurrence, and leaves every other
      entry unchanged. */
  lemma ObserveEffect(t: Table, email: string, name: string, date: string)
    requires WellFormed(t)
    ensures var t' := Observed(t, email, name, date);
            && WellFormed(t')
            && email in t'.records
            && t'.records[email].count == Lookup(t, email).count + 1
            && (forall k :: k != email ==> Lookup(t', k) == Lookup(t, k))
            && (forall k :: k != email ==> (k in t'.records <==> k in t.records))
            && t'.order == if email in t.records then t.order else t.order + [email]
  {
    var t' := Observed(t, email, name, date);
    if email !in t.records {
      assert email !in t.order;
      assert forall i :: 0 <= i < |t.order| ==> t'.order[i] == t.order[i];
    }
  }

  /** `name` and `last_used` are written once: set only while unset and
      only to a non-empty value, and never overwritten afterwards. */
  lemma ObserveWriteOnce(t: Table, email: string, name: string, date: string)
    ensures var before := Lookup(t, email);
            var after := Lookup(Observed(t, email, name, date), email);
            && (before.name != "" ==> after.name == before.name)
            && (before.name == "" ==> after.name == name)
            && (!IsUnset(before.lastUsed) ==> after.lastUsed == before.lastUsed)
            && (IsUnset(before.lastUsed) && date != "" ==> after.lastUsed == Some(date))
            && (date == "" ==> after.lastUsed == before.lastUsed)
  {
  }

  /** The whole per-address loop over the pairs of one header. */
  function ObservedAll(t: Table, pairs: seq<Address>, date: string): Table
    decreases |pairs|
  {
    if pairs == [] then t
    else
      var last := pairs[|pairs| - 1];
      Observed(ObservedAll(t, pairs[..|pairs| - 1], date), last.email, last.name, date)
  }

  /** How many pairs carry `email`. */
  function Occurrences(pairs: seq<Address>, email: string): (n: nat)
    ensures n <= |pairs|
  {
    if pairs == [] then 0
    else Occurrences(pairs[..|pairs| - 1], email) + (if pairs[|pairs| - 1].email == email then 1 else 0)
  }

  /** Exact counting: after folding the pairs, each email's count has
      grown by the number of pairs that carry it. */
  lemma {:induction false} ObserveAllCounts(t: Table, pairs: seq<Address>, date: string, email: string)
    ensures Lookup(ObservedAll(t, pairs, date), email).count == Lookup(t, email).count + Occurrences(pairs, email)
    decreases |pairs|
  {
    if pairs != [] {
      ObserveAllCounts(t, pairs[..|pairs| - 1], date, email);
    }
  }

  lemma {:induction false} ObserveAllWellFormed(t: Table, pairs: seq<Address>, date: string)
    requires WellFormed(t)
    ensures WellFormed(ObservedAll(t, pairs, date))
    ensures forall k :: k in ObservedAll(t, pairs, date).records <==>
                          k in t.records || exists i :: 0 <= i < |pairs| && pairs[i].email == k
    decreases |pairs|
  {
    if pairs != [] {
      var init := pairs[..|pairs| - 1];
      ObserveAllWellFormed(t, init, date);
      var last := pairs[|pairs| - 1];
      ObserveEffect(ObservedAll(t, init, date), last.email, last.name, date);
      forall k ensures k in ObservedAll(t, pairs, date).records <==>
                       k in t.records || exists i :: 0 <= i < |pairs| && pairs[i].email == k {
        if exists i :: 0 <= i < |pairs| && pairs[i].email == k {
          var i :| 0 <= i < |pairs| && pairs[i].email == k;
          if i < |pairs| - 1 {
            assert init[i].email == k;
          }
        }
        if exists i :: 0 <= i < |init| && init[i].email == k {
          var i :| 0 <= i < |init| && init[i].email == k;
          assert pairs[i].email == k;
        }
      }
    }
  }

  /** The sum of all counts, over the keys in insertion order. */
  function Total(records: map<string, Record>, keys: seq<string>): int {
    if keys == [] then 0
    else Total(records, keys[..|keys| - 1]) + (if keys[|keys| - 1] in records then records[keys[|keys| - 1]].count else 0)
  }

  function TotalCount(t: Table): int {
    Total(t.records, t.order)
  }

  /** Changing one key's record changes the total by the change in that
      record's count, when the key is listed once. */
  lemma {:induction false} TotalUpdate(records: map<string, Record>, keys: seq<string>, e: string, r: Record)
    requires Distinct(keys)
    ensures Total(records[e := r], keys)
            == Total(records, keys) + (if e in keys then r.count - (if e in records then records[e].count else 0) else 0)
    decreases |keys|
  {
    if keys != [] {
      var init := keys[..|keys| - 1];
      assert Distinct(init);
      TotalUpdate(records, init, e, r);
      if keys[|keys| - 1] == e {
        assert e !in init;
      }
      assert e in keys <==> e in init || keys[|keys| - 1] == e;
    }
  }

  lemma TotalAppend(records: map<string, Record>, keys: seq<string>, e: string)
    ensures Total(records, keys + [e]) == Total(records, keys) + (if e in records then records[e].count else 0)
  {
    assert (keys + [e])[..|keys|] == keys;
  }

  /** One observation adds exactly one to the sum of counts. */
  lemma ObserveTotal(t: Table, email: string, name: string, date: string)
    requires WellFormed(t)
    ensures TotalCount(Observed(t, email, name, date)) == TotalCount(t) + 1
  {
    var r := Lookup(t, email);
    var t' := Observed(t, email, name, date);
    TotalUpdate(t.records, t.order, email, t'.records[email]);
    if email !in t.records {
      TotalAppend(t'.records, t.order, email);
    }
  }

  /** The sum of counts equals the number of pairs folded. */
  lemma {:induction false} ObserveAllTotal(t: Table, pairs: seq<Address>, date: string)
    requires WellFormed(t)
    ensures TotalCount(ObservedAll(t, pairs, date)) == TotalCount(t) + |pairs|
    decreases |pairs|
  {
    if pairs != [] {
      var init := pairs[..|pairs| - 1];
      ObserveAllTotal(t, init, date);
      ObserveAllWellFormed(t, init, date);
      var last := pairs[|pairs| - 1];
      ObserveTotal(ObservedAll(t, init, date), last.email, last.name, date);
    }
  }

  /** The first non-empty name among the pairs that carry `email`, or `""`. */
  function FirstName(pairs: seq<Address>, email: string): string {
    if pairs == [] then ""
    else if pairs[0].email == email && pairs[0].name != "" then pairs[0].name
    else FirstName(pairs[1..], email)
  }

  lemma {:induction false} FirstNameSnoc(pairs: seq<Address>, p: Address, email: string)
    ensures FirstName(pairs + [p], email)
            == if FirstName(pairs, email) != "" then FirstName(pairs, email)
               else if p.email == email then p.name else ""
  {
    if pairs != [] {
      assert (pairs + [p])[1..] == pairs[1..] + [p];
      FirstNameSnoc(pairs[1..], p, email);
    } else {
      assert ([] + [p])[1..] == [];
    }
  }

  /** First wins: after folding, an email's name is the name it already
      had, or else the first non-empty name the pairs gave it. */
  lemma {:induction false} ObserveAllFirstNameWins(t: Table, pairs: seq<Address>, date: string, email: string)
    ensures Lookup(ObservedAll(t, pairs, date), email).name
            == if Lookup(t, email).name != "" then Lookup(t, email).name else FirstName(pairs, email)
    decreases |pairs|
  {
    if pairs != [] {
      var init := pairs[..|pairs| - 1];
      var last := pairs[|pairs| - 1];
      ObserveAllFirstNameWins(t, init, date, email);
      assert pairs == init + [last];
      FirstNameSnoc(init, last, email);
      ObserveWriteOnce(ObservedAll(t, init, date), last.email, last.name, date);
    }
  }

  /** The in-place dictionary of one scan session. */
  class Aggregator {
    var records: map<string, Record>
    var order: seq<string>

    function Contents(): Table
      reads this
    {
      Table(records, order)
    }

    ghost predicate Valid()
      reads this
    {
      WellFormed(Contents())
    }

    constructor ()
      ensures Valid() && Contents() == Empty
    {
      records := map[];
      order := [];
    }

    /** `self.email_addresses[email]` updated for one occurrence. */
    method Observe(email: string, name: string, date: string)
      requires Valid()
      modifies this
      ensures Valid()
      ensures Contents() == Observed(old(Contents()), email, name, date)
    {
      ObserveEffect(Contents(), email, name, date);
      var r := if email in records then records[email] else Fresh;
      var r' := Record(r.count + 1,
                       if name != "" && r.name == "" then name else r.name,
                       if date != "" && (r.lastUsed.None? || r.lastUsed.value == "") then Some(date) else r.lastUsed);
      if email !in records {
        order := order + [email];
      }
      records := records[email := r'];
    }

    /** `for email_addr, name in addresses: ...` for one header's pairs. */
    method ObserveAll(pairs: seq<Address>, date: string)
      requires Valid()
      modifies this
      ensures Valid()
      ensures Contents() == ObservedAll(old(Contents()), pairs, date)
    {
      var i := 0;
      while i < |pairs|
        invariant 0 <= i <= |pairs|
        invariant Valid()
        invariant Contents() == ObservedAll(old(Contents()), pairs[..i], date)
      {
        assert pairs[..i + 1][..i] == pairs[..i];
        Observe(pairs[i].email, pairs[i].name, date);
        i := i + 1;
      }
      assert pairs[..i] == pairs;
    }

    /** `len(self.email_addresses)`: the number of distinct emails seen. */
    method Size() returns (n: nat)
      requires Valid()
      ensures n == |Contents().records|
      ensures n == |Contents().order|
    {
      n := |order|;
      DistinctKeysCount(Contents());
    }
  }

  /** With the key list free of repeats, there are as many keys as entries. */
  lemma DistinctKeysCount(t: Table)
    requires WellFormed(t)
    ensures |t.records| == |t.order|
  {
    var keys := t.records.Keys;
    assert keys == set k | k in t.order;
    DistinctCard(t.order);
  }

  lemma {:induction false} DistinctCard(s: seq<string>)
    requires Distinct(s)
    ensures |set k | k in s| == |s|
  {
    if s != [] {
      var init := s[..|s| - 1];
      assert Distinct(init);
      DistinctCard(init);
      var last := s[|s| - 1];
      assert last !in init;
      assert (set k | k in s) == (set k | k in init) + {last};
    }
  }
}

/** The fmt command of cmd/fmt.go: check mode validates the local record
    entries, normalise mode rewrites them in place and offers to remove the
    restricted ones. */
module Fmt {
  import opened Models
  import opened Seqs
  import opened Utils

  /** The record types the tool proxies through the provider. */
  predicate ProxyType(t: string)
  {
    t == "A" || t == "AAAA" || t == "CNAME"
  }

  // ---------------------------------------------------------------------------
  // Check mode

  datatype Field = TypeField | NameField | ContentField

  datatype CheckOutcome =
    | EmptyField(index: nat, field: Field)        // "record <field> cannot be empty"
    | RestrictedFound(restricted: seq<Record>)    // "Restricted subdomains found"
    | Pass(valid: nat, warn: bool)                // "PASS ok", with or without the warning

  /** The record types whose restricted names check mode reports. */
  const CheckedTypes: seq<string> := ["A", "AAAA", "CNAME", "TXT", "MX", "SRV"]

  /** The first of type, name and content that is empty, in that order. */
  function MissingField(r: Record): (m: Option<Field>)
    ensures m.None? <==> r.rtype != "" && r.name != "" && r.content != ""
    ensures m == Some(TypeField) <==> r.rtype == ""
    ensures m == Some(NameField) <==> r.rtype != "" && r.name == ""
  {
    if r.rtype == "" then Some(TypeField)
    else if r.name == "" then Some(NameField)
    else if r.content == "" then Some(ContentField)
    else None
  }

  /** An A, AAAA or CNAME record that is not proxied: only worth a warning. */
  predicate Unproxied(r: Record)
  {
    !r.proxied && ProxyType(r.rtype)
  }

  /** Check mode fails: an entry lacks a field, or an entry of a checked type
      carries a restricted name. */
  ghost predicate CheckFails(entries: seq<Records>, restrictedList: seq<string>, matches: Matcher)
  {
    (exists i :: 0 <= i < |entries| && MissingField(entries[i].record).Some?) ||
    Restricted(EnabledRecords(entries, CheckedTypes), restrictedList, matches) != []
  }

  /** Check mode over the entries already read from the records file. */
  method Check(entries: seq<Records>, restrictedList: seq<string>, matches: Matcher) returns (outcome: CheckOutcome)
    ensures outcome.EmptyField? <==> exists i :: 0 <= i < |entries| && MissingField(entries[i].record).Some?
    ensures outcome.EmptyField? ==>
      && outcome.index < |entries|
      && MissingField(entries[outcome.index].record) == Some(outcome.field)
      && forall j :: 0 <= j < outcome.index ==> MissingField(entries[j].record).None?
    ensures outcome.RestrictedFound? ==>
      outcome.restricted == Restricted(EnabledRecords(entries, CheckedTypes), restrictedList, matches) &&
      outcome.restricted != []
    ensures outcome.Pass? <==> !CheckFails(entries, restrictedList, matches)
    ensures outcome.Pass? ==>
      outcome.valid == |entries| && (outcome.warn <==> exists i :: 0 <= i < |entries| && Unproxied(entries[i].record))
  {
    var warn := false;
    var hasError := false;
    var id := 0;
    while id < |entries|
      invariant 0 <= id <= |entries|
      invariant forall j :: 0 <= j < id ==> MissingField(entries[j].record).None?
      invariant warn <==> exists j :: 0 <= j < id && Unproxied(entries[j].record)
    {
      var record := entries[id].record;
      if !record.proxied && (record.rtype == "A" || record.rtype == "AAAA" || record.rtype == "CNAME") {
        warn := true;
      }
      if record.rtype == "" {
        return EmptyField(id, TypeField);
      }
      if record.name == "" {
        return EmptyField(id, NameField);
      }
      if record.content == "" {
        return EmptyField(id, ContentField);
      }
      id := id + 1;
    }
    var localRecords := GetDNSRecords(entries, CheckedTypes);
    var _, restrictedRecords := RemoveRestrictedSubdomains(localRecords, restrictedList, matches);
    if |restrictedRecords| > 0 {
      hasError := true;
    }
    if hasError {
      return RestrictedFound(restrictedRecords);
    }
    return Pass(|entries|, warn);
  }

  /** The restricted-name failure does not depend on which records are
      proxied: unproxied records only ever raise the warning. */
  lemma CheckFailsIgnoresProxied(entries: seq<Records>, i: int, proxied: bool,
                                 restrictedList: seq<string>, matches: Matcher)
    requires 0 <= i < |entries|
    ensures var e := entries[i];
      CheckFails(entries[i := e.(record := e.record.(proxied := proxied))], restrictedList, matches) ==
      CheckFails(entries, restrictedList, matches)
  {
    var e := entries[i];
    var entries' := entries[i := e.(record := e.record.(proxied := proxied))];
    forall k | 0 <= k < |entries| ensures MissingField(entries'[k].record) == MissingField(entries[k].record) {
    }
    NoRestrictedIffNone(entries, restrictedList, matches);
    NoRestrictedIffNone(entries', restrictedList, matches);
    forall k | 0 <= k < |entries|
      ensures RestrictedChecked(entries'[k].record, restrictedList, matches) ==
              RestrictedChecked(entries[k].record, restrictedList, matches)
    {
    }
  }

  /** A record of a checked type whose name is restricted. */
  predicate RestrictedChecked(r: Record, restrictedList: seq<string>, matches: Matcher)
  {
    r.rtype in CheckedTypes && IsRestricted(r.name, restrictedList, matches)
  }

  /** The restricted check finds nothing exactly when no entry is a restricted
      record of a checked type. */
  lemma NoRestrictedIffNone(entries: seq<Records>, restrictedList: seq<string>, matches: Matcher)
    ensures Restricted(EnabledRecords(entries, CheckedTypes), restrictedList, matches) == [] <==>
      forall k :: 0 <= k < |entries| ==> !RestrictedChecked(entries[k].record, restrictedList, matches)
  {
    var local := EnabledRecords(entries, CheckedTypes);
    var restricted := Restricted(local, restrictedList, matches);
    EnabledRecordsExact(entries, CheckedTypes);
    RestrictedPartition(local, restrictedList, matches);
    if restricted != [] {
      assert restricted[0] in restricted;
      var k :| 0 <= k < |entries| && entries[k].record == restricted[0];
      assert RestrictedChecked(entries[k].record, restrictedList, matches);
    }
    if k :| 0 <= k < |entries| && RestrictedChecked(entries[k].record, restrictedList, matches) {
      assert entries[k].record in local;
      assert entries[k].record in restricted;
    }
  }

  // ---------------------------------------------------------------------------
  // Normalise mode: the formatting pass

  /** A record as the pass leaves it: proxiable forced on; for A, AAAA and
      CNAME records proxied forced on and a TTL of 0 turned into 1 (automatic);
      the ID, type, name and content stay. */
  function FormatRecord(r: Record): (f: Record)
    ensures f.proxiable
    ensures ProxyType(r.rtype) ==> f.proxied && f.ttl == (if r.ttl == 0 then 1 else r.ttl)
    ensures !ProxyType(r.rtype) ==> f.proxied == r.proxied && f.ttl == r.ttl
    ensures f.id == r.id && f.rtype == r.rtype && f.name == r.name && f.content == r.content
  {
    var f := r.(proxiable := true);
    var f := if ProxyType(f.rtype) && !f.proxied then f.(proxied := true) else f;
    if ProxyType(f.rtype) && f.ttl == 0 then f.(ttl := 1) else f
  }

  /** The pass changes the proxied flag, the TTL or both. */
  predicate NeedsFormat(r: Record)
  {
    ProxyType(r.rtype) && (!r.proxied || r.ttl == 0)
  }

  /** The body of the formatting loop for one record: the record it writes
      back and whether the pass counts it (once, whether it changed the
      proxied flag, the TTL or both). */
  method FormatFields(record: Record) returns (r: Record, flag: bool)
    ensures r == FormatRecord(record)
    ensures flag <==> NeedsFormat(record)
  {
    r := record.(proxiable := true);
    flag := false;
    if ProxyType(r.rtype) && !r.proxied {
      r := r.(proxied := true);
      flag := true;
    }
    if ProxyType(r.rtype) && r.ttl == 0 {
      r := r.(ttl := 1);
      flag := true;
    }
  }

  /** A file entry with its record formatted; description, repository and
      owner stay. */
  function FormatEntry(e: Records): (f: Records)
  {
    e.(record := FormatRecord(e.record))
  }

  function FormatAll(s: seq<Records>): (t: seq<Records>)
    ensures |t| == |s|
    ensures forall k :: 0 <= k < |s| ==> t[k] == FormatEntry(s[k])
  {
    seq(|s|, k requires 0 <= k < |s| => FormatEntry(s[k]))
  }

  /** How many of the first n records the pass reports as formatted. */
  function CountFlaggedUpTo(s: seq<Records>, n: nat): (count: nat)
    requires n <= |s|
  {
    if n == 0 then 0
    else CountFlaggedUpTo(s, n - 1) + if NeedsFormat(s[n - 1].record) then 1 else 0
  }

  function CountFlagged(s: seq<Records>): (count: nat)
  {
    CountFlaggedUpTo(s, |s|)
  }

  /** The positions among the first n whose record name is restricted, in order. */
  function RestrictedIndicesUpTo(s: seq<Records>, n: nat, restrictedList: seq<string>, matches: Matcher): (removeList: seq<nat>)
    requires n <= |s|
  {
    if n == 0 then []
    else
      var last := if IsRestricted(s[n - 1].record.name, restrictedList, matches) then [n - 1] else [];
      RestrictedIndicesUpTo(s, n - 1, restrictedList, matches) + last
  }

  function RestrictedIndices(s: seq<Records>, restrictedList: seq<string>, matches: Matcher): (removeList: seq<nat>)
  {
    RestrictedIndicesUpTo(s, |s|, restrictedList, matches)
  }

  /** The formatting loop over the records slice; it also notes which
      positions hold restricted names. */
  method FormatPass(a: array<Records>, restrictedList: seq<string>, matches: Matcher)
    returns (count: nat, removeList: seq<nat>)
    modifies a
    ensures a[..] == FormatAll(old(a[..]))
    ensures count == CountFlagged(old(a[..]))
    ensures removeList == RestrictedIndices(old(a[..]), restrictedList, matches)
  {
    count, removeList := 0, [];
    var i: nat := 0;
    while i < a.Length
      invariant 0 <= i <= a.Length
      invariant forall k :: 0 <= k < i ==> a[k] == FormatEntry(old(a[k]))
      invariant forall k :: i <= k < a.Length ==> a[k] == old(a[k])
      invariant count == CountFlaggedUpTo(old(a[..]), i)
      invariant removeList == RestrictedIndicesUpTo(old(a[..]), i, restrictedList, matches)
    {
      var record, flag := FormatFields(a[i].record);
      if flag {
        count := count + 1;
      }
      a[i] := a[i].(record := record);
      if IsRestricted(a[i].record.name, restrictedList, matches) {
        removeList := removeList + [i];
      }
      i := i + 1;
    }
  }

  /** The pass counts each record at most once. */
  lemma {:induction false} CountFlaggedBound(s: seq<Records>, n: nat)
    requires n <= |s|
    ensures CountFlaggedUpTo(s, n) <= n
  {
    if n > 0 {
      CountFlaggedBound(s, n - 1);
    }
  }

  /** A second pass changes nothing and counts nothing. */
  lemma FormatIdempotent(s: seq<Records>)
    ensures FormatAll(FormatAll(s)) == FormatAll(s)
    ensures CountFlagged(FormatAll(s)) == 0
  {
    var t := FormatAll(s);
    NothingFlagged(t, |t|);
  }

  lemma {:induction false} NothingFlagged(s: seq<Records>, n: nat)
    requires n <= |s|
    requires forall k :: 0 <= k < |s| ==> s[k].record == FormatRecord(s[k].record)
    ensures CountFlaggedUpTo(s, n) == 0
  {
    if n > 0 {
      NothingFlagged(s, n - 1);
      assert s[n - 1].record == FormatRecord(s[n - 1].record);
    }
  }

  predicate Increasing(xs: seq<nat>)
  {
    forall m, p :: 0 <= m < p < |xs| ==> xs[m] < xs[p]
  }

  /** The remove list is in increasing order. */
  lemma {:induction false} RestrictedIndicesSorted(s: seq<Records>, n: nat, restrictedList: seq<string>, matches: Matcher)
    requires n <= |s|
    ensures Increasing(RestrictedIndicesUpTo(s, n, restrictedList, matches))
  {
    if n > 0 {
      var ri, ri' := RestrictedIndicesUpTo(s, n, restrictedList, matches), RestrictedIndicesUpTo(s, n - 1, restrictedList, matches);
      RestrictedIndicesSorted(s, n - 1, restrictedList, matches);
      RestrictedIndicesBelow(s, n - 1, restrictedList, matches);
      forall m, p | 0 <= m < p < |ri| ensures ri[m] < ri[p] {
        if p >= |ri'| {
          assert ri[p] == n - 1 && ri[m] == ri'[m];
        } else {
          assert ri[p] == ri'[p] && ri[m] == ri'[m];
        }
      }
    }
  }

  /** The remove list holds exactly the positions whose record name is
      restricted. */
  lemma {:induction false} RestrictedIndicesMembers(s: seq<Records>, n: nat, restrictedList: seq<string>, matches: Matcher)
    requires n <= |s|
    ensures forall k :: k in RestrictedIndicesUpTo(s, n, restrictedList, matches) <==>
      0 <= k < n && IsRestricted(s[k].record.name, restrictedList, matches)
  {
    if n > 0 {
      RestrictedIndicesMembers(s, n - 1, restrictedList, matches);
    }
  }

  lemma {:induction false} RestrictedIndicesBelow(s: seq<Records>, n: nat, restrictedList: seq<string>, matches: Matcher)
    requires n <= |s|
    ensures forall m :: 0 <= m < |RestrictedIndicesUpTo(s, n, restrictedList, matches)| ==>
      RestrictedIndicesUpTo(s, n, restrictedList, matches)[m] < n
  {
    if n > 0 {
      RestrictedIndicesBelow(s, n - 1, restrictedList, matches);
    }
  }

  // ---------------------------------------------------------------------------
  // Normalise mode: removing restricted records as written

  /** The slice after removeRecords(s, i): the last element moves into slot i
      and the slice is one shorter. */
  function SwapRemove(s: seq<Records>, i: nat): (r: seq<Records>)
    requires i < |s|
    ensures |r| == |s| - 1
    ensures i < |r| ==> r[i] == s[|s| - 1]
    ensures forall k :: 0 <= k < |r| && k != i ==> r[k] == s[k]
  {
    s[i := s[|s| - 1]][..|s| - 1]
  }

  /** removeRecords drops exactly the element at position i. */
  lemma SwapRemoveMultiset(s: seq<Records>, i: nat)
    requires i < |s|
    ensures multiset(SwapRemove(s, i)) + multiset{s[i]} == multiset(s)
  {
    var n := |s| - 1;
    if i < n {
      assert s[..n] == s[..i] + [s[i]] + s[i + 1..n];
      assert SwapRemove(s, i) == s[..i] + [s[n]] + s[i + 1..n];
    }
    assert s == s[..n] + [s[n]];
  }

  /** removeRecords on the records slice, a prefix of `a` of length `len`. */
  method RemoveRecords(a: array<Records>, len: nat, i: nat) returns (newLen: nat)
    requires i < len <= a.Length
    modifies a
    ensures newLen == len - 1
    ensures a[..newLen] == SwapRemove(old(a[..len]), i)
    ensures a[..] == old(a[..])[i := old(a[len - 1])]
  {
    a[i] := a[len - 1];
    newLen := len - 1;
  }

  /** The removal loop as written: indices computed before any removal are
      applied one after the other; None stands for the index-out-of-range
      panic. */
  function RemoveEach(s: seq<Records>, removeList: seq<nat>): (result: Option<seq<Records>>)
    decreases |removeList|
  {
    if |removeList| == 0 then Some(s)
    else if removeList[0] < |s| then RemoveEach(SwapRemove(s, removeList[0]), removeList[1..])
    else None
  }

  method RemoveListed(a: array<Records>, len: nat, removeList: seq<nat>) returns (newLen: nat, panicked: bool)
    requires len <= a.Length
    modifies a
    ensures newLen <= len
    ensures RemoveEach(old(a[..len]), removeList) == if panicked then None else Some(a[..newLen])
  {
    newLen, panicked := len, false;
    var j := 0;
    while j < |removeList|
      invariant 0 <= j <= |removeList|
      invariant newLen <= len
      invariant RemoveEach(a[..newLen], removeList[j..]) == RemoveEach(old(a[..len]), removeList)
    {
      var i := removeList[j];
      assert removeList[j..][1..] == removeList[j + 1..];
      if i >= newLen {
        panicked := true;
        return;
      }
      newLen := RemoveRecords(a, newLen, i);
      j := j + 1;
    }
  }

  /** With two restricted records and the second one last, the second removal
      indexes past the end of the shortened slice: the command panics. */
  lemma StaleIndexPanics(x: Records, y: Records, restrictedList: seq<string>, matches: Matcher)
    requires IsRestricted(x.record.name, restrictedList, matches)
    requires IsRestricted(y.record.name, restrictedList, matches)
    ensures RestrictedIndices([x, y], restrictedList, matches) == [0, 1]
    ensures RemoveEach([x, y], RestrictedIndices([x, y], restrictedList, matches)) == None
  {
    assert RestrictedIndicesUpTo([x, y], 1, restrictedList, matches) == [0];
    assert SwapRemove([x, y], 0) == [y];
    assert [0, 1][1..] == [1];
  }

  /** More generally: whenever at least two records are restricted and the
      last one is, the last index of the remove list is reached after the
      slice has shrunk below it. */
  lemma StaleLastIndexPanics(s: seq<Records>, restrictedList: seq<string>, matches: Matcher)
    requires |RestrictedIndices(s, restrictedList, matches)| >= 2
    requires IsRestricted(s[|s| - 1].record.name, restrictedList, matches)
    ensures RemoveEach(s, RestrictedIndices(s, restrictedList, matches)) == None
  {
    var ri := RestrictedIndices(s, restrictedList, matches);
    RestrictedIndicesBelow(s, |s|, restrictedList, matches);
    assert ri[|ri| - 1] == |s| - 1;
    var t := SwapRemove(s, ri[0]);
    assert ri[1..][|ri| - 2] == |s| - 1;
    IndexPastEndPanics(t, ri[1..], |t|);
  }

  /** A remove list whose last index is at least the current length, which
      only ever shrinks, panics. */
  lemma {:induction false} IndexPastEndPanics(t: seq<Records>, removeList: seq<nat>, m: nat)
    requires |removeList| >= 1 && removeList[|removeList| - 1] >= m && |t| <= m
    ensures RemoveEach(t, removeList) == None
    decreases |removeList|
  {
    if removeList[0] < |t| {
      assert |removeList| >= 2;
      assert removeList[1..][|removeList| - 2] == removeList[|removeList| - 1];
      IndexPastEndPanics(SwapRemove(t, removeList[0]), removeList[1..], m);
    }
  }

  // ---------------------------------------------------------------------------
  // Normalise mode: removing restricted records, corrected

  function KeptPick(restrictedList: seq<string>, matches: Matcher): (pick: Records -> Option<Records>)
  {
    (e: Records) => if IsRestricted(e.record.name, restrictedList, matches) then None else Some(e)
  }

  /** The entries whose name no pattern matches, in order. */
  function Kept(s: seq<Records>, restrictedList: seq<string>, matches: Matcher): (kept: seq<Records>)
  {
    Collect(s, KeptPick(restrictedList, matches))
  }

  /** Removes the restricted entries from the records slice in place, keeping
      the order of the others. */
  method RemoveRestricted(a: array<Records>, restrictedList: seq<string>, matches: Matcher) returns (newLen: nat)
    modifies a
    ensures newLen <= a.Length
    ensures a[..newLen] == Kept(old(a[..]), restrictedList, matches)
  {
    ghost var s := a[..];
    newLen := 0;
    var i := 0;
    while i < a.Length
      invariant 0 <= newLen <= i <= a.Length
      invariant a[..newLen] == Kept(s[..i], restrictedList, matches)
      invariant forall k :: i <= k < a.Length ==> a[k] == s[k]
    {
      CollectPrefix(s, i, KeptPick(restrictedList, matches));
      if !IsRestricted(a[i].record.name, restrictedList, matches) {
        a[newLen] := a[i];
        newLen := newLen + 1;
      }
      i := i + 1;
    }
    assert s[..i] == s;
  }

  /** Exactly the restricted entries are removed: what is kept is every
      unrestricted entry, no restricted one, and as many entries as the remove
      list does not name. */
  lemma KeptExact(s: seq<Records>, restrictedList: seq<string>, matches: Matcher)
    ensures forall e :: e in Kept(s, restrictedList, matches) <==>
      e in s && !IsRestricted(e.record.name, restrictedList, matches)
    ensures |Kept(s, restrictedList, matches)| + |RestrictedIndices(s, restrictedList, matches)| == |s|
  {
    forall e
      ensures e in Kept(s, restrictedList, matches) <==> e in s && !IsRestricted(e.record.name, restrictedList, matches)
    {
      CollectMember(s, KeptPick(restrictedList, matches), e);
    }
    KeptCount(s, |s|, restrictedList, matches);
    assert s[..|s|] == s;
  }

  lemma {:induction false} KeptCount(s: seq<Records>, n: nat, restrictedList: seq<string>, matches: Matcher)
    requires n <= |s|
    ensures |Kept(s[..n], restrictedList, matches)| + |RestrictedIndicesUpTo(s, n, restrictedList, matches)| == n
  {
    if n > 0 {
      KeptCount(s, n - 1, restrictedList, matches);
      CollectPrefix(s, n - 1, KeptPick(restrictedList, matches));
    }
  }

  // ---------------------------------------------------------------------------
  // The loop as written against the corrected removal

  /** When the loop as written does not panic, it leaves the same entries as
      the corrected removal, though not necessarily in the same order. */
  lemma RemoveEachSameEntries(s: seq<Records>, restrictedList: seq<string>, matches: Matcher)
    ensures var result := RemoveEach(s, RestrictedIndices(s, restrictedList, matches));
      result.Some? ==> multiset(result.value) == multiset(Kept(s, restrictedList, matches))
  {
    var removeList := RestrictedIndices(s, restrictedList, matches);
    var result := RemoveEach(s, removeList);
    if result.Some? {
      var f, g := KeptPick(restrictedList, matches), RemovedPick(restrictedList, matches);
      RestrictedIndicesSorted(s, |s|, restrictedList, matches);
      RemoveEachMultiset(s, s, removeList, 0, result.value);
      RemovedAt(s, |s|, restrictedList, matches);
      assert s[..|s|] == s;
      assert forall e :: e in s ==> Exclusive(f, g, e);
      CollectPartition(s, f, g);
      MultisetCancel(multiset(result.value), multiset(Collect(s, f)), multiset(At(s, removeList)), multiset(s));
    }
  }

  /** The order differs: removing the first of three entries moves the last
      one into its slot, where the corrected removal keeps file order. */
  lemma SwapOrderExample(x: Records, y: Records, z: Records, restrictedList: seq<string>, matches: Matcher)
    requires IsRestricted(x.record.name, restrictedList, matches)
    requires !IsRestricted(y.record.name, restrictedList, matches)
    requires !IsRestricted(z.record.name, restrictedList, matches)
    ensures RemoveEach([x, y, z], RestrictedIndices([x, y, z], restrictedList, matches)) == Some([z, y])
    ensures Kept([x, y, z], restrictedList, matches) == [y, z]
  {
    var s := [x, y, z];
    assert RestrictedIndicesUpTo(s, 1, restrictedList, matches) == [0];
    assert RestrictedIndicesUpTo(s, 2, restrictedList, matches) == [0];
    assert SwapRemove(s, 0) == [z, y];
    assert [0][1..] == [];
    var pick := KeptPick(restrictedList, matches);
    CollectSnoc([], x, pick);
    CollectSnoc([x], y, pick);
    CollectSnoc([x, y], z, pick);
    assert [] + [x] == [x] && [x] + [y] == [x, y] && [x, y] + [z] == s;
  }

  function RemovedPick(restrictedList: seq<string>, matches: Matcher): (pick: Records -> Option<Records>)
  {
    (e: Records) => if IsRestricted(e.record.name, restrictedList, matches) then Some(e) else None
  }

  /** The entries of `s` at the positions `removeList` names, skipping any
      position past its end. */
  function At(s: seq<Records>, removeList: seq<nat>): (picked: seq<Records>)
    decreases |removeList|
  {
    if |removeList| == 0 then []
    else (if removeList[0] < |s| then [s[removeList[0]]] else []) + At(s, removeList[1..])
  }

  lemma {:induction false} AtSnoc(s: seq<Records>, removeList: seq<nat>, k: nat)
    requires k < |s|
    ensures At(s, removeList + [k]) == At(s, removeList) + [s[k]]
    decreases |removeList|
  {
    if |removeList| == 0 {
      assert removeList + [k] == [k] && [k][1..] == [];
    } else {
      assert (removeList + [k])[1..] == removeList[1..] + [k];
      AtSnoc(s, removeList[1..], k);
    }
  }

  /** The entries at the restricted positions are the restricted entries, in order. */
  lemma {:induction false} RemovedAt(s: seq<Records>, n: nat, restrictedList: seq<string>, matches: Matcher)
    requires n <= |s|
    ensures At(s, RestrictedIndicesUpTo(s, n, restrictedList, matches)) == Collect(s[..n], RemovedPick(restrictedList, matches))
  {
    if n > 0 {
      var prev := RestrictedIndicesUpTo(s, n - 1, restrictedList, matches);
      RemovedAt(s, n - 1, restrictedList, matches);
      CollectPrefix(s, n - 1, RemovedPick(restrictedList, matches));
      if IsRestricted(s[n - 1].record.name, restrictedList, matches) {
        AtSnoc(s, prev, n - 1);
      } else {
        assert prev + [] == prev;
      }
    }
  }

  lemma MultisetCancel(a: multiset<Records>, b: multiset<Records>, p: multiset<Records>, m: multiset<Records>)
    requires a + p == m && b + p == m
    ensures a == b
  {
    assert a == m - p;
    assert b == m - p;
  }

  /** Each removal of the loop as written takes out the entry originally at
      that position: the positions it overwrote all lie below the indices
      still to come, and those it cut off lie beyond the current length. */
  lemma {:induction false} RemoveEachMultiset(s: seq<Records>, t: seq<Records>, removeList: seq<nat>, lo: nat, u: seq<Records>)
    requires |t| <= |s|
    requires forall p :: lo <= p < |t| ==> t[p] == s[p]
    requires Increasing(removeList)
    requires forall k :: 0 <= k < |removeList| ==> lo <= removeList[k]
    requires RemoveEach(t, removeList) == Some(u)
    ensures multiset(u) + multiset(At(s, removeList)) == multiset(t)
    decreases |removeList|
  {
    if |removeList| > 0 {
      var i, rest := removeList[0], removeList[1..];
      SwapRemoveMultiset(t, i);
      forall k | 0 <= k < |rest| ensures i + 1 <= rest[k] {
        assert rest[k] == removeList[k + 1];
      }
      forall m, p | 0 <= m < p < |rest| ensures rest[m] < rest[p] {
        assert rest[m] == removeList[m + 1] && rest[p] == removeList[p + 1];
      }
      RemoveEachMultiset(s, SwapRemove(t, i), rest, i + 1, u);
    }
  }

  // ---------------------------------------------------------------------------
  // The whole normalise mode

  /** Normalise mode over the records already read from the file; `confirm` is
      the user's answer to the removal prompt, asked only when some record is
      restricted. Returns the length of the records slice that would be
      written back. */
  method RunFormat(a: array<Records>, restrictedList: seq<string>, matches: Matcher, confirm: bool)
    returns (newLen: nat, count: nat, removed: bool)
    modifies a
    ensures removed <==> confirm && RestrictedIndices(old(a[..]), restrictedList, matches) != []
    ensures newLen <= a.Length
    ensures a[..newLen] == if removed then Kept(FormatAll(old(a[..])), restrictedList, matches)
                           else FormatAll(old(a[..]))
    ensures count == CountFlagged(old(a[..])) + if removed then a.Length - newLen else 0
  {
    ghost var s := a[..];
    var removeList;
    count, removeList := FormatPass(a, restrictedList, matches);
    removed := false;
    newLen := a.Length;
    if |removeList| > 0 {
      if confirm {
        count := count + |removeList|;
        removed := true;
        RestrictedNamesKept(s, |s|, restrictedList, matches);
        KeptExact(FormatAll(s), restrictedList, matches);
        newLen := RemoveRestricted(a, restrictedList, matches);
      }
    }
    assert a[..a.Length] == a[..];
  }

  /** Formatting leaves names alone, so it leaves the remove list alone. */
  lemma {:induction false} RestrictedNamesKept(s: seq<Records>, n: nat, restrictedList: seq<string>, matches: Matcher)
    requires n <= |s|
    ensures RestrictedIndicesUpTo(FormatAll(s), n, restrictedList, matches) ==
      RestrictedIndicesUpTo(s, n, restrictedList, matches)
  {
    if n > 0 {
      RestrictedNamesKept(s, n - 1, restrictedList, matches);
    }
  }
}

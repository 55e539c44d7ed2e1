/** The record helpers of utils/utils.go: type filtering, lookup by name,
    containment by name, conversion of API results, and the restricted-name
    partition. */
module Utils {
  import opened Models
  import opened Seqs

  // ---------------------------------------------------------------------------
  // Type filtering

  /** Is `t` one of `types`: a scan that stops at the first equal element. */
  function TypeContains(types: seq<string>, t: string): (r: bool)
    ensures r <==> t in types
  {
    if |types| == 0 then false
    else if types[0] == t then true
    else TypeContains(types[1..], t)
  }

  /** Picks the record of a file entry whose type is enabled. */
  function EnabledPick(enabled: seq<string>): (pick: Records -> Option<Record>)
  {
    (e: Records) => if TypeContains(enabled, e.record.rtype) then Some(e.record) else None
  }

  /** The records of `entries` whose type is enabled, in file order. */
  function EnabledRecords(entries: seq<Records>, enabled: seq<string>): (records: seq<Record>)
  {
    Collect(entries, EnabledPick(enabled))
  }

  /** The filter loop of GetDNSRecords, over the entries already read from the
      records file. */
  method GetDNSRecords(entries: seq<Records>, enabled: seq<string>) returns (records: seq<Record>)
    ensures records == EnabledRecords(entries, enabled)
  {
    records := [];
    var i := 0;
    while i < |entries|
      invariant 0 <= i <= |entries|
      invariant records == Collect(entries[..i], EnabledPick(enabled))
    {
      var entry := entries[i];
      CollectPrefix(entries, i, EnabledPick(enabled));
      if TypeContains(enabled, entry.record.rtype) {
        records := records + [entry.record];
      }
      i := i + 1;
    }
    assert entries[..i] == entries;
  }

  /** The type filter keeps exactly the records of enabled type, never grows
      the list, and keeps file order (it distributes over concatenation). */
  lemma EnabledRecordsExact(entries: seq<Records>, enabled: seq<string>)
    ensures |EnabledRecords(entries, enabled)| <= |entries|
    ensures forall r :: r in EnabledRecords(entries, enabled) <==>
      (r.rtype in enabled && exists i :: 0 <= i < |entries| && entries[i].record == r)
    ensures forall more ::
      EnabledRecords(entries + more, enabled) == EnabledRecords(entries, enabled) + EnabledRecords(more, enabled)
  {
    CollectLength(entries, EnabledPick(enabled));
    forall r
      ensures r in EnabledRecords(entries, enabled) <==>
        (r.rtype in enabled && exists i :: 0 <= i < |entries| && entries[i].record == r)
    {
      CollectMember(entries, EnabledPick(enabled), r);
    }
    forall more {
      CollectAppend(entries, more, EnabledPick(enabled));
    }
  }

  // ---------------------------------------------------------------------------
  // Lookup by name

  /** The first record called `name`, or the all-empty record when there is none. */
  function FindRecordByName(records: seq<Record>, name: string): (r: Record)
    ensures (forall i :: 0 <= i < |records| ==> records[i].name != name) ==> r == EmptyRecord
    ensures forall i :: 0 <= i < |records| && records[i].name == name ==>
      (forall j :: 0 <= j < i ==> records[j].name != name) ==> r == records[i]
  {
    if |records| == 0 then EmptyRecord
    else if records[0].name == name then records[0]
    else FindRecordByName(records[1..], name)
  }

  /** The ID of the first record called `name`, or "" when there is none. */
  function FindRecordID(records: seq<Record>, name: string): (id: string)
    ensures id == FindRecordByName(records, name).id
    ensures (forall i :: 0 <= i < |records| ==> records[i].name != name) ==> id == ""
  {
    if |records| == 0 then ""
    else if records[0].name == name then records[0].id
    else FindRecordID(records[1..], name)
  }

  /** A record found by name is a record of the list carrying that name,
      unless nothing was found. */
  lemma {:induction false} FoundRecordHasName(records: seq<Record>, name: string)
    ensures var r := FindRecordByName(records, name);
      (r in records && r.name == name) ||
      (r == EmptyRecord && forall i :: 0 <= i < |records| ==> records[i].name != name)
  {
    if |records| > 0 && records[0].name != name {
      FoundRecordHasName(records[1..], name);
    }
  }

  // ---------------------------------------------------------------------------
  // Containment by name

  /** Does some record of `records` carry the name of `record`; no other field
      is compared. */
  function RecordContain(records: seq<Record>, record: Record): (r: bool)
    ensures r <==> exists i :: 0 <= i < |records| && records[i].name == record.name
  {
    if |records| == 0 then false
    else if records[0].name == record.name then true
    else RecordContain(records[1..], record)
  }

  /** Does every record of `subrecords` have its name in `records`; true for
      an empty `subrecords`. */
  function RecordContains(records: seq<Record>, subrecords: seq<Record>): (r: bool)
    ensures r <==> forall j :: 0 <= j < |subrecords| ==>
      exists i :: 0 <= i < |records| && records[i].name == subrecords[j].name
  {
    if |subrecords| == 0 then true
    else if !RecordContain(records, subrecords[0]) then false
    else RecordContains(records, subrecords[1..])
  }

  // ---------------------------------------------------------------------------
  // API results to records

  /** `record` with all seven record fields overwritten from `result`; the zone
      and timestamp fields of `result` are dropped. */
  function ConcatOne(record: Record, result: ApiResult): (r: Record)
    ensures r.id == result.id && r.rtype == result.rtype && r.name == result.name
    ensures r.content == result.content && r.proxiable == result.proxiable
    ensures r.proxied == result.proxied && r.ttl == result.ttl
  {
    record.(id := result.id, rtype := result.rtype, name := result.name,
            content := result.content, proxiable := result.proxiable,
            proxied := result.proxied, ttl := result.ttl)
  }

  /** Nothing of the record ConcatOne starts from survives. */
  lemma ConcatOneOverwritesAll(a: Record, b: Record, result: ApiResult)
    ensures ConcatOne(a, result) == ConcatOne(b, result)
  {
  }

  /** `records` followed by every result converted to a record, in order. */
  method Concat(records: seq<Record>, results: seq<ApiResult>) returns (out: seq<Record>)
    ensures |out| == |records| + |results|
    ensures out[..|records|] == records
    ensures forall k :: 0 <= k < |results| ==> out[|records| + k] == ConcatOne(EmptyRecord, results[k])
  {
    out := records;
    var i := 0;
    while i < |results|
      invariant 0 <= i <= |results|
      invariant |out| == |records| + i
      invariant out[..|records|] == records
      invariant forall k :: 0 <= k < i ==> out[|records| + k] == ConcatOne(EmptyRecord, results[k])
    {
      var r := results[i];
      var record := EmptyRecord;
      record := record.(id := r.id);
      record := record.(rtype := r.rtype);
      record := record.(name := r.name);
      record := record.(content := r.content);
      record := record.(proxiable := r.proxiable);
      record := record.(proxied := r.proxied);
      record := record.(ttl := r.ttl);
      out := out + [record];
      i := i + 1;
    }
  }

  // ---------------------------------------------------------------------------
  // Restricted names

  /** Does some restricted pattern match `name`: a scan that stops at the
      first matching pattern. */
  function IsRestricted(name: string, patterns: seq<string>, matches: Matcher): (r: bool)
    ensures r <==> exists i :: 0 <= i < |patterns| && matches(patterns[i], name)
    ensures patterns == [] ==> !r
  {
    if |patterns| == 0 then false
    else if matches(patterns[0], name) then true
    else IsRestricted(name, patterns[1..], matches)
  }

  function UnrestrictedPick(patterns: seq<string>, matches: Matcher): (pick: Record -> Option<Record>)
  {
    (r: Record) => if IsRestricted(r.name, patterns, matches) then None else Some(r)
  }

  function RestrictedPick(patterns: seq<string>, matches: Matcher): (pick: Record -> Option<Record>)
  {
    (r: Record) => if IsRestricted(r.name, patterns, matches) then Some(r) else None
  }

  /** The records whose name no pattern matches, in order. */
  function Unrestricted(records: seq<Record>, patterns: seq<string>, matches: Matcher): (nonRestricted: seq<Record>)
  {
    Collect(records, UnrestrictedPick(patterns, matches))
  }

  /** The records whose name some pattern matches, in order. */
  function Restricted(records: seq<Record>, patterns: seq<string>, matches: Matcher): (restricted: seq<Record>)
  {
    Collect(records, RestrictedPick(patterns, matches))
  }

  /** The partition loop of RemoveRestrictedSubdomains, over the patterns
      already read from the restricted file. */
  method RemoveRestrictedSubdomains(localRecords: seq<Record>, patterns: seq<string>, matches: Matcher)
    returns (nonRestricted: seq<Record>, restricted: seq<Record>)
    ensures nonRestricted == Unrestricted(localRecords, patterns, matches)
    ensures restricted == Restricted(localRecords, patterns, matches)
  {
    nonRestricted, restricted := [], [];
    var i := 0;
    while i < |localRecords|
      invariant 0 <= i <= |localRecords|
      invariant nonRestricted == Collect(localRecords[..i], UnrestrictedPick(patterns, matches))
      invariant restricted == Collect(localRecords[..i], RestrictedPick(patterns, matches))
    {
      var record := localRecords[i];
      CollectPrefix(localRecords, i, UnrestrictedPick(patterns, matches));
      CollectPrefix(localRecords, i, RestrictedPick(patterns, matches));
      if !IsRestricted(record.name, patterns, matches) {
        nonRestricted := nonRestricted + [record];
      } else {
        restricted := restricted + [record];
      }
      i := i + 1;
    }
    assert localRecords[..i] == localRecords;
  }

  /** The two outputs partition the input: every record lands in exactly one
      of them, chosen by IsRestricted, and their lengths add up. */
  lemma RestrictedPartition(records: seq<Record>, patterns: seq<string>, matches: Matcher)
    ensures multiset(Unrestricted(records, patterns, matches)) + multiset(Restricted(records, patterns, matches))
      == multiset(records)
    ensures |Unrestricted(records, patterns, matches)| + |Restricted(records, patterns, matches)| == |records|
    ensures forall r :: r in Unrestricted(records, patterns, matches) <==>
      r in records && !IsRestricted(r.name, patterns, matches)
    ensures forall r :: r in Restricted(records, patterns, matches) <==>
      r in records && IsRestricted(r.name, patterns, matches)
  {
    var f, g := UnrestrictedPick(patterns, matches), RestrictedPick(patterns, matches);
    CollectPartition(records, f, g);
    assert |multiset(Collect(records, f)) + multiset(Collect(records, g))| == |multiset(records)|;
    forall r
      ensures r in Unrestricted(records, patterns, matches) <==> r in records && !IsRestricted(r.name, patterns, matches)
      ensures r in Restricted(records, patterns, matches) <==> r in records && IsRestricted(r.name, patterns, matches)
    {
      CollectMember(records, f, r);
      CollectMember(records, g, r);
    }
  }

  /** Both outputs keep the input's relative order: the partition distributes
      over concatenation. */
  lemma RestrictedPartitionOrder(a: seq<Record>, b: seq<Record>, patterns: seq<string>, matches: Matcher)
    ensures Unrestricted(a + b, patterns, matches) == Unrestricted(a, patterns, matches) + Unrestricted(b, patterns, matches)
    ensures Restricted(a + b, patterns, matches) == Restricted(a, patterns, matches) + Restricted(b, patterns, matches)
  {
    CollectAppend(a, b, UnrestrictedPick(patterns, matches));
    CollectAppend(a, b, RestrictedPick(patterns, matches));
  }
}

/** The reconciliation of cmd/sync.go: local records are normalised for the
    zone, filtered of restricted names, and compared by name with the remote
    records to decide what to create, update and delete. */
module Sync {
  import opened Models
  import opened Seqs
  import opened Utils

  const DefaultDomain: string := "mrinjamul.in"
  const DefaultRecordTypes: seq<string> := ["A", "CNAME"]

  /** The package-level settings the sync command reads and overwrites. */
  class Globals {
    var domain: string
    var enabledRecordType: seq<string>

    /** The settings as the program starts: the built-in domain and the record
        types read from the configuration (possibly none). */
    constructor (configuredTypes: seq<string>)
      ensures domain == DefaultDomain && enabledRecordType == configuredTypes
    {
      domain := DefaultDomain;
      enabledRecordType := configuredTypes;
    }

    /** A non-empty --domain flag replaces the domain; an empty list of record
        types falls back to A and CNAME. */
    method PrepareSync(flagDomain: string)
      modifies this
      ensures domain == if flagDomain != "" then flagDomain else old(domain)
      ensures enabledRecordType == if old(enabledRecordType) == [] then DefaultRecordTypes else old(enabledRecordType)
      ensures enabledRecordType != []
    {
      if flagDomain != "" {
        domain := flagDomain;
      }
      if |enabledRecordType| == 0 {
        enabledRecordType := DefaultRecordTypes;
      }
    }
  }

  // ---------------------------------------------------------------------------
  // Normalisation of the local records

  /** The fully qualified name of a local record: "@" stands for the zone apex. */
  function Fqdn(name: string, domain: string): (fqdn: string)
  {
    if name == "@" then domain else name + "." + domain
  }

  /** Distinct local names stay distinct once qualified with the domain. */
  lemma FqdnInjective(a: string, b: string, domain: string)
    requires Fqdn(a, domain) == Fqdn(b, domain)
    ensures a == b
  {
    if a != "@" && b != "@" {
      var fa, fb := a + "." + domain, b + "." + domain;
      assert |a| == |b| by {
        assert |fa| == |a| + 1 + |domain| && |fb| == |b| + 1 + |domain|;
      }
      forall k | 0 <= k < |a| ensures a[k] == b[k] {
        assert fa[k] == a[k] && fb[k] == b[k];
      }
    }
  }

  /** One local record as the sync loop leaves it: TTL forced to 1 (automatic),
      proxied forced on by --proxied, the name qualified with the domain. */
  function ForSync(r: Record, flagProxied: bool, domain: string): (s: Record)
    ensures s.ttl == 1
    ensures flagProxied ==> s.proxied
    ensures !flagProxied ==> s.proxied == r.proxied
    ensures s.name == Fqdn(r.name, domain)
    ensures s.id == r.id && s.rtype == r.rtype && s.content == r.content && s.proxiable == r.proxiable
  {
    var p := if flagProxied then true else r.proxied;
    r.(proxied := p, ttl := 1, name := Fqdn(r.name, domain))
  }

  function NormalizeAll(records: seq<Record>, flagProxied: bool, domain: string): (s: seq<Record>)
    ensures |s| == |records|
    ensures forall k :: 0 <= k < |s| ==> s[k] == ForSync(records[k], flagProxied, domain)
  {
    seq(|records|, k requires 0 <= k < |records| => ForSync(records[k], flagProxied, domain))
  }

  /** The in-place loop over the local records. */
  method NormalizeLocal(a: array<Record>, flagProxied: bool, domain: string)
    modifies a
    ensures a[..] == NormalizeAll(old(a[..]), flagProxied, domain)
  {
    var id := 0;
    while id < a.Length
      invariant 0 <= id <= a.Length
      invariant forall k :: 0 <= k < id ==> a[k] == ForSync(old(a[k]), flagProxied, domain)
      invariant forall k :: id <= k < a.Length ==> a[k] == old(a[k])
    {
      if flagProxied {
        a[id] := a[id].(proxied := true);
      }
      a[id] := a[id].(ttl := 1);
      if a[id].name == "@" {
        a[id] := a[id].(name := domain);
      } else {
        a[id] := a[id].(name := a[id].name + "." + domain);
      }
      id := id + 1;
    }
  }

  // ---------------------------------------------------------------------------
  // Create / update classification

  datatype Action = Create | Update(record: Record) | Keep

  /** What the sync does with one local record, given the remote records: the
      first remote record with the same name decides. */
  function Decide(local: Record, registered: seq<Record>): (action: Action)
  {
    var r := FindRecordByName(registered, local.name);
    if r.id != "" then
      if r.content != local.content || r.proxied != local.proxied || r.name != local.name then
        Update(local.(id := r.id))
      else
        Keep
    else
      Create
  }

  /** `i` is the position of the first record called `name`. */
  ghost predicate FirstNamed(records: seq<Record>, name: string, i: int)
  {
    0 <= i < |records| && records[i].name == name &&
    forall j :: 0 <= j < i ==> records[j].name != name
  }

  lemma {:induction false} FirstNamedIndex(records: seq<Record>, name: string) returns (i: nat)
    requires exists k :: 0 <= k < |records| && records[k].name == name
    ensures FirstNamed(records, name, i)
  {
    if records[0].name == name {
      i := 0;
    } else {
      var k :| 0 <= k < |records| && records[k].name == name;
      assert records[1..][k - 1].name == name;
      var i' := FirstNamedIndex(records[1..], name);
      i := i' + 1;
    }
  }

  /** A local record is created exactly when no remote record has its name, or
      the first one that has it carries no ID. */
  lemma DecideCreate(local: Record, registered: seq<Record>)
    ensures Decide(local, registered).Create? <==>
      (forall i :: 0 <= i < |registered| ==> registered[i].name != local.name) ||
      (exists i :: FirstNamed(registered, local.name, i) && registered[i].id == "")
  {
    if exists k :: 0 <= k < |registered| && registered[k].name == local.name {
      var i := FirstNamedIndex(registered, local.name);
      assert FindRecordByName(registered, local.name) == registered[i];
    }
  }

  /** When the first remote record with the name carries an ID, the local
      record is updated exactly when content or proxied differ (the name always
      agrees, TTL is never compared), and the update takes the remote ID and
      every other field from the local record. */
  lemma DecideMatched(local: Record, registered: seq<Record>, i: int)
    requires FirstNamed(registered, local.name, i) && registered[i].id != ""
    ensures FindRecordByName(registered, local.name).name == local.name
    ensures Decide(local, registered) ==
      if registered[i].content != local.content || registered[i].proxied != local.proxied
      then Update(local.(id := registered[i].id))
      else Keep
  {
    assert FindRecordByName(registered, local.name) == registered[i];
  }

  /** TTL differences never change the decision. */
  lemma DecideIgnoresTtl(local: Record, registered: seq<Record>, ttl: nat)
    ensures Decide(local.(ttl := ttl), registered) ==
      match Decide(local, registered)
      case Update(u) => Update(u.(ttl := ttl))
      case other => other
  {
  }

  function CreatePick(registered: seq<Record>): (pick: Record -> Option<Record>)
  {
    (l: Record) => if Decide(l, registered).Create? then Some(l) else None
  }

  function UpdatePick(registered: seq<Record>): (pick: Record -> Option<Record>)
  {
    (l: Record) => match Decide(l, registered) case Update(u) => Some(u) case _ => None
  }

  function Created(localRecords: seq<Record>, registered: seq<Record>): (created: seq<Record>)
  {
    Collect(localRecords, CreatePick(registered))
  }

  function Updated(localRecords: seq<Record>, registered: seq<Record>): (updated: seq<Record>)
  {
    Collect(localRecords, UpdatePick(registered))
  }

  /** The loop that sorts the filtered local records into created and updated. */
  method Inspect(localRecords: seq<Record>, registered: seq<Record>)
    returns (createdRecords: seq<Record>, updatedRecords: seq<Record>)
    ensures createdRecords == Created(localRecords, registered)
    ensures updatedRecords == Updated(localRecords, registered)
  {
    createdRecords, updatedRecords := [], [];
    var i := 0;
    while i < |localRecords|
      invariant 0 <= i <= |localRecords|
      invariant createdRecords == Collect(localRecords[..i], CreatePick(registered))
      invariant updatedRecords == Collect(localRecords[..i], UpdatePick(registered))
    {
      var record := localRecords[i];
      CollectPrefix(localRecords, i, CreatePick(registered));
      CollectPrefix(localRecords, i, UpdatePick(registered));
      var r := FindRecordByName(registered, record.name);
      if r.id != "" {
        if r.content != record.content || r.proxied != record.proxied || r.name != record.name {
          record := record.(id := r.id);
          updatedRecords := updatedRecords + [record];
        }
      } else {
        createdRecords := createdRecords + [record];
      }
      i := i + 1;
    }
    assert localRecords[..i] == localRecords;
  }

  /** Each local record goes into at most one of the two lists, so the counts
      reported add up to at most the number of filtered local records. */
  lemma CreatedUpdatedBound(localRecords: seq<Record>, registered: seq<Record>)
    ensures |Created(localRecords, registered)| + |Updated(localRecords, registered)| <= |localRecords|
  {
    CollectDisjoint(localRecords, CreatePick(registered), UpdatePick(registered));
  }

  /** The created list is exactly the local records whose decision is Create. */
  lemma CreatedMembers(localRecords: seq<Record>, registered: seq<Record>)
    ensures forall l :: l in Created(localRecords, registered) <==>
      l in localRecords && Decide(l, registered).Create?
  {
    forall l
      ensures l in Created(localRecords, registered) <==> l in localRecords && Decide(l, registered).Create?
    {
      CollectMember(localRecords, CreatePick(registered), l);
    }
  }

  /** The updated list is exactly the updates decided for the local records. */
  lemma UpdatedMembers(localRecords: seq<Record>, registered: seq<Record>)
    ensures forall u :: u in Updated(localRecords, registered) <==>
      exists i :: 0 <= i < |localRecords| && Decide(localRecords[i], registered) == Update(u)
  {
    forall u
      ensures u in Updated(localRecords, registered) <==>
        exists i :: 0 <= i < |localRecords| && Decide(localRecords[i], registered) == Update(u)
    {
      CollectMember(localRecords, UpdatePick(registered), u);
    }
  }

  // ---------------------------------------------------------------------------
  // Delete classification

  function DeletePick(localRecords: seq<Record>): (pick: Record -> Option<Record>)
  {
    (r: Record) => if RecordContain(localRecords, r) then None else Some(r)
  }

  function Deleted(localRecords: seq<Record>, registered: seq<Record>): (deleted: seq<Record>)
  {
    Collect(registered, DeletePick(localRecords))
  }

  /** The loop that collects the remote records no local record names. */
  method FindUnused(localRecords: seq<Record>, registered: seq<Record>) returns (deletedRecords: seq<Record>)
    ensures deletedRecords == Deleted(localRecords, registered)
  {
    deletedRecords := [];
    var i := 0;
    while i < |registered|
      invariant 0 <= i <= |registered|
      invariant deletedRecords == Collect(registered[..i], DeletePick(localRecords))
    {
      var r := registered[i];
      CollectPrefix(registered, i, DeletePick(localRecords));
      if !RecordContain(localRecords, r) {
        deletedRecords := deletedRecords + [r];
      }
      i := i + 1;
    }
    assert registered[..i] == registered;
  }

  /** Deleted is exactly the remote records whose name no local record
      carries, in remote order; a remote record whose name is local is never
      deleted. */
  lemma DeletedMembers(localRecords: seq<Record>, registered: seq<Record>)
    ensures |Deleted(localRecords, registered)| <= |registered|
    ensures forall r :: r in Deleted(localRecords, registered) <==>
      r in registered && forall i :: 0 <= i < |localRecords| ==> localRecords[i].name != r.name
  {
    var f := DeletePick(localRecords);
    CollectLength(registered, f);
    forall r
      ensures r in Deleted(localRecords, registered) <==>
        r in registered && forall i :: 0 <= i < |localRecords| ==> localRecords[i].name != r.name
    {
      CollectMember(registered, f, r);
    }
  }

  lemma DeletedOrder(localRecords: seq<Record>, registered: seq<Record>, more: seq<Record>)
    ensures Deleted(localRecords, registered + more) == Deleted(localRecords, registered) + Deleted(localRecords, more)
  {
    CollectAppend(registered, more, DeletePick(localRecords));
  }

  /** One local record whose remote namesake has other content, and one remote
      record no local record names: an update carrying the remote ID and a
      delete, nothing to create. */
  lemma UpdateAndDeleteExample(x: Record, rx: Record, ry: Record)
    requires rx.name == x.name && rx.id != "" && rx.content != x.content
    requires ry.name != x.name
    ensures Created([x], [rx, ry]) == []
    ensures Updated([x], [rx, ry]) == [x.(id := rx.id)]
    ensures Deleted([x], [rx, ry]) == [ry]
  {
    var registered := [rx, ry];
    assert Decide(x, registered) == Update(x.(id := rx.id));
    CollectSnoc([], x, CreatePick(registered));
    CollectSnoc([], x, UpdatePick(registered));
    assert [] + [x] == [x];
    assert RecordContain([x], rx) && !RecordContain([x], ry);
    CollectSnoc([], rx, DeletePick([x]));
    CollectSnoc([rx], ry, DeletePick([x]));
    assert [] + [rx] == [rx] && [rx] + [ry] == registered;
  }

  /** A local record with no remote records at all is created, and nothing is
      updated or deleted. */
  lemma CreateOnlyExample(z: Record)
    ensures Created([z], []) == [z]
    ensures Updated([z], []) == []
    ensures Deleted([z], []) == []
  {
    assert Decide(z, []) == Create;
    CollectSnoc([], z, CreatePick([]));
    CollectSnoc([], z, UpdatePick([]));
    assert [] + [z] == [z];
  }

  // ---------------------------------------------------------------------------
  // Applying the plan

  datatype ApiCall = CreateCall(body: Record) | UpdateCall(recordId: string, body: Record) | DeleteCall(recordId: string)

  /** The calls appear in apply order: every create, then every update (by
      the remote ID it carries), then every delete (by remote ID). */
  ghost predicate InApplyOrder(calls: seq<ApiCall>, created: seq<Record>, updated: seq<Record>, deleted: seq<Record>)
  {
    && |calls| == |created| + |updated| + |deleted|
    && (forall k :: 0 <= k < |created| ==> calls[k] == CreateCall(created[k]))
    && (forall k :: 0 <= k < |updated| ==> calls[|created| + k] == UpdateCall(updated[k].id, updated[k]))
    && (forall k :: 0 <= k < |deleted| ==> calls[|created| + |updated| + k] == DeleteCall(deleted[k].id))
  }

  /** The three apply loops; a dry run walks the same lists and issues nothing. */
  method Apply(created: seq<Record>, updated: seq<Record>, deleted: seq<Record>, dryRun: bool)
    returns (calls: seq<ApiCall>)
    ensures dryRun ==> calls == []
    ensures !dryRun ==> InApplyOrder(calls, created, updated, deleted)
  {
    calls := [];
    var i := 0;
    while i < |created|
      invariant 0 <= i <= |created|
      invariant dryRun ==> calls == []
      invariant !dryRun ==> |calls| == i && forall k :: 0 <= k < i ==> calls[k] == CreateCall(created[k])
    {
      if !dryRun {
        calls := calls + [CreateCall(created[i])];
      }
      i := i + 1;
    }
    i := 0;
    while i < |updated|
      invariant 0 <= i <= |updated|
      invariant dryRun ==> calls == []
      invariant !dryRun ==> |calls| == |created| + i
      invariant !dryRun ==> forall k :: 0 <= k < |created| ==> calls[k] == CreateCall(created[k])
      invariant !dryRun ==> forall k :: 0 <= k < i ==> calls[|created| + k] == UpdateCall(updated[k].id, updated[k])
    {
      if !dryRun {
        calls := calls + [UpdateCall(updated[i].id, updated[i])];
      }
      i := i + 1;
    }
    i := 0;
    while i < |deleted|
      invariant 0 <= i <= |deleted|
      invariant dryRun ==> calls == []
      invariant !dryRun ==> |calls| == |created| + |updated| + i
      invariant !dryRun ==> forall k :: 0 <= k < |created| ==> calls[k] == CreateCall(created[k])
      invariant !dryRun ==> forall k :: 0 <= k < |updated| ==> calls[|created| + k] == UpdateCall(updated[k].id, updated[k])
      invariant !dryRun ==> forall k :: 0 <= k < i ==> calls[|created| + |updated| + k] == DeleteCall(deleted[k].id)
    {
      if !dryRun {
        calls := calls + [DeleteCall(deleted[i].id)];
      }
      i := i + 1;
    }
  }

  // ---------------------------------------------------------------------------
  // The whole command

  datatype Plan = Plan(created: seq<Record>, updated: seq<Record>, deleted: seq<Record>, removed: seq<Record>)

  /** What the sync decides, from the file entries, the settings in force, the
      remote records and the restricted patterns. No dry-run flag enters it. */
  function SyncPlan(entries: seq<Records>, enabled: seq<string>, domain: string, flagProxied: bool,
                    registered: seq<Record>, restrictedList: seq<string>, matches: Matcher): (plan: Plan)
  {
    var normalized := NormalizeAll(EnabledRecords(entries, enabled), flagProxied, domain);
    var local := Unrestricted(normalized, restrictedList, matches);
    Plan(Created(local, registered), Updated(local, registered), Deleted(local, registered),
         Restricted(normalized, restrictedList, matches))
  }

  datatype Report = Report(plan: Plan, calls: seq<ApiCall>)

  /** The sync command: settings, local records (already read from the file),
      remote records (already fetched), normalisation, restricted filter,
      classification, then the calls unless this is a dry run. */
  method RunSync(g: Globals, flagDomain: string, flagProxied: bool, flagDryRun: bool,
                 entries: seq<Records>, registered: seq<Record>, restrictedList: seq<string>, matches: Matcher)
    returns (report: Report)
    modifies g
    ensures g.domain == if flagDomain != "" then flagDomain else old(g.domain)
    ensures g.enabledRecordType == if old(g.enabledRecordType) == [] then DefaultRecordTypes else old(g.enabledRecordType)
    ensures report.plan == SyncPlan(entries, g.enabledRecordType, g.domain, flagProxied, registered, restrictedList, matches)
    ensures flagDryRun ==> report.calls == []
    ensures !flagDryRun ==> InApplyOrder(report.calls, report.plan.created, report.plan.updated, report.plan.deleted)
  {
    g.PrepareSync(flagDomain);
    var localRecords := GetDNSRecords(entries, g.enabledRecordType);
    var a := new Record[|localRecords|](k requires 0 <= k < |localRecords| => localRecords[k]);
    assert a[..] == localRecords;
    NormalizeLocal(a, flagProxied, g.domain);
    var filtered, removed := RemoveRestrictedSubdomains(a[..], restrictedList, matches);
    var created, updated := Inspect(filtered, registered);
    var deleted := FindUnused(filtered, registered);
    var calls := Apply(created, updated, deleted, flagDryRun);
    report := Report(Plan(created, updated, deleted, removed), calls);
  }
}

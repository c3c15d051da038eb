/**
 The tracked migration runner: which files it takes and in which order, and what
 any sequence of runs leaves behind when each may fail or crash at any point.
 */
module Migration {
  import opened Wrappers
  import opened Text

  /** A directory entry with its contents. */
  datatype File = File(name: string, isDir: bool, body: string)

  // ------------------------------------------------------------ the file list

  /** Go's < on strings */
  predicate Less(a: string, b: string) {
    b != [] && (a == [] || a[0] < b[0] || (a[0] == b[0] && Less(a[1..], b[1..])))
  }

  lemma {:induction false} LessTransitive(a: string, b: string, c: string)
    requires Less(a, b) && Less(b, c)
    ensures Less(a, c)
  {
    if a != [] && a[0] == b[0] && b[0] == c[0] {
      LessTransitive(a[1..], b[1..], c[1..]);
    }
  }

  lemma {:induction false} LessTotal(a: string, b: string)
    ensures (Less(a, b) && a != b && !Less(b, a)) || (Less(b, a) && a != b && !Less(a, b)) || (a == b && !Less(a, b))
  {
    if a != [] && b != [] {
      LessTotal(a[1..], b[1..]);
      assert a == [a[0]] + a[1..] && b == [b[0]] + b[1..];
    }
  }

  /** Go's order spelled out: a proper prefix, or a smaller character where the two first differ. */
  lemma {:induction false} LessExact(a: string, b: string)
    ensures Less(a, b) <==> exists n :: DiffersAt(a, b, n)
  {
    if a != [] && b != [] {
      LessExact(a[1..], b[1..]);
      if a[0] == b[0] {
        forall n | DiffersAt(a[1..], b[1..], n) ensures DiffersAt(a, b, n + 1) {
          assert a[..n + 1] == [a[0]] + a[1..][..n] && b[..n + 1] == [b[0]] + b[1..][..n];
        }
        forall n | DiffersAt(a, b, n) ensures n > 0 && DiffersAt(a[1..], b[1..], n - 1) {
          assert a[1..][..n - 1] == a[..n][1..] && b[1..][..n - 1] == b[..n][1..];
        }
      } else {
        assert a[..0] == b[..0];
        assert forall n :: 0 < n <= |a| && n <= |b| ==> a[..n][0] == a[0] && b[..n][0] == b[0];
        assert a[0] < b[0] ==> DiffersAt(a, b, 0);
      }
    } else {
      assert b != [] ==> DiffersAt(a, b, 0);
    }
  }

  predicate DiffersAt(a: string, b: string, n: int) {
    0 <= n <= |a| && n < |b| && a[..n] == b[..n] && (n == |a| || a[n] < b[n])
  }

  predicate HasSuffix(s: string, suffix: string) {
    |s| >= |suffix| && s[|s| - |suffix|..] == suffix
  }

  predicate IsMigration(f: File) {
    !f.isDir && HasSuffix(f.name, ".sql") && !HasSuffix(f.name, ".down.sql")
  }

  ghost predicate Increasing(files: seq<File>) {
    forall i, j :: 0 <= i < j < |files| ==> Less(files[i].name, files[j].name)
  }

  /** The entries of a directory have different names. */
  ghost predicate DistinctNames(files: seq<File>) {
    forall i, j :: 0 <= i < j < |files| ==> files[i].name != files[j].name
  }

  function InsertByName(f: File, sorted: seq<File>): seq<File> {
    if sorted == [] || !Less(sorted[0].name, f.name) then [f] + sorted
    else [sorted[0]] + InsertByName(f, sorted[1..])
  }

  function SortByName(files: seq<File>): seq<File> {
    if files == [] then [] else InsertByName(files[0], SortByName(files[1..]))
  }

  lemma {:induction false} InsertMembers(f: File, sorted: seq<File>)
    ensures forall x :: x in InsertByName(f, sorted) <==> x == f || x in sorted
    ensures |InsertByName(f, sorted)| == |sorted| + 1
  {
    if sorted != [] && Less(sorted[0].name, f.name) {
      InsertMembers(f, sorted[1..]);
      assert sorted == [sorted[0]] + sorted[1..];
    }
  }

  lemma {:induction false} InsertKeepsOrder(f: File, sorted: seq<File>)
    requires Increasing(sorted) && forall i :: 0 <= i < |sorted| ==> sorted[i].name != f.name
    ensures Increasing(InsertByName(f, sorted))
  {
    var r := InsertByName(f, sorted);
    InsertMembers(f, sorted);
    if sorted != [] && Less(sorted[0].name, f.name) {
      InsertKeepsOrder(f, sorted[1..]);
      InsertMembers(f, sorted[1..]);
      var rest := InsertByName(f, sorted[1..]);
      forall j | 0 <= j < |rest| ensures Less(sorted[0].name, rest[j].name) {
        assert rest[j] in rest;
        if rest[j] != f {
          var k :| 0 <= k < |sorted| - 1 && sorted[1..][k] == rest[j];
          assert sorted[k + 1] == rest[j];
        }
      }
    } else if sorted != [] {
      forall j | 0 <= j < |sorted| ensures Less(f.name, sorted[j].name) {
        LessTotal(f.name, sorted[0].name);
        if j > 0 { LessTransitive(f.name, sorted[0].name, sorted[j].name); }
      }
    }
  }

  lemma {:induction false} SortByNameSorts(files: seq<File>)
    requires DistinctNames(files)
    ensures Increasing(SortByName(files)) && |SortByName(files)| == |files|
    ensures forall x :: x in SortByName(files) <==> x in files
  {
    if files != [] {
      SortByNameSorts(files[1..]);
      var rest := SortByName(files[1..]);
      forall i | 0 <= i < |rest| ensures rest[i].name != files[0].name {
        assert rest[i] in files[1..];
      }
      InsertMembers(files[0], rest);
      InsertKeepsOrder(files[0], rest);
      assert files == [files[0]] + files[1..];
    }
  }

  function Selected(files: seq<File>): seq<File> {
    if files == [] then []
    else
      var front, last := Selected(files[..|files| - 1]), files[|files| - 1];
      if IsMigration(last) then front + [last] else front
  }

  lemma {:induction false} SelectedExact(files: seq<File>)
    ensures forall x :: x in Selected(files) <==> x in files && IsMigration(x)
    ensures Increasing(files) ==> Increasing(Selected(files))
    ensures |Selected(files)| <= |files|
  {
    hide IsMigration, Less;
    if files != [] {
      var front, last := files[..|files| - 1], files[|files| - 1];
      SelectedExact(front);
      assert files == front + [last];
      var kept := Selected(front);
      if Increasing(files) {
        KeptBelow(front, kept, last);
      }
    }
  }

  lemma KeptBelow(front: seq<File>, kept: seq<File>, last: File)
    requires Increasing(front + [last]) && forall x :: x in kept ==> x in front
    ensures forall i :: 0 <= i < |kept| ==> Less(kept[i].name, last.name)
  {
    forall i | 0 <= i < |kept| ensures Less(kept[i].name, last.name) {
      assert kept[i] in front;
      var k :| 0 <= k < |front| && front[k] == kept[i];
      assert (front + [last])[k] == kept[i] && (front + [last])[|front|] == last;
    }
  }

  /** The list a service's directory stands for. */
  function Entries(listing: seq<File>): seq<File> {
    Selected(SortByName(listing))
  }

  /** Exactly the forward migrations of the directory, in strictly increasing name order. */
  lemma EntriesExact(listing: seq<File>)
    requires DistinctNames(listing)
    ensures Increasing(Entries(listing)) && forall x :: x in Entries(listing) <==> x in listing && IsMigration(x)
  {
    SortByNameSorts(listing);
    SelectedExact(SortByName(listing));
  }

  /** A forward migration is a file named *.sql and not *.down.sql. */
  lemma ForwardMigration(f: File)
    ensures IsMigration(f) <==>
      && !f.isDir
      && (exists stem :: f.name == stem + ".sql")
      && !(exists stem :: f.name == stem + ".down.sql")
  {
    Suffixed(f.name, ".sql");
    Suffixed(f.name, ".down.sql");
  }

  lemma Suffixed(s: string, suffix: string)
    ensures HasSuffix(s, suffix) <==> exists stem :: s == stem + suffix
  {
    if HasSuffix(s, suffix) {
      assert s == s[..|s| - |suffix|] + suffix;
    }
  }

  /** Sorting and filtering in place: the kept entries end up in front of the same array. */
  method MigrationEntries(entries: array<File>) returns (n: nat)
    modifies entries
    ensures n <= entries.Length && entries[..n] == Entries(old(entries[..]))
  {
    var sorted := SortByName(entries[..]);
    SortedLength(entries[..]);
    forall i | 0 <= i < entries.Length {
      entries[i] := sorted[i];
    }
    assert entries[..] == sorted;
    n := FilterInPlace(entries);
  }

  /** Keeps the migrations in order, writing each over the front of the array. */
  method FilterInPlace(entries: array<File>) returns (n: nat)
    modifies entries
    ensures n <= entries.Length && entries[..n] == Selected(old(entries[..]))
  {
    hide Selected, IsMigration, HasSuffix;
    ghost var listed := entries[..];
    n := 0;
    NothingSelected();
    for i := 0 to entries.Length
      invariant 0 <= n <= i
      invariant entries[..n] == Selected(listed[..i])
      invariant forall k :: i <= k < entries.Length ==> entries[k] == listed[k]
    {
      var entry := entries[i];
      SelectedNext(listed, i);
      if entry.isDir || !HasSuffix(entry.name, ".sql") || HasSuffix(entry.name, ".down.sql") {
        continue;
      }
      ghost var kept := entries[..n];
      entries[n] := entry;
      n := n + 1;
      assert entries[..n] == kept + [entry];
    }
    assert listed[..entries.Length] == listed;
  }

  lemma NothingSelected()
    ensures Selected([]) == []
  {
  }

  lemma SelectedNext(files: seq<File>, i: nat)
    requires i < |files|
    ensures var f := files[i];
      Selected(files[..i + 1]) ==
      if f.isDir || !HasSuffix(f.name, ".sql") || HasSuffix(f.name, ".down.sql") then Selected(files[..i])
      else Selected(files[..i]) + [f]
  {
    assert files[..i + 1][..i] == files[..i];
  }

  lemma {:induction false} SortedLength(files: seq<File>)
    ensures |SortByName(files)| == |files|
  {
    if files != [] {
      SortedLength(files[1..]);
      InsertMembers(files[0], SortByName(files[1..]));
    }
  }

  // ------------------------------------------------------------------- one run

  /** A committed migration body. */
  datatype Applied = Applied(service: string, name: string, body: string)

  /** The migrations table, and what has been executed and committed so far, in order. */
  datatype Db = Db(ledger: map<(string, string), string>, applied: seq<Applied>)

  const EmptyDb := Db(map[], [])

  /**
   What happens to one entry of a run: nothing special; an error or crash
   anywhere before the commit, which rolls back; a commit that reports an error
   or is followed by a crash, whether or not it took effect.
   */
  datatype Fault = Fine | Stops | CommitUnknown(done: bool)

  type Checksum = string -> string

  /** The body and its ledger row, in one transaction. */
  function Commit(db: Db, sum: Checksum, service: string, f: File): Db {
    Db(db.ledger[(service, f.name) := sum(f.body)], db.applied + [Applied(service, f.name, f.body)])
  }

  /** The loop over the entries: the database it leaves and whether it got to the end. */
  function Loop(db: Db, sum: Checksum, service: string, entries: seq<File>, faults: nat -> Fault, i: nat): (Db, bool)
    requires i <= |entries|
    decreases |entries| - i
  {
    if i == |entries| then (db, true)
    else
      var f := entries[i];
      if faults(i) == Stops then (db, false)
      else if (service, f.name) in db.ledger then
        if db.ledger[(service, f.name)] != sum(f.body) then (db, false)
        else Loop(db, sum, service, entries, faults, i + 1)
      else if faults(i).CommitUnknown? then
        (if faults(i).done then Commit(db, sum, service, f) else db, false)
      else Loop(Commit(db, sum, service, f), sum, service, entries, faults, i + 1)
  }

  datatype RunError = ServiceRequired | Unreadable | Interrupted | ChecksumChanged(name: string)

  /**
   `listing` is what reading the directory gives, if it can be read; `locked`
   and `unlocked` say whether the steps around the loop succeeded.
   */
  method ApplyNamed(db: Db, sum: Checksum, serviceName: string, listing: Option<seq<File>>, locked: bool,
                    faults: nat -> Fault, unlocked: bool)
    returns (after: Db, err: Option<RunError>)
    ensures var run := After(db, sum, AttemptOf(TrimSpace(serviceName), listing, locked, faults));
            after == run.0 && (err.None? <==> run.1 && unlocked)
    ensures TrimSpace(serviceName) == "" <==> err == Some(ServiceRequired)
    ensures TrimSpace(serviceName) != "" && listing.None? <==> err == Some(Unreadable)
    ensures err.Some? && err.value.ChecksumChanged? ==>
      var row := (TrimSpace(serviceName), err.value.name);
      && row in after.ledger
      && exists f :: f in Entries(listing.value) && f.name == row.1 && after.ledger[row] != sum(f.body)
  {
    after := db;
    var service := TrimSpace(serviceName);
    if service == "" {
      return after, Some(ServiceRequired);
    }
    if listing.None? {
      return after, Some(Unreadable);
    }
    var files := new File[|listing.value|](i requires 0 <= i < |listing.value| => listing.value[i]);
    assert files[..] == listing.value;
    var n := MigrationEntries(files);
    var entries := files[..n];
    if !locked {
      return after, Some(Interrupted);
    }
    for i := 0 to |entries|
      invariant Loop(db, sum, service, entries, faults, 0) == Loop(after, sum, service, entries, faults, i)
    {
      var f := entries[i];
      if faults(i) == Stops {
        return after, Some(Interrupted);
      }
      if (service, f.name) in after.ledger {
        if after.ledger[(service, f.name)] != sum(f.body) {
          assert f in entries;
          return after, Some(ChecksumChanged(f.name));
        }
        continue;
      }
      if faults(i).CommitUnknown? {
        if faults(i).done {
          after := Commit(after, sum, service, f);
        }
        return after, Some(Interrupted);
      }
      after := Commit(after, sum, service, f);
    }
    err := if unlocked then None else Some(Interrupted);
  }

  // ------------------------------------------------------- any sequence of runs

  /** One run; the service name is already trimmed. */
  datatype Attempt = Attempt(service: string, entries: seq<File>, locked: bool, faults: nat -> Fault)

  /** A run over a directory; one that cannot be read stops it before anything is locked. */
  function AttemptOf(service: string, listing: Option<seq<File>>, locked: bool, faults: nat -> Fault): Attempt {
    if listing.Some? then Attempt(service, Entries(listing.value), locked, faults)
    else Attempt(service, [], false, faults)
  }

  function After(db: Db, sum: Checksum, a: Attempt): (Db, bool) {
    if a.service == "" || !a.locked then (db, false) else Loop(db, sum, a.service, a.entries, a.faults, 0)
  }

  function AfterAll(sum: Checksum, attempts: seq<Attempt>): Db {
    if attempts == [] then EmptyDb
    else After(AfterAll(sum, attempts[..|attempts| - 1]), sum, attempts[|attempts| - 1]).0
  }

  /** What has been committed for one service, in order. */
  function BodiesOf(applied: seq<Applied>, service: string): seq<Applied> {
    if applied == [] then []
    else
      var front, last := BodiesOf(applied[..|applied| - 1], service), applied[|applied| - 1];
      if last.service == service then front + [last] else front
  }

  function AsApplied(service: string, entries: seq<File>): seq<Applied> {
    seq(|entries|, i requires 0 <= i < |entries| => Applied(service, entries[i].name, entries[i].body))
  }

  /** Exactly the first `k` entries are committed, each once and in order, and the ledger holds exactly them. */
  ghost predicate AtPrefix(db: Db, sum: Checksum, service: string, entries: seq<File>, k: nat) {
    && k <= |entries|
    && BodiesOf(db.applied, service) == AsApplied(service, entries[..k])
    && (forall i :: 0 <= i < |entries| ==> ((service, entries[i].name) in db.ledger <==> i < k))
    && (forall i :: 0 <= i < k ==>
          (service, entries[i].name) in db.ledger && db.ledger[(service, entries[i].name)] == sum(entries[i].body))
  }

  lemma CommitNext(db: Db, sum: Checksum, service: string, entries: seq<File>, k: nat)
    requires Increasing(entries) && k < |entries| && AtPrefix(db, sum, service, entries, k)
    ensures AtPrefix(Commit(db, sum, service, entries[k]), sum, service, entries, k + 1)
  {
    var db' := Commit(db, sum, service, entries[k]);
    var x := Applied(service, entries[k].name, entries[k].body);
    assert db'.applied[..|db.applied|] == db.applied;
    assert AsApplied(service, entries[..k + 1]) == AsApplied(service, entries[..k]) + [x];
    forall i | 0 <= i < |entries| && i != k ensures entries[i].name != entries[k].name {
      LessTotal(entries[i].name, entries[k].name);
    }
  }

  /** A run moves the service's prefix forward; a run that ends leaves the whole list. */
  lemma {:induction false} LoopAdvances(db: Db, sum: Checksum, service: string, entries: seq<File>,
                                        faults: nat -> Fault, i: nat, k: nat)
    returns (k': nat)
    requires Increasing(entries) && i <= |entries| && AtPrefix(db, sum, service, entries, k) && i <= k
    ensures k <= k' && AtPrefix(Loop(db, sum, service, entries, faults, i).0, sum, service, entries, k')
    ensures Loop(db, sum, service, entries, faults, i).1 ==> k' == |entries|
    ensures k == |entries| ==> Loop(db, sum, service, entries, faults, i).0 == db
    ensures k == |entries| && (forall j :: faults(j) != Stops) ==> Loop(db, sum, service, entries, faults, i).1
    decreases |entries| - i
  {
    hide BodiesOf, AsApplied, Commit, Increasing;
    k' := k;
    if i < |entries| && faults(i) != Stops {
      if i < k {
        k' := LoopAdvances(db, sum, service, entries, faults, i + 1, k);
      } else {
        CommitNext(db, sum, service, entries, k);
        if faults(i).CommitUnknown? {
          k' := if faults(i).done then k + 1 else k;
        } else {
          k' := LoopAdvances(Commit(db, sum, service, entries[k]), sum, service, entries, faults, i + 1, k + 1);
        }
      }
    }
  }

  /**
   From a prefix of the list, a run gets to the end exactly when nothing stops
   it at any entry and no commit of a pending entry is left in doubt.
   */
  lemma {:induction false} LoopCompletes(db: Db, sum: Checksum, service: string, entries: seq<File>,
                                         faults: nat -> Fault, i: nat, k: nat)
    requires Increasing(entries) && i <= |entries| && AtPrefix(db, sum, service, entries, k) && i <= k
    ensures Loop(db, sum, service, entries, faults, i).1 <==>
      forall j: nat :: i <= j < |entries| ==> faults(j) != Stops && (j >= k ==> !faults(j).CommitUnknown?)
    decreases |entries| - i
  {
    hide BodiesOf, AsApplied, Commit, Increasing;
    if i < |entries| && faults(i) != Stops {
      if i < k {
        LoopCompletes(db, sum, service, entries, faults, i + 1, k);
      } else if !faults(i).CommitUnknown? {
        CommitNext(db, sum, service, entries, k);
        LoopCompletes(Commit(db, sum, service, entries[k]), sum, service, entries, faults, i + 1, k + 1);
      }
    }
  }

  /** Runs of other services leave a service's bodies and ledger rows alone. */
  lemma {:induction false} LoopElsewhere(db: Db, sum: Checksum, other: string, files: seq<File>, faults: nat -> Fault,
                                         i: nat, service: string, entries: seq<File>, k: nat)
    requires other != service && i <= |files| && AtPrefix(db, sum, service, entries, k)
    ensures AtPrefix(Loop(db, sum, other, files, faults, i).0, sum, service, entries, k)
    decreases |files| - i
  {
    if i < |files| && faults(i) != Stops {
      if (other, files[i].name) in db.ledger {
        if db.ledger[(other, files[i].name)] == sum(files[i].body) {
          LoopElsewhere(db, sum, other, files, faults, i + 1, service, entries, k);
        }
      } else {
        var db' := Commit(db, sum, other, files[i]);
        assert db'.applied[..|db.applied|] == db.applied;
        assert AtPrefix(db', sum, service, entries, k);
        if !faults(i).CommitUnknown? {
          LoopElsewhere(db', sum, other, files, faults, i + 1, service, entries, k);
        }
      }
    }
  }

  /** Every run of the service that gets past reading its directory finds the same files. */
  ghost predicate SameFiles(attempts: seq<Attempt>, service: string, entries: seq<File>) {
    forall i :: 0 <= i < |attempts| && attempts[i].service == service && attempts[i].locked ==>
      attempts[i].entries == entries
  }

  lemma AttemptAdvances(db: Db, sum: Checksum, a: Attempt, service: string, entries: seq<File>, k: nat)
    returns (k': nat)
    requires Increasing(entries) && service != "" && (a.service == service && a.locked ==> a.entries == entries)
    requires AtPrefix(db, sum, service, entries, k)
    ensures k <= k' && AtPrefix(After(db, sum, a).0, sum, service, entries, k')
    ensures a.service == service && After(db, sum, a).1 ==> k' == |entries|
    ensures a.service == service && k == |entries| ==> After(db, sum, a).0 == db
  {
    k' := k;
    if a.service != "" && a.locked {
      if a.service == service {
        k' := LoopAdvances(db, sum, service, entries, a.faults, 0, k);
      } else {
        LoopElsewhere(db, sum, a.service, a.entries, a.faults, 0, service, entries, k);
      }
    }
  }

  /**
   Over any sequence of runs on a fixed file set, each stopping at any error or
   crash point, the committed bodies of a service are a prefix of its file
   list, each applied once, and the ledger records exactly them.
   */
  lemma {:induction false} RunsLeavePrefix(sum: Checksum, attempts: seq<Attempt>, service: string, entries: seq<File>)
    returns (k: nat)
    requires Increasing(entries) && service != "" && SameFiles(attempts, service, entries)
    ensures AtPrefix(AfterAll(sum, attempts), sum, service, entries, k)
    decreases |attempts|
  {
    k := 0;
    if attempts == [] {
      assert AsApplied(service, entries[..0]) == [];
    } else {
      var n := |attempts| - 1;
      k := RunsLeavePrefix(sum, attempts[..n], service, entries);
      k := AttemptAdvances(AfterAll(sum, attempts[..n]), sum, attempts[n], service, entries, k);
    }
  }

  /**
   Once a run of the service has returned without error, its whole list stays
   committed, and every later run of the service commits nothing.
   */
  lemma {:induction false} CompleteRunIsFinal(sum: Checksum, attempts: seq<Attempt>, service: string,
                                              entries: seq<File>, n: nat)
    requires Increasing(entries) && service != "" && SameFiles(attempts, service, entries)
    requires n < |attempts| && attempts[n].service == service
    requires After(AfterAll(sum, attempts[..n]), sum, attempts[n]).1
    ensures AtPrefix(AfterAll(sum, attempts), sum, service, entries, |entries|)
    ensures forall a: Attempt :: a.service == service && a.entries == entries ==>
      After(AfterAll(sum, attempts), sum, a).0 == AfterAll(sum, attempts)
    decreases |attempts|
  {
    hide After, AtPrefix, Increasing;
    var m := |attempts| - 1;
    var k := RunsLeavePrefix(sum, attempts[..m], service, entries);
    if n < m {
      assert attempts[..m][..n] == attempts[..n];
      CompleteRunIsFinal(sum, attempts[..m], service, entries, n);
      k := |entries|;
    }
    var k' := AttemptAdvances(AfterAll(sum, attempts[..m]), sum, attempts[m], service, entries, k);
    forall a: Attempt | a.service == service && a.entries == entries
      ensures After(AfterAll(sum, attempts), sum, a).0 == AfterAll(sum, attempts)
    {
      var k'' := AttemptAdvances(AfterAll(sum, attempts), sum, a, service, entries, |entries|);
    }
  }

  /** Some run of the service got to the end without an error. */
  ghost predicate Completed(sum: Checksum, attempts: seq<Attempt>, service: string) {
    exists n :: 0 <= n < |attempts| && attempts[n].service == service
                && After(AfterAll(sum, attempts[..n]), sum, attempts[n]).1
  }

  /**
   Runs over a directory commit its forward migrations only, each at most once
   and in increasing name order; once a run has completed, all of them.
   */
  lemma DirectoryApplied(sum: Checksum, attempts: seq<Attempt>, service: string, listing: seq<File>) returns (k: nat)
    requires DistinctNames(listing) && service != "" && SameFiles(attempts, service, Entries(listing))
    ensures Increasing(Entries(listing)) && AtPrefix(AfterAll(sum, attempts), sum, service, Entries(listing), k)
    ensures forall x :: x in Entries(listing)[..k] ==> x in listing && IsMigration(x)
    ensures Completed(sum, attempts, service) ==>
      forall x :: x in listing && IsMigration(x) ==> x in Entries(listing)[..k]
  {
    hide AtPrefix, After, AfterAll, IsMigration, Entries, Increasing;
    EntriesExact(listing);
    var entries := Entries(listing);
    k := RunsLeavePrefix(sum, attempts, service, entries);
    PrefixLength(AfterAll(sum, attempts), sum, service, entries, k);
    assert forall x :: x in entries[..k] ==> x in entries;
    if Completed(sum, attempts, service) {
      var n :| 0 <= n < |attempts| && attempts[n].service == service
               && After(AfterAll(sum, attempts[..n]), sum, attempts[n]).1;
      CompleteRunIsFinal(sum, attempts, service, entries, n);
      k := |entries|;
      assert entries[..k] == entries;
    }
  }

  lemma PrefixLength(db: Db, sum: Checksum, service: string, entries: seq<File>, k: nat)
    requires AtPrefix(db, sum, service, entries, k)
    ensures k <= |entries|
  {
  }

  /**
   After any history over a directory, one run that is not disturbed reports
   success and leaves every forward migration committed, in name order.
   */
  lemma CleanRunApplies(sum: Checksum, attempts: seq<Attempt>, service: string, listing: seq<File>,
                        faults: nat -> Fault)
    requires DistinctNames(listing) && service != "" && SameFiles(attempts, service, Entries(listing))
    requires forall j :: faults(j) == Fine
    ensures var entries := Entries(listing);
      var run := After(AfterAll(sum, attempts), sum, AttemptOf(service, Some(listing), true, faults));
      && run.1 && AtPrefix(run.0, sum, service, entries, |entries|)
      && BodiesOf(run.0.applied, service) == AsApplied(service, entries)
      && forall x :: x in listing && IsMigration(x) ==> x in entries
  {
    var entries, db := Entries(listing), AfterAll(sum, attempts);
    EntriesExact(listing);
    hide AfterAll, Loop, IsMigration, Entries, BodiesOf, AsApplied, Increasing;
    var k := RunsLeavePrefix(sum, attempts, service, entries);
    LoopCompletes(db, sum, service, entries, faults, 0, k);
    var k' := LoopAdvances(db, sum, service, entries, faults, 0, k);
    assert entries[..|entries|] == entries;
  }

  /**
   A run over a file whose recorded checksum no longer matches never reports
   success, commits nothing from that file on, and keeps the recorded checksum.
   */
  lemma {:induction false} EditedMigrationFails(db: Db, sum: Checksum, service: string, entries: seq<File>,
                                                faults: nat -> Fault, i: nat, j: nat)
    requires Increasing(entries) && i <= j < |entries| && (service, entries[j].name) in db.ledger
    requires db.ledger[(service, entries[j].name)] != sum(entries[j].body)
    ensures !Loop(db, sum, service, entries, faults, i).1
    ensures StopsBefore(db, Loop(db, sum, service, entries, faults, i).0, service, entries[j].name)
    decreases |entries| - i
  {
    hide Less;
    if i < j && faults(i) != Stops {
      if (service, entries[i].name) in db.ledger {
        EditedMigrationFails(db, sum, service, entries, faults, i + 1, j);
      } else {
        LessTotal(entries[i].name, entries[j].name);
        if !faults(i).CommitUnknown? {
          EditedMigrationFails(Commit(db, sum, service, entries[i]), sum, service, entries, faults, i + 1, j);
        }
      }
    }
  }

  /** What was committed on top comes before the name, and the name's ledger row is as it was. */
  ghost predicate StopsBefore(db: Db, after: Db, service: string, name: string) {
    && db.applied <= after.applied
    && (forall m :: |db.applied| <= m < |after.applied| ==> Less(after.applied[m].name, name))
    && ((service, name) in db.ledger ==>
          (service, name) in after.ledger && after.ledger[(service, name)] == db.ledger[(service, name)])
  }
}

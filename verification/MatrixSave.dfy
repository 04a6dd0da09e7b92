/** Saving the validation matrix: the governance gate, the history entries, and what runs of saves keep. */
module MatrixSave {
  import opened MatrixGovernance
  import opened WhiteSpace
  import opened Wrappers

  /** The optional arguments of a save. */
  datatype Options = Options(approvedBy: Option<string>, fingerprint: Option<string>, reason: Option<string>)

  function OrElse(o: Option<string>, other: string): string {
    if o.Some? then o.value else other
  }

  function StatusName(s: Status): string {
    match s
    case VALIDATED => "VALIDATED"
    case IMPLEMENTED => "IMPLEMENTED"
    case IN_PROGRESS => "IN_PROGRESS"
    case PLANNED => "PLANNED"
    case FUTURE => "FUTURE"
    case BLOCKED => "BLOCKED"
    case NEEDS_REVIEW => "NEEDS_REVIEW"
    case REVALIDATION_REQUIRED => "REVALIDATION_REQUIRED"
    case RETIRED => "RETIRED"
  }

  // ---------------------------------------------------------------- one save

  /** The first item under an id. */
  function Find(items: seq<Item>, id: string): (r: Option<Item>)
    ensures r == None <==> forall i :: 0 <= i < |items| ==> items[i].id != id
    ensures r.Some? ==> r.value in items && r.value.id == id
  {
    if items == [] then None else if items[0].id == id then Some(items[0]) else Find(items[1..], id)
  }

  function AppendHistory(item: Item, entry: History): Item {
    item.(history := item.history + [entry])
  }

  /** The entry for a status that changed. */
  function Entry(was: Status, item: Item, o: Options, now: string): History {
    History(now, was, item.status, OrElse(o.approvedBy, "local-admin"), OrElse(o.fingerprint, "studio-save"),
      OrElse(o.reason, "Status alterado de " + StatusName(was) + " para " + StatusName(item.status) + " via Validation Studio"),
      seq(|item.evidence|, i requires 0 <= i < |item.evidence| => item.evidence[i].ref))
  }

  predicate StatusChanged(original: seq<Item>, item: Item) {
    Find(original, item.id).Some? && Find(original, item.id).value.status != item.status
  }

  function SavedItem(original: seq<Item>, item: Item, o: Options, now: string): Item {
    if StatusChanged(original, item) then AppendHistory(item, Entry(Find(original, item.id).value.status, item, o, now)) else item
  }

  function SavedItems(original: seq<Item>, items: seq<Item>, o: Options, now: string): (r: seq<Item>)
    ensures |r| == |items|
  {
    seq(|items|, i requires 0 <= i < |items| => SavedItem(original, items[i], o, now))
  }

  function Saved(original: Matrix, updated: Matrix, o: Options, now: string, today: string): Matrix {
    Matrix(today, updated.categories, SavedItems(original.items, updated.items, o, now))
  }

  function Errors(issues: seq<Issue>): seq<Issue> {
    if issues == [] then []
    else Errors(issues[..|issues| - 1]) + if issues[|issues| - 1].isError then [issues[|issues| - 1]] else []
  }

  lemma {:induction false} ErrorsFound(issues: seq<Issue>)
    ensures Errors(issues) != [] <==> HasErrors(issues)
    decreases |issues|
  {
    if issues != [] {
      var init, last := issues[..|issues| - 1], issues[|issues| - 1];
      ErrorsFound(init);
      ErrorsAppend(init, [last]);
      OneError(last);
      assert issues == init + [last];
    } else {
      NoErrors();
    }
  }

  /** The matrix object passed to a save; its date is set in place. */
  class WorkingMatrix {
    var lastUpdated: string
    var categories: seq<string>
    var items: seq<Item>

    function Value(): Matrix
      reads this
    {
      Matrix(lastUpdated, categories, items)
    }

    constructor (m: Matrix)
      ensures Value() == m
    {
      lastUpdated, categories, items := m.lastUpdated, m.categories, m.items;
    }
  }

  /** The matrix file. */
  class Repository {
    var disk: Matrix

    constructor (m: Matrix)
      ensures disk == m
    {
      disk := m;
    }

    method SaveMatrix(original: Matrix, updated: WorkingMatrix, o: Options, now: string, today: string)
      returns (ok: bool, errors: seq<Issue>)
      modifies this, updated
      ensures ok <==> Governed(old(updated.Value()))
      ensures errors == Errors(IssuesUpTo(old(updated.Value()), |old(updated.items)|)) && (ok <==> errors == [])
      ensures !ok ==> disk == old(disk) && updated.Value() == old(updated.Value())
      ensures ok ==> disk == Saved(original, old(updated.Value()), o, now, today)
      ensures ok ==> updated.Value() == old(updated.Value()).(lastUpdated := today)
      ensures forall issue :: issue in errors <==>
                issue.isError && Reported(old(updated.Value()), issue.itemId, issue.isError, issue.rule)
      ensures ok ==> disk.lastUpdated == today && disk.categories == old(updated.categories)
      ensures ok ==>
                && |disk.items| == |old(updated.items)|
                && forall i :: 0 <= i < |disk.items| ==> WrittenFor(original.items, old(updated.items)[i], o, now, disk.items[i])
    {
      hide Governed, IssuesUpTo, HasErrors, SavedItem, StatusChanged, Entry, Reported, WrittenFor;
      var issues := CheckMatrix(updated.Value());
      errors := [];
      for i := 0 to |issues|
        invariant errors == Errors(issues[..i])
        invariant disk == old(disk) && updated.Value() == old(updated.Value())
      {
        assert issues[..i + 1][..i] == issues[..i];
        if issues[i].isError {
          errors := errors + [issues[i]];
        }
      }
      assert issues[..|issues|] == issues;
      ErrorsFound(issues);
      forall issue ensures issue in errors <==> issue in issues && issue.isError {
        ErrorsAre(issues, issue);
      }
      ChecksExactly(updated.Value());
      if errors != [] {
        return false, errors;
      }
      updated.lastUpdated := today;
      var items := SaveItems(original.items, updated.items, o, now);
      disk := Matrix(updated.lastUpdated, updated.categories, items);
      return true, [];
    }
  }

  /** The items as they are written, one after another. */
  method SaveItems(original: seq<Item>, given: seq<Item>, o: Options, now: string) returns (items: seq<Item>)
    ensures items == SavedItems(original, given, o, now)
    ensures forall k :: 0 <= k < |items| ==> WrittenFor(original, given[k], o, now, items[k])
  {
    hide SavedItem, StatusChanged, WrittenFor;
    items := [];
    for i := 0 to |given|
      invariant items == SavedItems(original, given, o, now)[..i]
      invariant forall k :: 0 <= k < i ==> WrittenFor(original, given[k], o, now, items[k])
    {
      var item := SaveItem(original, given[i], o, now);
      SavedAsWritten(original, given[i], o, now);
      items := items + [item];
    }
  }

  /** Exactly the errors among the issues are given back, in their order. */
  lemma {:induction false} ErrorsAre(issues: seq<Issue>, issue: Issue)
    ensures issue in Errors(issues) <==> issue in issues && issue.isError
    decreases |issues|
  {
    if issues != [] {
      var init, last := issues[..|issues| - 1], issues[|issues| - 1];
      ErrorsAre(init, issue);
      assert issues == init + [last];
    }
  }

  lemma {:induction false} ErrorsInOrder(a: seq<Issue>, b: seq<Issue>)
    ensures Errors(a + b) == Errors(a) + Errors(b)
    decreases |b|
  {
    if b == [] {
      assert a + b == a;
    } else {
      assert (a + b)[..|a + b| - 1] == a + b[..|b| - 1];
      ErrorsInOrder(a, b[..|b| - 1]);
    }
  }

  /** The status an item had: that of the first original item with its id, when it was another one. */
  predicate HadStatus(original: seq<Item>, item: Item, was: Status) {
    exists j: nat :: j < |original| && FirstUnder(original, item.id, j) && original[j].status == was != item.status
  }

  /** Item j is the first one under an id. */
  predicate FirstUnder(items: seq<Item>, id: string, j: nat)
    requires j < |items|
  {
    items[j].id == id && forall l :: 0 <= l < j ==> items[l].id != id
  }

  /** The entry that a change of status leaves: what was given, or the defaults of the studio. */
  predicate EntryFor(e: History, was: Status, item: Item, o: Options, now: string) {
    && e.timestamp == now && e.was == was && e.became == item.status
    && (o.approvedBy.Some? ==> e.approvedBy == o.approvedBy.value) && (o.approvedBy.None? ==> e.approvedBy == "local-admin")
    && (o.fingerprint.Some? ==> e.fingerprint == o.fingerprint.value) && (o.fingerprint.None? ==> e.fingerprint == "studio-save")
    && (o.reason.Some? ==> e.reason == o.reason.value)
    && (o.reason.None? ==>
          e.reason == "Status alterado de " + StatusName(was) + " para " + StatusName(item.status) + " via Validation Studio")
    && |e.evidence| == |item.evidence| && forall k :: 0 <= k < |e.evidence| ==> e.evidence[k] == item.evidence[k].ref
  }

  /** An item as it is written: one entry more if its status changed, nothing else. */
  ghost predicate WrittenFor(original: seq<Item>, item: Item, o: Options, now: string, saved: Item) {
    && saved.(history := item.history) == item
    && ((forall was :: !HadStatus(original, item, was)) ==> saved.history == item.history)
    && forall was :: HadStatus(original, item, was) ==>
         exists e :: saved.history == item.history + [e] && EntryFor(e, was, item, o, now)
  }

  /** The item found under an id is the first one. */
  lemma {:induction false} FindFirst(items: seq<Item>, id: string)
    ensures Find(items, id).Some? ==> exists j: nat :: j < |items| && FirstUnder(items, id, j) && items[j] == Find(items, id).value
    ensures forall j: nat :: j < |items| && FirstUnder(items, id, j) ==> Find(items, id) == Some(items[j])
    decreases |items|
  {
    if items != [] && items[0].id != id {
      FindFirst(items[1..], id);
      forall j: nat | j < |items| ensures FirstUnder(items, id, j) <==> j > 0 && FirstUnder(items[1..], id, j - 1) {
        NotTheFirst(items, id, j);
      }
      if Find(items, id).Some? {
        var j: nat :| j < |items[1..]| && FirstUnder(items[1..], id, j) && items[1..][j] == Find(items, id).value;
        assert FirstUnder(items, id, j + 1);
      }
    } else if items != [] {
      assert FirstUnder(items, id, 0);
      assert forall j: nat :: 0 < j < |items| ==> !FirstUnder(items, id, j);
    }
  }

  lemma NotTheFirst(items: seq<Item>, id: string, j: nat)
    requires j < |items| && items[0].id != id
    ensures FirstUnder(items, id, j) <==> j > 0 && FirstUnder(items[1..], id, j - 1)
  {
    if j > 0 && FirstUnder(items[1..], id, j - 1) {
      forall l | 0 <= l < j ensures items[l].id != id {
        if l > 0 {
          assert items[l] == items[1..][l - 1];
        }
      }
    }
    if FirstUnder(items, id, j) {
      assert forall l :: 0 <= l < j - 1 ==> items[1..][l] == items[l + 1];
    }
  }

  lemma EntryFits(was: Status, item: Item, o: Options, now: string)
    ensures EntryFor(Entry(was, item, o, now), was, item, o, now)
  {
  }

  /** What a save makes of an item is that. */
  lemma SavedAsWritten(original: seq<Item>, item: Item, o: Options, now: string)
    ensures WrittenFor(original, item, o, now, SavedItem(original, item, o, now))
  {
    hide Entry, EntryFor, HadStatus, Find;
    forall was ensures HadStatus(original, item, was) <==> StatusChanged(original, item) && Find(original, item.id).value.status == was {
      HadIs(original, item, was);
    }
    if StatusChanged(original, item) {
      var was := Find(original, item.id).value.status;
      EntryFits(was, item, o, now);
      assert HadStatus(original, item, was);
      var e := Entry(was, item, o, now);
      assert SavedItem(original, item, o, now).history == item.history + [e];
    }
  }

  lemma HadIs(original: seq<Item>, item: Item, was: Status)
    ensures HadStatus(original, item, was) <==> StatusChanged(original, item) && Find(original, item.id).value.status == was
  {
    hide FirstUnder, Find;
    FindFirst(original, item.id);
  }

  /** Statuses are written by their names. */
  lemma StatusNames()
    ensures StatusName(VALIDATED) == "VALIDATED" && StatusName(IMPLEMENTED) == "IMPLEMENTED" && StatusName(PLANNED) == "PLANNED"
    ensures StatusName(IN_PROGRESS) == "IN_PROGRESS" && StatusName(FUTURE) == "FUTURE" && StatusName(BLOCKED) == "BLOCKED"
    ensures StatusName(NEEDS_REVIEW) == "NEEDS_REVIEW" && StatusName(RETIRED) == "RETIRED"
    ensures StatusName(REVALIDATION_REQUIRED) == "REVALIDATION_REQUIRED"
  {
  }

  method SaveItem(original: seq<Item>, item: Item, o: Options, now: string) returns (saved: Item)
    ensures saved == SavedItem(original, item, o, now)
    ensures saved.(history := item.history) == item
    ensures saved.history == item.history <==> !StatusChanged(original, item)
    ensures item.history <= saved.history && |saved.history| <= |item.history| + 1
    ensures StatusChanged(original, item) ==>
              var entry := saved.history[|item.history|];
              entry.was == Find(original, item.id).value.status && entry.became == item.status && entry.timestamp == now
  {
    var orig := Find(original, item.id);
    if orig == None || orig.value.status == item.status {
      return item;
    }
    return AppendHistory(item, Entry(orig.value.status, item, o, now));
  }

  // ---------------------------------------------------------------- the closure on disk

  /** Saving changes nothing of an item but its history. */
  lemma SameButHistory(original: seq<Item>, item: Item, o: Options, now: string)
    ensures SavedItem(original, item, o, now).(history := item.history) == item
  {
  }

  lemma {:induction false} LookupSaved(original: seq<Item>, items: seq<Item>, o: Options, now: string, id: string)
    ensures var r := Lookup(items, id);
            Lookup(SavedItems(original, items, o, now), id) == if r == None then None else Some(SavedItem(original, r.value, o, now))
    decreases |items|
  {
    hide SavedItem;
    if items != [] {
      var init, last := items[..|items| - 1], items[|items| - 1];
      LookupSaved(original, init, o, now, id);
      SameButHistory(original, last, o, now);
      var saved := SavedItems(original, items, o, now);
      assert saved[..|saved| - 1] == SavedItems(original, init, o, now);
    }
  }

  /** What passes the gate is what is on disk: the written matrix is governed too. */
  lemma SavedGoverned(original: Matrix, updated: Matrix, o: Options, now: string, today: string)
    requires Governed(updated)
    ensures Governed(Saved(original, updated, o, now, today))
  {
    hide SavedItem, Met, Sound;
    var disk := Saved(original, updated, o, now, today);
    forall i | 0 <= i < |updated.items| ensures SameGovernance(updated.items[i], disk.items[i]) {
      SavedSame(original.items, updated.items[i], o, now);
    }
    forall i | 0 <= i < |disk.items| ensures disk.items[i].categoryId in disk.categories && Sound(disk.items[i]) {
      assert SameGovernance(updated.items[i], disk.items[i]);
    }
    forall i, j | 0 <= i < j < |disk.items| ensures disk.items[i].id != disk.items[j].id {
      assert SameGovernance(updated.items[i], disk.items[i]) && SameGovernance(updated.items[j], disk.items[j]);
    }
    forall i, k | 0 <= i < |disk.items| && disk.items[i].status == VALIDATED && 0 <= k < |disk.items[i].required|
      ensures Met(disk.items[i].required[k], disk.items)
    {
      assert SameGovernance(updated.items[i], disk.items[i]);
      assert Met(updated.items[i].required[k], updated.items);
      StillMet(original.items, updated.items, o, now, disk.items[i].required[k]);
    }
  }

  predicate SameGovernance(a: Item, b: Item) {
    a.id == b.id && a.status == b.status && a.required == b.required && a.categoryId == b.categoryId && (Sound(a) <==> Sound(b))
  }

  lemma SavedSame(original: seq<Item>, item: Item, o: Options, now: string)
    ensures SameGovernance(item, SavedItem(original, item, o, now))
  {
  }

  lemma StillMet(original: seq<Item>, items: seq<Item>, o: Options, now: string, id: string)
    requires Met(id, items)
    ensures Met(id, SavedItems(original, items, o, now))
  {
    LookupSaved(original, items, o, now, id);
  }

  // ---------------------------------------------------------------- histories over runs of saves

  datatype Request = Request(original: Matrix, updated: Matrix, options: Options, now: string, today: string)

  /** The matrix on disk after a save, successful or not. */
  function Step(disk: Matrix, r: Request): Matrix {
    if HasErrors(IssuesUpTo(r.updated, |r.updated.items|)) then disk
    else Saved(r.original, r.updated, r.options, r.now, r.today)
  }

  function Run(disk: Matrix, rs: seq<Request>): Matrix {
    if rs == [] then disk else Step(Run(disk, rs[..|rs| - 1]), rs[|rs| - 1])
  }

  /** A save that succeeds leaves a governed matrix, whatever was there before; one that fails changes nothing. */
  lemma StepGoverned(disk: Matrix, r: Request)
    requires Governed(disk) || !HasErrors(IssuesUpTo(r.updated, |r.updated.items|))
    ensures Governed(Step(disk, r))
  {
    hide Governed, IssuesUpTo, HasErrors;
    ChecksExactly(r.updated);
    if Governed(r.updated) {
      SavedGoverned(r.original, r.updated, r.options, r.now, r.today);
    }
  }

  /** In every run of saves, with whatever inputs, everything that a VALIDATED item on disk reaches through its
      requirements is VALIDATED. */
  lemma {:induction false} RunsGoverned(disk: Matrix, rs: seq<Request>)
    requires Governed(disk)
    ensures Governed(Run(disk, rs))
    ensures var items := Run(disk, rs).items;
            forall path :: Path(items, path) && PathStart(items, path) == VALIDATED ==> PathEnd(items, path) == VALIDATED
    decreases |rs|
  {
    hide Governed, Step, Path;
    if rs != [] {
      RunsGoverned(disk, rs[..|rs| - 1]);
      StepGoverned(Run(disk, rs[..|rs| - 1]), rs[|rs| - 1]);
    }
    var m := Run(disk, rs);
    forall path | Path(m.items, path) && PathStart(m.items, path) == VALIDATED ensures PathEnd(m.items, path) == VALIDATED {
      ReachableValidated(m, path);
    }
  }

  function PathStart(items: seq<Item>, path: seq<nat>): Status
    requires Path(items, path)
  {
    items[path[0]].status
  }

  function PathEnd(items: seq<Item>, path: seq<nat>): Status
    requires Path(items, path)
  {
    items[path[|path| - 1]].status
  }

  /** Consecutive entries chain, and the last one gives the status. */
  predicate Chained(item: Item) {
    && (forall i :: 0 <= i < |item.history| - 1 ==> item.history[i].became == item.history[i + 1].was)
    && (item.history != [] ==> item.history[|item.history| - 1].became == item.status)
  }

  ghost predicate AllChained(m: Matrix) {
    forall i :: 0 <= i < |m.items| ==> Chained(m.items[i])
  }

  /** The save's inputs carry what is on disk: an item that is there comes with its history, and the original with
      its status; an item that is not there is new to both, with a chained history of its own. */
  predicate Carries(disk: Matrix, r: Request, item: Item) {
    var stored := Find(disk.items, item.id);
    var orig := Find(r.original.items, item.id);
    if stored == None then orig == None && Chained(item)
    else orig.Some? && orig.value.status == stored.value.status && item.history == stored.value.history
  }

  ghost predicate CarriesAll(disk: Matrix, r: Request) {
    forall i :: 0 <= i < |r.updated.items| ==> Carries(disk, r, r.updated.items[i])
  }

  /** One item of a successful save: its history on disk only grows, by at most one entry, and stays chained. */
  lemma ItemGrows(disk: Matrix, r: Request, item: Item)
    requires AllChained(disk) && Carries(disk, r, item)
    ensures var saved, stored := SavedItem(r.original.items, item, r.options, r.now), Find(disk.items, item.id);
            && Chained(saved)
            && (stored.Some? ==> stored.value.history <= saved.history && |saved.history| <= |stored.value.history| + 1)
            && (stored.Some? ==> (saved.history == stored.value.history <==> saved.status == stored.value.status))
  {
    hide Chained, Entry;
    var stored := Find(disk.items, item.id);
    if stored.Some? {
      var i :| 0 <= i < |disk.items| && disk.items[i] == stored.value;
      assert Chained(stored.value);
      if StatusChanged(r.original.items, item) {
        var entry := Entry(stored.value.status, item, r.options, r.now);
        EntryIs(stored.value.status, item, r.options, r.now);
        ChainedLonger(stored.value, item, entry);
      } else {
        ChainedSame(stored.value, item);
      }
    }
  }

  lemma EntryIs(was: Status, item: Item, o: Options, now: string)
    ensures Entry(was, item, o, now).was == was && Entry(was, item, o, now).became == item.status
  {
  }

  lemma ChainedLonger(stored: Item, item: Item, entry: History)
    requires Chained(stored) && item.history == stored.history && entry.was == stored.status && entry.became == item.status
    ensures Chained(AppendHistory(item, entry))
  {
  }

  lemma ChainedSame(stored: Item, item: Item)
    requires Chained(stored) && item.history == stored.history && item.status == stored.status
    ensures Chained(item)
  {
  }

  lemma StepChains(disk: Matrix, r: Request)
    requires AllChained(disk) && CarriesAll(disk, r)
    ensures AllChained(Step(disk, r))
  {
    hide Chained, Carries, IssuesUpTo, HasErrors, SavedItem;
    var after := Saved(r.original, r.updated, r.options, r.now, r.today);
    forall i | 0 <= i < |after.items| ensures Chained(after.items[i]) {
      assert Carries(disk, r, r.updated.items[i]);
      ItemGrows(disk, r, r.updated.items[i]);
    }
  }

  ghost predicate Faithful(disk: Matrix, rs: seq<Request>) {
    forall k :: 0 <= k < |rs| ==> CarriesAll(Run(disk, rs[..k]), rs[k])
  }

  /** In every run of saves that carry what is on disk, every history stays chained and ends at the status. */
  lemma {:induction false} RunsChain(disk: Matrix, rs: seq<Request>)
    requires AllChained(disk) && Faithful(disk, rs)
    ensures AllChained(Run(disk, rs))
    decreases |rs|
  {
    hide AllChained, CarriesAll, Step;
    if rs != [] {
      var init := rs[..|rs| - 1];
      FaithfulPrefix(disk, rs, |init|);
      RunsChain(disk, init);
      StepChains(Run(disk, init), rs[|rs| - 1]);
    }
  }

  lemma {:induction false} FindSaved(original: seq<Item>, items: seq<Item>, o: Options, now: string, id: string)
    ensures var r := Find(items, id);
            Find(SavedItems(original, items, o, now), id) == if r == None then None else Some(SavedItem(original, r.value, o, now))
    decreases |items|
  {
    hide SavedItem;
    if items != [] {
      FindSaved(original, items[1..], o, now, id);
      SameButHistory(original, items[0], o, now);
      var saved := SavedItems(original, items, o, now);
      assert saved[1..] == SavedItems(original, items[1..], o, now);
    }
  }

  /** The history stored under an id. */
  function HistoryOf(m: Matrix, id: string): seq<History> {
    var r := Find(m.items, id);
    if r == None then [] else r.value.history
  }

  lemma StepGrows(disk: Matrix, r: Request, id: string)
    requires AllChained(disk) && CarriesAll(disk, r)
    requires Find(disk.items, id).Some? && Find(Step(disk, r).items, id).Some?
    ensures HistoryOf(disk, id) <= HistoryOf(Step(disk, r), id)
  {
    hide AllChained, SavedItem, IssuesUpTo, HasErrors, Find, Carries;
    if !HasErrors(IssuesUpTo(r.updated, |r.updated.items|)) {
      FindSaved(r.original.items, r.updated.items, r.options, r.now, id);
      var item := Find(r.updated.items, id).value;
      var i :| 0 <= i < |r.updated.items| && r.updated.items[i] == item;
      assert Carries(disk, r, r.updated.items[i]);
      ItemGrows(disk, r, item);
    }
  }

  /** Over whole runs: while an item stays in the matrix, its history after k saves is a prefix of its history after
      any later save. */
  lemma {:induction false} RunsGrow(disk: Matrix, rs: seq<Request>, k: nat, m: nat, id: string)
    requires AllChained(disk) && Faithful(disk, rs) && k <= m <= |rs|
    requires forall j :: k <= j <= m ==> Find(Run(disk, rs[..j]).items, id).Some?
    ensures HistoryOf(Run(disk, rs[..k]), id) <= HistoryOf(Run(disk, rs[..m]), id)
    decreases m - k
  {
    hide AllChained, CarriesAll, Step, HistoryOf, Find;
    if k < m {
      RunsGrow(disk, rs, k, m - 1, id);
      assert rs[..m][..m - 1] == rs[..m - 1];
      FaithfulPrefix(disk, rs, m - 1);
      RunsChain(disk, rs[..m - 1]);
      StepGrows(Run(disk, rs[..m - 1]), rs[m - 1], id);
    }
  }

  lemma FaithfulPrefix(disk: Matrix, rs: seq<Request>, m: nat)
    requires Faithful(disk, rs) && m <= |rs|
    ensures Faithful(disk, rs[..m])
  {
    hide CarriesAll;
    forall k | 0 <= k < m ensures CarriesAll(Run(disk, rs[..m][..k]), rs[..m][k]) {
      assert rs[..m][..k] == rs[..k];
    }
  }

  /** When a save keeps a stored history: when the item it is given carries it, or when the entry it appends happens
      to be the one that is missing. */
  lemma HistoryKeptIff(original: seq<Item>, item: Item, o: Options, now: string, stored: seq<History>)
    ensures var entry := Entry(if StatusChanged(original, item) then Find(original, item.id).value.status else item.status, item, o, now);
            stored <= SavedItem(original, item, o, now).history <==>
              stored <= item.history || (StatusChanged(original, item) && stored == item.history + [entry])
  {
    var saved := SavedItem(original, item, o, now).history;
    if stored <= saved && |stored| == |saved| {
      assert stored == saved;
    } else if stored <= saved {
      assert stored <= item.history;
    }
  }

  // ---------------------------------------------------------------- the studio's own runs

  /** The studio's edits: any fields but ids and histories. */
  predicate Edited(copy: Matrix, updated: Matrix) {
    && |updated.items| == |copy.items|
    && forall i :: 0 <= i < |copy.items| ==>
         updated.items[i].id == copy.items[i].id && updated.items[i].history == copy.items[i].history
  }

  /** The studio keeps the matrix it sent, without the entries the save appended. */
  datatype Session = Session(disk: Matrix, copy: Matrix)

  datatype Edit = Edit(updated: Matrix, options: Options, now: string, today: string)

  function Requested(s: Session, e: Edit): Request {
    Request(s.copy, e.updated, e.options, e.now, e.today)
  }

  function StudioStep(s: Session, e: Edit): Session {
    if HasErrors(IssuesUpTo(e.updated, |e.updated.items|)) then s
    else Session(Step(s.disk, Requested(s, e)), e.updated)
  }

  function StudioRun(loaded: Matrix, es: seq<Edit>): Session {
    if es == [] then Session(loaded, loaded) else StudioStep(StudioRun(loaded, es[..|es| - 1]), es[|es| - 1])
  }

  predicate StudioEdits(loaded: Matrix, es: seq<Edit>) {
    forall k :: 0 <= k < |es| ==> Edited(StudioRun(loaded, es[..k]).copy, es[k].updated)
  }

  /** The stored history of an item is the loaded one, or the loaded one and a single entry. */
  predicate AtMostOneMore(loaded: seq<History>, stored: seq<History>) {
    stored == loaded || (|stored| == |loaded| + 1 && stored[..|loaded|] == loaded)
  }

  /** However many status changes a session saves, no item's history on disk ever holds more than one entry beyond
      what was loaded. */
  lemma {:induction false} StudioForgets(loaded: Matrix, es: seq<Edit>)
    requires StudioEdits(loaded, es)
    ensures var s := StudioRun(loaded, es);
            && Edited(loaded, s.copy) && |s.disk.items| == |loaded.items|
            && forall i :: 0 <= i < |loaded.items| ==>
                 s.disk.items[i].id == loaded.items[i].id && AtMostOneMore(loaded.items[i].history, s.disk.items[i].history)
    decreases |es|
  {
    hide HasErrors, IssuesUpTo, StatusChanged, Entry;
    if es != [] {
      var init := es[..|es| - 1];
      forall k | 0 <= k < |init| ensures Edited(StudioRun(loaded, init[..k]).copy, init[k].updated) {
        assert init[..k] == es[..k];
      }
      StudioForgets(loaded, init);
      assert Edited(StudioRun(loaded, es[..|es| - 1]).copy, es[|es| - 1].updated);
    }
  }

  /** And the next successful save always drops the entry that the last one appended. */
  lemma StudioDropsEntry(s: Session, first: Edit, second: Edit, i: nat)
    requires i < |s.copy.items| && Edited(s.copy, first.updated)
    requires forall j, k :: 0 <= j < k < |s.copy.items| ==> s.copy.items[j].id != s.copy.items[k].id
    requires !HasErrors(IssuesUpTo(first.updated, |first.updated.items|))
    requires !HasErrors(IssuesUpTo(second.updated, |second.updated.items|))
    requires Edited(StudioStep(s, first).copy, second.updated)
    requires first.updated.items[i].status != s.copy.items[i].status
    ensures var one := StudioStep(s, first);
            var two := StudioStep(one, second);
            && one.disk.items[i].history == s.copy.items[i].history + [Entry(s.copy.items[i].status, first.updated.items[i], first.options, first.now)]
            && !(one.disk.items[i].history <= two.disk.items[i].history)
  {
    hide HasErrors, IssuesUpTo, Entry, Find;
    FindUnique(s.copy.items, i);
    FindUnique(first.updated.items, i);
    var e1 := Entry(s.copy.items[i].status, first.updated.items[i], first.options, first.now);
    EntryIs(s.copy.items[i].status, first.updated.items[i], first.options, first.now);
    OtherEntry(first.updated.items, second.updated.items[i], second.options, second.now, s.copy.items[i].history, e1);
  }

  /** A save given a history without the entry e1 does not write that entry, if e1 does not start from the status saved last. */
  lemma OtherEntry(original: seq<Item>, item: Item, o: Options, now: string, h: seq<History>, e1: History)
    requires item.history == h && (Find(original, item.id).Some? ==> Find(original, item.id).value.status != e1.was)
    ensures !(h + [e1] <= SavedItem(original, item, o, now).history)
  {
    if StatusChanged(original, item) {
      var e2 := Entry(Find(original, item.id).value.status, item, o, now);
      assert (h + [e1])[|h|] != (h + [e2])[|h|];
    }
  }

  /** An item with nothing to complain about. */
  function PlainItem(status: Status): Item {
    Item("item", "title", "category", "domain", "section", "requirement", status, LOW, "", "", "", [], [], [], [], [], [], 0, "", [])
  }

  function PlainMatrix(status: Status): Matrix {
    Matrix("", ["category"], [PlainItem(status)])
  }

  lemma PlainGoverned(status: Status)
    requires status == PLANNED || status == IN_PROGRESS
    ensures !HasErrors(IssuesUpTo(PlainMatrix(status), 1))
  {
    hide HasErrors, IssuesUpTo;
    NotBlank();
    var m := PlainMatrix(status);
    assert m.categories[0] == "category";
    assert Sound(PlainItem(status));
    assert Governed(m);
    ChecksExactly(m);
  }

  lemma NotBlank()
    ensures !Blank("title") && !Blank("requirement") && !Blank("section") && !Blank("domain")
  {
    assert !IsSpace("title"[0]) && !IsSpace("requirement"[0]) && !IsSpace("section"[0]) && !IsSpace("domain"[0]);
  }

  /** Such a session: one item goes from PLANNED to IN_PROGRESS and back. Both saves succeed, each leaves one entry,
      and the first entry is gone after the second save. */
  lemma StudioSessionForgets(o: Options, now: string, today: string)
    ensures var first, second := Edit(PlainMatrix(IN_PROGRESS), o, now, today), Edit(PlainMatrix(PLANNED), o, now, today);
            var loaded := PlainMatrix(PLANNED);
            var e1, e2 := Entry(PLANNED, PlainItem(IN_PROGRESS), o, now), Entry(IN_PROGRESS, PlainItem(PLANNED), o, now);
            && StudioEdits(loaded, [first, second])
            && StudioRun(loaded, [first]).disk.items[0].history == [e1]
            && StudioRun(loaded, [first, second]).disk.items[0].history == [e2]
            && e1 != e2
  {
    hide HasErrors, IssuesUpTo, Entry;
    PlainGoverned(PLANNED);
    PlainGoverned(IN_PROGRESS);
    var loaded := PlainMatrix(PLANNED);
    var first, second := Edit(PlainMatrix(IN_PROGRESS), o, now, today), Edit(PlainMatrix(PLANNED), o, now, today);
    EntryIs(PLANNED, PlainItem(IN_PROGRESS), o, now);
    EntryIs(IN_PROGRESS, PlainItem(PLANNED), o, now);
    assert [first][..0] == [];
    assert StudioRun(loaded, [first]) == StudioStep(Session(loaded, loaded), first);
    assert [first, second][..1] == [first] && [first, second][..0] == [];
    assert StudioRun(loaded, [first, second]) == StudioStep(StudioRun(loaded, [first]), second);
  }

  lemma FindUnique(items: seq<Item>, i: nat)
    requires i < |items| && forall j, k :: 0 <= j < k < |items| ==> items[j].id != items[k].id
    ensures Find(items, items[i].id) == Some(items[i])
  {
    var r := Find(items, items[i].id);
    var j :| 0 <= j < |items| && items[j] == r.value;
  }

  // ---------------------------------------------------------------- the change summary

  datatype Field =
    | F_STATUS | F_PRIORITY | F_NOTES | F_OWNER_AREA | F_TECHNICAL_AREA | F_EVIDENCE | F_BLOCKING_ISSUES | F_ACCEPTANCE_CRITERIA
    | F_VALIDATION_METHODS | F_INVARIANTS | F_REQUIRES | F_VALIDATION_DOMAIN | F_CONFIDENCE | F_FREEZE_REASON

  datatype ItemChange = ItemChange(itemId: string, title: string, fields: seq<Field>)

  /** The order in which the fields are compared. */
  const FIELDS: seq<Field> :=
    [F_STATUS, F_PRIORITY, F_NOTES, F_OWNER_AREA, F_TECHNICAL_AREA, F_EVIDENCE, F_BLOCKING_ISSUES, F_ACCEPTANCE_CRITERIA,
     F_VALIDATION_METHODS, F_INVARIANTS, F_REQUIRES, F_VALIDATION_DOMAIN, F_CONFIDENCE, F_FREEZE_REASON]

  /** Of the evidence only the count is compared. */
  predicate Differs(f: Field, orig: Item, item: Item) {
    match f
    case F_STATUS => orig.status != item.status
    case F_PRIORITY => orig.priority != item.priority
    case F_NOTES => orig.notes != item.notes
    case F_OWNER_AREA => orig.ownerArea != item.ownerArea
    case F_TECHNICAL_AREA => orig.technicalArea != item.technicalArea
    case F_EVIDENCE => |orig.evidence| != |item.evidence|
    case F_BLOCKING_ISSUES => orig.blockingIssues != item.blockingIssues
    case F_ACCEPTANCE_CRITERIA => orig.acceptanceCriteria != item.acceptanceCriteria
    case F_VALIDATION_METHODS => orig.validationMethods != item.validationMethods
    case F_INVARIANTS => orig.invariants != item.invariants
    case F_REQUIRES => orig.required != item.required
    case F_VALIDATION_DOMAIN => orig.validationDomain != item.validationDomain
    case F_CONFIDENCE => orig.confidence != item.confidence
    case F_FREEZE_REASON => orig.freezeReason != item.freezeReason
  }

  function Differing(fields: seq<Field>, orig: Item, item: Item): seq<Field> {
    if fields == [] then []
    else
      var f := fields[|fields| - 1];
      Differing(fields[..|fields| - 1], orig, item) + if Differs(f, orig, item) then [f] else []
  }

  function ChangedFields(orig: Item, item: Item): seq<Field> {
    Differing(FIELDS, orig, item)
  }

  lemma {:induction false} DifferingMembers(fields: seq<Field>, orig: Item, item: Item, f: Field)
    ensures f in Differing(fields, orig, item) <==> f in fields && Differs(f, orig, item)
    decreases |fields|
  {
    hide Differs;
    if fields != [] {
      var init, last := fields[..|fields| - 1], fields[|fields| - 1];
      DifferingMembers(init, orig, item, f);
      assert fields == init + [last];
    }
  }

  method CompareFields(orig: Item, item: Item) returns (changed: seq<Field>)
    ensures changed == ChangedFields(orig, item)
  {
    hide Differs;
    changed := [];
    for i := 0 to |FIELDS|
      invariant changed == Differing(FIELDS[..i], orig, item)
    {
      assert FIELDS[..i + 1][..i] == FIELDS[..i];
      if Differs(FIELDS[i], orig, item) {
        changed := changed + [FIELDS[i]];
      }
    }
    assert FIELDS[..|FIELDS|] == FIELDS;
  }

  function Summary(original: seq<Item>, items: seq<Item>): seq<ItemChange> {
    if items == [] then []
    else
      var item := items[|items| - 1];
      var orig := Find(original, item.id);
      Summary(original, items[..|items| - 1]) +
      if orig.Some? && ChangedFields(orig.value, item) != [] then [ItemChange(item.id, item.title, ChangedFields(orig.value, item))] else []
  }

  method ComputeChangeSummary(original: Matrix, updated: Matrix) returns (changes: seq<ItemChange>)
    ensures changes == Summary(original.items, updated.items)
  {
    hide ChangedFields;
    changes := [];
    for i := 0 to |updated.items|
      invariant changes == Summary(original.items, updated.items[..i])
    {
      var item := updated.items[i];
      assert updated.items[..i + 1][..i] == updated.items[..i];
      var orig := Find(original.items, item.id);
      if orig == None {
        continue;
      }
      var fields := CompareFields(orig.value, item);
      if fields != [] {
        changes := changes + [ItemChange(item.id, item.title, fields)];
      }
    }
    assert updated.items[..|updated.items|] == updated.items;
  }

  /** The field put back, all the rest as it is now: for the evidence only its count matters. */
  function PutBack(f: Field, orig: Item, item: Item): Item {
    match f
    case F_STATUS => item.(status := orig.status)
    case F_PRIORITY => item.(priority := orig.priority)
    case F_NOTES => item.(notes := orig.notes)
    case F_OWNER_AREA => item.(ownerArea := orig.ownerArea)
    case F_TECHNICAL_AREA => item.(technicalArea := orig.technicalArea)
    case F_EVIDENCE => if |orig.evidence| == |item.evidence| then item else item.(evidence := orig.evidence)
    case F_BLOCKING_ISSUES => item.(blockingIssues := orig.blockingIssues)
    case F_ACCEPTANCE_CRITERIA => item.(acceptanceCriteria := orig.acceptanceCriteria)
    case F_VALIDATION_METHODS => item.(validationMethods := orig.validationMethods)
    case F_INVARIANTS => item.(invariants := orig.invariants)
    case F_REQUIRES => item.(required := orig.required)
    case F_VALIDATION_DOMAIN => item.(validationDomain := orig.validationDomain)
    case F_CONFIDENCE => item.(confidence := orig.confidence)
    case F_FREEZE_REASON => item.(freezeReason := orig.freezeReason)
  }

  /** A field is listed exactly when putting it back would change the item. */
  lemma ListedExactly(orig: Item, item: Item, f: Field)
    ensures f in ChangedFields(orig, item) <==> PutBack(f, orig, item) != item
  {
    DifferingMembers(FIELDS, orig, item, f);
    AllFields(f);
  }

  /** What changed from the first original item with the same id, under the id and title it has now. */
  predicate ChangeOf(original: seq<Item>, j: nat, item: Item, c: ItemChange)
    requires j < |original|
  {
    FirstUnder(original, item.id, j) && c == ItemChange(item.id, item.title, ChangedFields(original[j], item))
  }

  /** The summary says of every item with a counterpart what changed, of those that changed, and nothing else. */
  lemma {:induction false} SummaryExactly(original: seq<Item>, items: seq<Item>, c: ItemChange)
    ensures c in Summary(original, items) <==>
              c.fields != [] && exists i: nat, j: nat :: i < |items| && j < |original| && ChangeOf(original, j, items[i], c)
    decreases |items|
  {
    hide ChangedFields, Find, FirstUnder;
    if items != [] {
      var init, last := items[..|items| - 1], items[|items| - 1];
      SummaryExactly(original, init, c);
      LastChange(original, last, c);
      assert items == init + [last];
      forall i: nat, j: nat | i < |init| && j < |original| ensures ChangeOf(original, j, items[i], c) == ChangeOf(original, j, init[i], c) {
        assert items[i] == init[i];
      }
      hide ChangeOf;
    }
  }

  lemma LastChange(original: seq<Item>, item: Item, c: ItemChange)
    ensures (Find(original, item.id).Some? && c == ItemChange(item.id, item.title, ChangedFields(Find(original, item.id).value, item)))
        <==> exists j: nat :: j < |original| && ChangeOf(original, j, item, c)
  {
    hide ChangedFields, Find, FirstUnder;
    FindFirst(original, item.id);
    if Find(original, item.id).Some? {
      var j: nat :| j < |original| && FirstUnder(original, item.id, j) && original[j] == Find(original, item.id).value;
      assert ChangeOf(original, j, item, c) <==> c == ItemChange(item.id, item.title, ChangedFields(original[j], item));
    }
  }

  lemma {:induction false} SummaryInOrder(original: seq<Item>, a: seq<Item>, b: seq<Item>)
    ensures Summary(original, a + b) == Summary(original, a) + Summary(original, b)
    decreases |b|
  {
    hide ChangedFields, Find;
    if b == [] {
      assert a + b == a;
    } else {
      assert (a + b)[..|a + b| - 1] == a + b[..|b| - 1];
      SummaryInOrder(original, a, b[..|b| - 1]);
    }
  }

  /** The summary lists a status change exactly for the items to whose history the save appends. */
  lemma StatusChangeAppends(original: seq<Item>, item: Item, o: Options, now: string)
    ensures SavedItem(original, item, o, now) != item <==>
              Find(original, item.id).Some? && F_STATUS in ChangedFields(Find(original, item.id).value, item)
  {
    if Find(original, item.id).Some? {
      StatusListed(Find(original, item.id).value, item);
    }
    assert SavedItem(original, item, o, now) != item ==> StatusChanged(original, item);
    if StatusChanged(original, item) {
      assert |SavedItem(original, item, o, now).history| == |item.history| + 1;
    }
  }

  lemma StatusListed(orig: Item, item: Item)
    ensures F_STATUS in ChangedFields(orig, item) <==> orig.status != item.status
  {
    DifferingMembers(FIELDS, orig, item, F_STATUS);
    assert FIELDS[0] == F_STATUS;
  }

  /** Equal but for identity, texts, the contents of the evidence, and history. */
  predicate Agrees(orig: Item, item: Item) {
    && |item.evidence| == |orig.evidence|
    && item.(id := orig.id, title := orig.title, categoryId := orig.categoryId, referenceSection := orig.referenceSection,
             requirement := orig.requirement, evidence := orig.evidence, history := orig.history) == orig
  }

  /** An item is left out of the summary exactly when it agrees in everything compared: evidence replaced without
      changing its count is not announced. */
  lemma Unlisted(orig: Item, item: Item)
    ensures ChangedFields(orig, item) == [] <==> Agrees(orig, item)
  {
    hide Differs, Agrees;
    forall f ensures f in ChangedFields(orig, item) <==> Differs(f, orig, item) {
      DifferingMembers(FIELDS, orig, item, f);
      AllFields(f);
    }
    AgreesIff(orig, item);
    if ChangedFields(orig, item) != [] {
      var f := ChangedFields(orig, item)[0];
      assert f in ChangedFields(orig, item);
      assert Differs(f, orig, item);
    }
  }

  lemma AgreesIff(orig: Item, item: Item)
    ensures Agrees(orig, item) <==> forall f :: !Differs(f, orig, item)
  {
    if forall f :: !Differs(f, orig, item) {
      assert !Differs(F_STATUS, orig, item) && !Differs(F_PRIORITY, orig, item) && !Differs(F_NOTES, orig, item);
      assert !Differs(F_OWNER_AREA, orig, item) && !Differs(F_TECHNICAL_AREA, orig, item) && !Differs(F_EVIDENCE, orig, item);
      assert !Differs(F_BLOCKING_ISSUES, orig, item) && !Differs(F_ACCEPTANCE_CRITERIA, orig, item);
      assert !Differs(F_VALIDATION_METHODS, orig, item) && !Differs(F_INVARIANTS, orig, item) && !Differs(F_REQUIRES, orig, item);
      assert !Differs(F_VALIDATION_DOMAIN, orig, item) && !Differs(F_CONFIDENCE, orig, item) && !Differs(F_FREEZE_REASON, orig, item);
    }
  }

  lemma AllFields(f: Field)
    ensures f in FIELDS
  {
    assert FIELDS[0] == F_STATUS && FIELDS[1] == F_PRIORITY && FIELDS[2] == F_NOTES && FIELDS[3] == F_OWNER_AREA;
    assert FIELDS[4] == F_TECHNICAL_AREA && FIELDS[5] == F_EVIDENCE && FIELDS[6] == F_BLOCKING_ISSUES && FIELDS[7] == F_ACCEPTANCE_CRITERIA;
    assert FIELDS[8] == F_VALIDATION_METHODS && FIELDS[9] == F_INVARIANTS && FIELDS[10] == F_REQUIRES && FIELDS[11] == F_VALIDATION_DOMAIN;
    assert FIELDS[12] == F_CONFIDENCE && FIELDS[13] == F_FREEZE_REASON;
  }
}

/** The governance check of the validation matrix: what it reports, and what a matrix without errors is. */
module MatrixGovernance {
  import opened WhiteSpace
  import opened Wrappers

  datatype Status = VALIDATED | IMPLEMENTED | IN_PROGRESS | PLANNED | FUTURE | BLOCKED | NEEDS_REVIEW | REVALIDATION_REQUIRED | RETIRED

  datatype Priority = CRITICAL | HIGH | MEDIUM | LOW

  datatype InvariantStatus = PASS | FAIL | UNKNOWN | NOT_RUN

  datatype Evidence = Evidence(caption: string, ref: string)

  datatype Check = Check(name: string, status: InvariantStatus)

  datatype History = History(timestamp: string, was: Status, became: Status, approvedBy: string, fingerprint: string, reason: string,
                             evidence: seq<string>)

  /** An item of the matrix; a missing optional field is the empty one. */
  datatype Item = Item(
    id: string, title: string, categoryId: string, validationDomain: string, referenceSection: string, requirement: string,
    status: Status, priority: Priority, ownerArea: string, technicalArea: string, notes: string,
    validationMethods: seq<string>, acceptanceCriteria: seq<string>, evidence: seq<Evidence>, required: seq<string>,
    blockingIssues: seq<string>, invariants: seq<Check>, confidence: int, freezeReason: string, history: seq<History>)

  datatype Matrix = Matrix(lastUpdated: string, categories: seq<string>, items: seq<Item>)

  datatype Rule =
    | EMPTY_TITLE | EMPTY_REQUIREMENT | EMPTY_REFERENCE | MISSING_DOMAIN | VALIDATED_NO_EVIDENCE | VALIDATED_LOW_CONFIDENCE
    | CONFIDENCE_DRIFT | IMPLEMENTED_NO_EVIDENCE | BLOCKED_NO_REASON | REVALIDATION_NO_REASON | CRITICAL_NO_CRITERIA
    | EVIDENCE_INCOMPLETE | FINANCIAL_NO_INVARIANTS | INVARIANT_NOT_PASS(name: string)
    | REQUIRES_MISSING(missing: string) | REQUIRES_NOT_VALIDATED(other: string) | DUPLICATE_ID | INVALID_CATEGORY

  datatype Issue = Issue(itemId: string, isError: bool, rule: Rule)

  const THRESHOLD: int := 80
  const FINANCIAL: set<string> := {"cat-ledger", "cat-wallet", "cat-p2p", "cat-qr", "cat-payouts", "cat-refunds"}

  predicate HasErrors(issues: seq<Issue>) {
    exists i :: 0 <= i < |issues| && issues[i].isError
  }

  // ---------------------------------------------------------------- one item

  /** The advisory estimate from methods, evidence and invariants. */
  function Estimate(item: Item): int {
    (if item.evidence != [] then 20 else 0) +
    (if "unit_tests" in item.validationMethods then 15 else 0) +
    (if "integration_tests" in item.validationMethods then 20 else 0) +
    (if "e2e_tests" in item.validationMethods || "manual_ux" in item.validationMethods then 15 else 0) +
    (if "production_review" in item.validationMethods || "sandbox" in item.validationMethods then 10 else 0) +
    (if item.categoryId !in FINANCIAL || (item.invariants != [] && AllPass(item.invariants)) then 20 else 0)
  }

  predicate AllPass(checks: seq<Check>) {
    forall i :: 0 <= i < |checks| ==> checks[i].status == PASS
  }

  /** Financial invariants are looked at for these items only. */
  predicate NeedsInvariants(item: Item) {
    item.categoryId in FINANCIAL && (item.status == VALIDATED || item.status == REVALIDATION_REQUIRED)
  }

  /** What makes one item an error, apart from the items it requires. */
  predicate Sound(item: Item) {
    && !Blank(item.title) && !Blank(item.requirement) && !Blank(item.referenceSection) && !Blank(item.validationDomain)
    && (item.status == VALIDATED ==> item.evidence != [] && item.confidence >= THRESHOLD)
    && (item.status == BLOCKED ==> item.blockingIssues != [])
    && (NeedsInvariants(item) ==> item.invariants != [] && AllPass(item.invariants))
  }

  /** An issue when the condition holds. */
  function When(cond: bool, item: Item, isError: bool, rule: Rule): seq<Issue> {
    if cond then [Issue(item.id, isError, rule)] else []
  }

  /** The required texts, in order. */
  function TextIssues(item: Item): seq<Issue> {
    When(Blank(item.title), item, true, EMPTY_TITLE) +
    When(Blank(item.requirement), item, true, EMPTY_REQUIREMENT) +
    When(Blank(item.referenceSection), item, true, EMPTY_REFERENCE) +
    When(Blank(item.validationDomain), item, true, MISSING_DOMAIN)
  }

  /** What a status asks for. */
  function StatusIssues(item: Item): seq<Issue> {
    When(item.status == VALIDATED && item.evidence == [], item, true, VALIDATED_NO_EVIDENCE) +
    When(item.status == VALIDATED && item.confidence < THRESHOLD, item, true, VALIDATED_LOW_CONFIDENCE) +
    When(item.status == VALIDATED && item.confidence >= THRESHOLD > Estimate(item), item, false, CONFIDENCE_DRIFT) +
    When(item.status == IMPLEMENTED && item.evidence == [], item, false, IMPLEMENTED_NO_EVIDENCE) +
    When(item.status == BLOCKED && item.blockingIssues == [], item, true, BLOCKED_NO_REASON)
  }

  /** Advice: never an error. */
  function AdviceIssues(item: Item): seq<Issue> {
    When(item.status == REVALIDATION_REQUIRED && Blank(item.freezeReason), item, false, REVALIDATION_NO_REASON) +
    When(item.priority == CRITICAL && item.acceptanceCriteria == [], item, false, CRITICAL_NO_CRITERIA) +
    When(exists i :: 0 <= i < |item.evidence| && Incomplete(item.evidence[i]), item, false, EVIDENCE_INCOMPLETE)
  }

  /** The checks on one item's own fields, in order. */
  function FieldIssues(item: Item): seq<Issue> {
    TextIssues(item) + StatusIssues(item) + AdviceIssues(item)
  }

  predicate Incomplete(e: Evidence) {
    Blank(e.caption) || Blank(e.ref)
  }

  lemma ErrorsAppend(a: seq<Issue>, b: seq<Issue>)
    ensures HasErrors(a + b) <==> HasErrors(a) || HasErrors(b)
  {
    if HasErrors(a) {
      var i :| 0 <= i < |a| && a[i].isError;
      assert (a + b)[i].isError;
    }
    if HasErrors(b) {
      var i :| 0 <= i < |b| && b[i].isError;
      assert (a + b)[|a| + i].isError;
    }
  }

  lemma WhenErrors(cond: bool, item: Item, isError: bool, rule: Rule)
    ensures HasErrors(When(cond, item, isError, rule)) <==> cond && isError
  {
    if cond && isError {
      assert When(cond, item, isError, rule)[0].isError;
    }
  }

  function NotPassing(item: Item, checks: seq<Check>): seq<Issue> {
    if checks == [] then []
    else
      var last := checks[|checks| - 1];
      NotPassing(item, checks[..|checks| - 1]) + When(last.status != PASS, item, true, INVARIANT_NOT_PASS(last.name))
  }

  function InvariantIssues(item: Item): seq<Issue> {
    if !NeedsInvariants(item) then []
    else if item.invariants == [] then [Issue(item.id, true, FINANCIAL_NO_INVARIANTS)]
    else NotPassing(item, item.invariants)
  }

  method CheckInvariants(item: Item) returns (issues: seq<Issue>)
    ensures issues == InvariantIssues(item)
  {
    issues := [];
    if !NeedsInvariants(item) {
      return;
    }
    if item.invariants == [] {
      issues := [Issue(item.id, true, FINANCIAL_NO_INVARIANTS)];
      return;
    }
    for i := 0 to |item.invariants|
      invariant issues == NotPassing(item, item.invariants[..i])
    {
      var inv := item.invariants[i];
      assert item.invariants[..i + 1][..i] == item.invariants[..i];
      if inv.status != PASS {
        issues := issues + [Issue(item.id, true, INVARIANT_NOT_PASS(inv.name))];
      }
    }
    assert item.invariants[..|item.invariants|] == item.invariants;
  }

  /** Adds an issue when the condition holds. */
  method PushIf(issues0: seq<Issue>, cond: bool, item: Item, isError: bool, rule: Rule) returns (issues: seq<Issue>)
    ensures issues == issues0 + When(cond, item, isError, rule)
  {
    issues := issues0;
    if cond {
      issues := issues + [Issue(item.id, isError, rule)];
    }
  }

  method AnyIncomplete(evidence: seq<Evidence>) returns (found: bool)
    ensures found <==> exists i :: 0 <= i < |evidence| && Incomplete(evidence[i])
  {
    for i := 0 to |evidence|
      invariant forall j :: 0 <= j < i ==> !Incomplete(evidence[j])
    {
      if Incomplete(evidence[i]) {
        return true;
      }
    }
    return false;
  }

  method CheckTexts(item: Item) returns (issues: seq<Issue>)
    ensures issues == TextIssues(item)
  {
    hide Blank, When;
    issues := PushIf([], Blank(item.title), item, true, EMPTY_TITLE);
    assert [] + When(Blank(item.title), item, true, EMPTY_TITLE) == When(Blank(item.title), item, true, EMPTY_TITLE);
    issues := PushIf(issues, Blank(item.requirement), item, true, EMPTY_REQUIREMENT);
    issues := PushIf(issues, Blank(item.referenceSection), item, true, EMPTY_REFERENCE);
    issues := PushIf(issues, Blank(item.validationDomain), item, true, MISSING_DOMAIN);
  }

  method CheckStatus(item: Item) returns (issues: seq<Issue>)
    ensures issues == StatusIssues(item)
  {
    hide Estimate, When;
    var validated := item.status == VALIDATED;
    issues := PushIf([], validated && item.evidence == [], item, true, VALIDATED_NO_EVIDENCE);
    assert [] + issues == issues;
    issues := PushIf(issues, validated && item.confidence < THRESHOLD, item, true, VALIDATED_LOW_CONFIDENCE);
    issues := PushIf(issues, validated && item.confidence >= THRESHOLD > Estimate(item), item, false, CONFIDENCE_DRIFT);
    issues := PushIf(issues, item.status == IMPLEMENTED && item.evidence == [], item, false, IMPLEMENTED_NO_EVIDENCE);
    issues := PushIf(issues, item.status == BLOCKED && item.blockingIssues == [], item, true, BLOCKED_NO_REASON);
  }

  method CheckAdvice(item: Item) returns (issues: seq<Issue>)
    ensures issues == AdviceIssues(item)
  {
    hide Blank, When, Incomplete;
    issues := PushIf([], item.status == REVALIDATION_REQUIRED && Blank(item.freezeReason), item, false, REVALIDATION_NO_REASON);
    assert [] + issues == issues;
    issues := PushIf(issues, item.priority == CRITICAL && item.acceptanceCriteria == [], item, false, CRITICAL_NO_CRITERIA);
    var incomplete := AnyIncomplete(item.evidence);
    issues := PushIf(issues, incomplete, item, false, EVIDENCE_INCOMPLETE);
  }

  method CheckItem(item: Item) returns (issues: seq<Issue>)
    ensures issues == FieldIssues(item) + InvariantIssues(item)
  {
    hide InvariantIssues, TextIssues, StatusIssues, AdviceIssues;
    var texts := CheckTexts(item);
    var status := CheckStatus(item);
    var advice := CheckAdvice(item);
    var checks := CheckInvariants(item);
    return texts + status + advice + checks;
  }

  lemma {:induction false} NotPassingErrors(item: Item, checks: seq<Check>)
    ensures HasErrors(NotPassing(item, checks)) <==> !AllPass(checks)
    decreases |checks|
  {
    if checks != [] {
      var init, last := checks[..|checks| - 1], checks[|checks| - 1];
      NotPassingErrors(item, init);
      ErrorsAppend(NotPassing(item, init), When(last.status != PASS, item, true, INVARIANT_NOT_PASS(last.name)));
      WhenErrors(last.status != PASS, item, true, INVARIANT_NOT_PASS(last.name));
      assert checks == init + [last];
    }
  }

  lemma InvariantErrors(item: Item)
    ensures HasErrors(InvariantIssues(item)) <==> NeedsInvariants(item) && (item.invariants == [] || !AllPass(item.invariants))
  {
    NotPassingErrors(item, item.invariants);
    if NeedsInvariants(item) && item.invariants == [] {
      assert InvariantIssues(item)[0].isError;
    }
  }

  lemma TextErrors(item: Item)
    ensures HasErrors(TextIssues(item)) <==>
              Blank(item.title) || Blank(item.requirement) || Blank(item.referenceSection) || Blank(item.validationDomain)
  {
    hide When, HasErrors, Blank;
    var p1 := When(Blank(item.title), item, true, EMPTY_TITLE);
    var p2 := p1 + When(Blank(item.requirement), item, true, EMPTY_REQUIREMENT);
    var p3 := p2 + When(Blank(item.referenceSection), item, true, EMPTY_REFERENCE);
    WhenErrors(Blank(item.title), item, true, EMPTY_TITLE);
    OneMoreIssue(p1, Blank(item.requirement), item, true, EMPTY_REQUIREMENT);
    OneMoreIssue(p2, Blank(item.referenceSection), item, true, EMPTY_REFERENCE);
    OneMoreIssue(p3, Blank(item.validationDomain), item, true, MISSING_DOMAIN);
  }

  lemma StatusErrors(item: Item)
    ensures HasErrors(StatusIssues(item)) <==>
              || (item.status == VALIDATED && (item.evidence == [] || item.confidence < THRESHOLD))
              || (item.status == BLOCKED && item.blockingIssues == [])
  {
    hide When, HasErrors, Estimate;
    var validated := item.status == VALIDATED;
    var p1 := When(validated && item.evidence == [], item, true, VALIDATED_NO_EVIDENCE);
    var p2 := p1 + When(validated && item.confidence < THRESHOLD, item, true, VALIDATED_LOW_CONFIDENCE);
    var p3 := p2 + When(validated && item.confidence >= THRESHOLD > Estimate(item), item, false, CONFIDENCE_DRIFT);
    var p4 := p3 + When(item.status == IMPLEMENTED && item.evidence == [], item, false, IMPLEMENTED_NO_EVIDENCE);
    WhenErrors(validated && item.evidence == [], item, true, VALIDATED_NO_EVIDENCE);
    OneMoreIssue(p1, validated && item.confidence < THRESHOLD, item, true, VALIDATED_LOW_CONFIDENCE);
    OneMoreIssue(p2, validated && item.confidence >= THRESHOLD > Estimate(item), item, false, CONFIDENCE_DRIFT);
    OneMoreIssue(p3, item.status == IMPLEMENTED && item.evidence == [], item, false, IMPLEMENTED_NO_EVIDENCE);
    OneMoreIssue(p4, item.status == BLOCKED && item.blockingIssues == [], item, true, BLOCKED_NO_REASON);
  }

  lemma NoAdviceErrors(item: Item)
    ensures !HasErrors(AdviceIssues(item))
  {
  }

  lemma OneMoreIssue(issues: seq<Issue>, cond: bool, item: Item, isError: bool, rule: Rule)
    ensures HasErrors(issues + When(cond, item, isError, rule)) <==> HasErrors(issues) || (cond && isError)
  {
    ErrorsAppend(issues, When(cond, item, isError, rule));
    WhenErrors(cond, item, isError, rule);
  }

  /** The item check reports an error exactly for the items that are not sound. */
  lemma ItemErrors(item: Item)
    ensures HasErrors(FieldIssues(item) + InvariantIssues(item)) <==> !Sound(item)
  {
    hide HasErrors, TextIssues, StatusIssues, AdviceIssues, InvariantIssues, Blank, AllPass;
    ErrorsAppend(TextIssues(item), StatusIssues(item));
    ErrorsAppend(TextIssues(item) + StatusIssues(item), AdviceIssues(item));
    ErrorsAppend(FieldIssues(item), InvariantIssues(item));
    TextErrors(item);
    StatusErrors(item);
    NoAdviceErrors(item);
    InvariantErrors(item);
  }

  // ---------------------------------------------------------------- required items

  /** The item found under an id: the last one, as a map built from the list has it. */
  function Lookup(items: seq<Item>, id: string): (r: Option<Item>)
    ensures r == None <==> forall i :: 0 <= i < |items| ==> items[i].id != id
    ensures r.Some? ==> r.value in items && r.value.id == id
  {
    if items == [] then None
    else if items[|items| - 1].id == id then Some(items[|items| - 1])
    else Lookup(items[..|items| - 1], id)
  }

  /** The map of the items by id; later items replace earlier ones. */
  method ItemIndex(items: seq<Item>) returns (index: map<string, Item>)
    ensures forall id :: id in index <==> Lookup(items, id).Some?
    ensures forall id :: id in index ==> index[id] == Lookup(items, id).value
  {
    index := map[];
    for i := 0 to |items|
      invariant forall id :: id in index <==> Lookup(items[..i], id).Some?
      invariant forall id :: id in index ==> index[id] == Lookup(items[..i], id).value
    {
      assert items[..i + 1][..i] == items[..i];
      index := index[items[i].id := items[i]];
    }
    assert items[..|items|] == items;
  }

  function RequiredIssues(item: Item, required: seq<string>, all: seq<Item>): seq<Issue> {
    if required == [] then []
    else
      var id := required[|required| - 1];
      var other := Lookup(all, id);
      RequiredIssues(item, required[..|required| - 1], all) +
      (if other == None then [Issue(item.id, true, REQUIRES_MISSING(id))]
       else When(other.value.status != VALIDATED, item, true, REQUIRES_NOT_VALIDATED(id)))
  }

  function RequiresIssues(item: Item, all: seq<Item>): seq<Issue> {
    if item.status != VALIDATED then [] else RequiredIssues(item, item.required, all)
  }

  method CheckRequires(item: Item, all: seq<Item>) returns (issues: seq<Issue>)
    ensures issues == RequiresIssues(item, all)
  {
    issues := [];
    if item.status != VALIDATED || item.required == [] {
      return;
    }
    var index := ItemIndex(all);
    for i := 0 to |item.required|
      invariant issues == RequiredIssues(item, item.required[..i], all)
    {
      var id := item.required[i];
      assert item.required[..i + 1][..i] == item.required[..i];
      if id !in index {
        issues := issues + [Issue(item.id, true, REQUIRES_MISSING(id))];
      } else if index[id].status != VALIDATED {
        issues := issues + [Issue(item.id, true, REQUIRES_NOT_VALIDATED(id))];
      }
    }
    assert item.required[..|item.required|] == item.required;
  }

  predicate Met(id: string, all: seq<Item>) {
    Lookup(all, id).Some? && Lookup(all, id).value.status == VALIDATED
  }

  lemma {:induction false} RequiredErrors(item: Item, required: seq<string>, all: seq<Item>)
    ensures HasErrors(RequiredIssues(item, required, all)) <==> exists i :: 0 <= i < |required| && !Met(required[i], all)
    decreases |required|
  {
    hide HasErrors, When;
    if required == [] {
      NoErrors();
    } else {
      var init, id := required[..|required| - 1], required[|required| - 1];
      RequiredErrors(item, init, all);
      var other := Lookup(all, id);
      var last := if other == None then [Issue(item.id, true, REQUIRES_MISSING(id))]
                  else When(other.value.status != VALIDATED, item, true, REQUIRES_NOT_VALIDATED(id));
      ErrorsAppend(RequiredIssues(item, init, all), last);
      if other == None {
        OneError(last[0]);
      } else {
        WhenErrors(other.value.status != VALIDATED, item, true, REQUIRES_NOT_VALIDATED(id));
      }
      assert HasErrors(last) <==> !Met(id, all);
      assert forall i :: 0 <= i < |init| ==> init[i] == required[i];
    }
  }

  lemma NoErrors()
    ensures !HasErrors([])
  {
  }

  lemma OneError(issue: Issue)
    ensures HasErrors([issue]) <==> issue.isError
  {
    if issue.isError {
      assert [issue][0].isError;
    }
  }

  /** What stands between an item and VALIDATED: its required items that exist and are not VALIDATED, in order. */
  function Blockers(required: seq<string>, all: seq<Item>): seq<Item> {
    if required == [] then []
    else
      var other := Lookup(all, required[|required| - 1]);
      Blockers(required[..|required| - 1], all) + if other.Some? && other.value.status != VALIDATED then [other.value] else []
  }

  method GetRequiresBlockers(item: Item, all: seq<Item>) returns (blockers: seq<Item>)
    ensures blockers == Blockers(item.required, all)
  {
    blockers := [];
    if item.required == [] {
      return;
    }
    var index := ItemIndex(all);
    for i := 0 to |item.required|
      invariant blockers == Blockers(item.required[..i], all)
    {
      var id := item.required[i];
      assert item.required[..i + 1][..i] == item.required[..i];
      if id in index && index[id].status != VALIDATED {
        blockers := blockers + [index[id]];
      }
    }
    assert item.required[..|item.required|] == item.required;
  }

  /** The lock shown to the operator and the check made on saving agree: no blocker and nothing missing, no error. */
  lemma BlockersDecide(item: Item, required: seq<string>, all: seq<Item>)
    ensures !HasErrors(RequiredIssues(item, required, all)) <==>
              Blockers(required, all) == [] && forall i :: 0 <= i < |required| ==> Lookup(all, required[i]).Some?
  {
    hide HasErrors, RequiredIssues, Blockers, Lookup;
    RequiredErrors(item, required, all);
    NoBlockers(required, all);
  }

  lemma {:induction false} NoBlockers(required: seq<string>, all: seq<Item>)
    ensures Blockers(required, all) == [] <==>
              forall i :: 0 <= i < |required| ==> (Lookup(all, required[i]).Some? ==> Met(required[i], all))
    decreases |required|
  {
    hide Lookup;
    if required != [] {
      var init := required[..|required| - 1];
      NoBlockers(init, all);
      assert required == init + [required[|required| - 1]];
    }
  }

  // ---------------------------------------------------------------- the whole matrix

  /** The issues of the i-th item in its matrix. */
  function IssuesAt(m: Matrix, i: nat): seq<Issue>
    requires i < |m.items|
  {
    var item := m.items[i];
    When(exists j :: 0 <= j < i && m.items[j].id == item.id, item, true, DUPLICATE_ID) +
    When(item.categoryId !in m.categories, item, true, INVALID_CATEGORY) +
    (FieldIssues(item) + InvariantIssues(item)) + RequiresIssues(item, m.items)
  }

  function IssuesUpTo(m: Matrix, n: nat): seq<Issue>
    requires n <= |m.items|
  {
    if n == 0 then [] else IssuesUpTo(m, n - 1) + IssuesAt(m, n - 1)
  }

  method CheckMatrix(m: Matrix) returns (issues: seq<Issue>)
    ensures issues == IssuesUpTo(m, |m.items|)
    ensures forall issue :: issue in issues <==> Reported(m, issue.itemId, issue.isError, issue.rule)
  {
    hide FieldIssues, InvariantIssues, RequiresIssues, When, IssuesAt, Warranted;
    RulesExactly(m, |m.items|);
    issues := [];
    var seenIds: set<string> := {};
    for i := 0 to |m.items|
      invariant issues == IssuesUpTo(m, i)
      invariant forall id :: id in seenIds <==> exists j :: 0 <= j < i && m.items[j].id == id
    {
      var item := m.items[i];
      ghost var before := issues;
      var twice := item.id in seenIds;
      issues := PushIf(issues, twice, item, true, DUPLICATE_ID);
      seenIds := seenIds + {item.id};
      issues := PushIf(issues, item.categoryId !in m.categories, item, true, INVALID_CATEGORY);
      var own := CheckItem(item);
      var required := CheckRequires(item, m.items);
      issues := issues + own + required;
      IssuesAtIs(m, i, twice, own, required);
      assert issues == before + IssuesAt(m, i);
    }
  }

  lemma IssuesAtIs(m: Matrix, i: nat, twice: bool, own: seq<Issue>, required: seq<Issue>)
    requires i < |m.items| && (twice <==> exists j :: 0 <= j < i && m.items[j].id == m.items[i].id)
    requires own == FieldIssues(m.items[i]) + InvariantIssues(m.items[i]) && required == RequiresIssues(m.items[i], m.items)
    ensures IssuesAt(m, i) == When(twice, m.items[i], true, DUPLICATE_ID) +
                              When(m.items[i].categoryId !in m.categories, m.items[i], true, INVALID_CATEGORY) + own + required
  {
  }

  /** A matrix without errors. */
  ghost predicate Governed(m: Matrix) {
    && (forall i, j :: 0 <= i < j < |m.items| ==> m.items[i].id != m.items[j].id)
    && (forall i :: 0 <= i < |m.items| ==> m.items[i].categoryId in m.categories && Sound(m.items[i]))
    && (forall i, k :: 0 <= i < |m.items| && m.items[i].status == VALIDATED && 0 <= k < |m.items[i].required| ==>
          Met(m.items[i].required[k], m.items))
  }

  /** The i-th item by itself, against the items before it. */
  ghost predicate GovernedAt(m: Matrix, i: nat)
    requires i < |m.items|
  {
    var item := m.items[i];
    && (forall j :: 0 <= j < i ==> m.items[j].id != item.id)
    && item.categoryId in m.categories && Sound(item)
    && (item.status == VALIDATED ==> forall k :: 0 <= k < |item.required| ==> Met(item.required[k], m.items))
  }

  lemma ErrorsAt(m: Matrix, i: nat)
    requires i < |m.items|
    ensures HasErrors(IssuesAt(m, i)) <==> !GovernedAt(m, i)
  {
    hide HasErrors, When, FieldIssues, InvariantIssues, Sound, Met, RequiredIssues;
    var item := m.items[i];
    var twice := exists j :: 0 <= j < i && m.items[j].id == item.id;
    var a := When(twice, item, true, DUPLICATE_ID);
    WhenErrors(twice, item, true, DUPLICATE_ID);
    OneMoreIssue(a, item.categoryId !in m.categories, item, true, INVALID_CATEGORY);
    var b := a + When(item.categoryId !in m.categories, item, true, INVALID_CATEGORY);
    ErrorsAppend(b, FieldIssues(item) + InvariantIssues(item));
    ItemErrors(item);
    ErrorsAppend(b + (FieldIssues(item) + InvariantIssues(item)), RequiresIssues(item, m.items));
    RequiredErrors(item, item.required, m.items);
    NoErrors();
  }

  lemma {:induction false} ErrorsUpTo(m: Matrix, n: nat)
    requires n <= |m.items|
    ensures !HasErrors(IssuesUpTo(m, n)) <==> forall i :: 0 <= i < n ==> GovernedAt(m, i)
  {
    hide HasErrors, IssuesAt, GovernedAt;
    if n == 0 {
      NoErrors();
    } else {
      ErrorsUpTo(m, n - 1);
      ErrorsAppend(IssuesUpTo(m, n - 1), IssuesAt(m, n - 1));
      ErrorsAt(m, n - 1);
    }
  }

  /** The check passes exactly the governed matrices. */
  lemma ChecksExactly(m: Matrix)
    ensures !HasErrors(IssuesUpTo(m, |m.items|)) <==> Governed(m)
  {
    hide HasErrors, IssuesUpTo, Sound, Met;
    ErrorsUpTo(m, |m.items|);
    if Governed(m) {
      forall i | 0 <= i < |m.items| ensures GovernedAt(m, i) {
      }
    }
    if forall i :: 0 <= i < |m.items| ==> GovernedAt(m, i) {
      forall i, j | 0 <= i < j < |m.items| ensures m.items[i].id != m.items[j].id {
        assert GovernedAt(m, j);
      }
      forall i, k | 0 <= i < |m.items| && m.items[i].status == VALIDATED && 0 <= k < |m.items[i].required|
        ensures Met(m.items[i].required[k], m.items)
      {
        assert GovernedAt(m, i);
      }
      forall i | 0 <= i < |m.items| ensures m.items[i].categoryId in m.categories && Sound(m.items[i]) {
        assert GovernedAt(m, i);
      }
    }
  }

  // ---------------------------------------------------------------- which rule is reported for what

  predicate Is(item: Item, status: Status) {
    item.status == status
  }

  predicate HasMethod(item: Item, one: string, other: string) {
    one in item.validationMethods || other in item.validationMethods
  }

  predicate IsFinancial(categoryId: string) {
    || categoryId == "cat-ledger" || categoryId == "cat-wallet" || categoryId == "cat-p2p"
    || categoryId == "cat-qr" || categoryId == "cat-payouts" || categoryId == "cat-refunds"
  }

  /** The invariants stand in the way of full confidence. */
  predicate InvariantsLack(item: Item) {
    IsFinancial(item.categoryId) && (item.invariants == [] || exists k :: 0 <= k < |item.invariants| && item.invariants[k].status != PASS)
  }

  /** How many of the six sources of confidence an item lacks. */
  function Lacking(item: Item): nat {
    (if item.evidence == [] then 1 else 0) +
    (if "unit_tests" in item.validationMethods then 0 else 1) +
    (if "integration_tests" in item.validationMethods then 0 else 1) +
    (if HasMethod(item, "manual_ux", "e2e_tests") then 0 else 1) +
    (if HasMethod(item, "sandbox", "production_review") then 0 else 1) +
    (if InvariantsLack(item) then 1 else 0)
  }

  /** Each source adds its weight: a full score is 100, and any two sources missing make it fall below 80. */
  lemma EstimateIs(item: Item)
    ensures Estimate(item) == 100 - (if item.evidence == [] then 20 else 0)
                                  - (if "unit_tests" in item.validationMethods then 0 else 15)
                                  - (if "integration_tests" in item.validationMethods then 0 else 20)
                                  - (if HasMethod(item, "manual_ux", "e2e_tests") then 0 else 15)
                                  - (if HasMethod(item, "sandbox", "production_review") then 0 else 10)
                                  - (if InvariantsLack(item) then 20 else 0)
    ensures Estimate(item) < 80 <==> Lacking(item) >= 2
  {
    FinancialIs(item.categoryId);
  }

  lemma FinancialIs(categoryId: string)
    ensures categoryId in FINANCIAL <==> IsFinancial(categoryId)
  {
  }

  /** Item j is the last one under an id. */
  predicate LastUnder(items: seq<Item>, id: string, j: nat)
    requires j < |items|
  {
    items[j].id == id && forall l :: j < l < |items| ==> items[l].id != id
  }

  /** The last item under an id is not VALIDATED. */
  predicate LastNotValidated(items: seq<Item>, id: string) {
    exists j: nat :: j < |items| && LastUnder(items, id, j) && !Is(items[j], VALIDATED)
  }

  /** The item's own fields give rise to the rule, at this severity. */
  predicate ItemWarrants(item: Item, isError: bool, rule: Rule) {
    match rule
    case EMPTY_TITLE => isError && Blank(item.title)
    case EMPTY_REQUIREMENT => isError && Blank(item.requirement)
    case EMPTY_REFERENCE => isError && Blank(item.referenceSection)
    case MISSING_DOMAIN => isError && Blank(item.validationDomain)
    case VALIDATED_NO_EVIDENCE => isError && Is(item, VALIDATED) && |item.evidence| == 0
    case VALIDATED_LOW_CONFIDENCE => isError && Is(item, VALIDATED) && item.confidence < 80
    case CONFIDENCE_DRIFT => !isError && Is(item, VALIDATED) && item.confidence >= 80 && Lacking(item) >= 2
    case IMPLEMENTED_NO_EVIDENCE => !isError && Is(item, IMPLEMENTED) && |item.evidence| == 0
    case BLOCKED_NO_REASON => isError && Is(item, BLOCKED) && |item.blockingIssues| == 0
    case REVALIDATION_NO_REASON => !isError && Is(item, REVALIDATION_REQUIRED) && Blank(item.freezeReason)
    case CRITICAL_NO_CRITERIA => !isError && item.priority == CRITICAL && |item.acceptanceCriteria| == 0
    case EVIDENCE_INCOMPLETE => !isError && exists e :: e in item.evidence && (Blank(e.ref) || Blank(e.caption))
    case FINANCIAL_NO_INVARIANTS => isError && Accountable(item) && |item.invariants| == 0
    case INVARIANT_NOT_PASS(name) => isError && Accountable(item) && exists c :: c in item.invariants && c.name == name && c.status != PASS
    case _ => false
  }

  predicate Accountable(item: Item) {
    IsFinancial(item.categoryId) && (Is(item, VALIDATED) || Is(item, REVALIDATION_REQUIRED))
  }

  /** The rule for a required id that is missing, or whose item is not VALIDATED. */
  predicate RequiredRule(required: seq<string>, all: seq<Item>, rule: Rule) {
    match rule
    case REQUIRES_MISSING(id) => id in required && forall j :: 0 <= j < |all| ==> all[j].id != id
    case REQUIRES_NOT_VALIDATED(id) => id in required && LastNotValidated(all, id)
    case _ => false
  }

  /** What a VALIDATED item requires gives rise to the rule. */
  predicate RequiringWarrants(item: Item, all: seq<Item>, isError: bool, rule: Rule) {
    isError && Is(item, VALIDATED) && RequiredRule(item.required, all, rule)
  }

  /** The i-th item gives rise to the rule, at this severity. */
  predicate Warranted(m: Matrix, i: nat, isError: bool, rule: Rule)
    requires i < |m.items|
  {
    || ItemWarrants(m.items[i], isError, rule)
    || RequiringWarrants(m.items[i], m.items, isError, rule)
    || (isError && rule == DUPLICATE_ID && exists j :: 0 <= j < i && m.items[j].id == m.items[i].id)
    || (isError && rule == INVALID_CATEGORY && m.items[i].categoryId !in m.categories)
  }

  /** Some item of that id among the first n gives rise to the rule. */
  predicate ReportedUpTo(m: Matrix, n: nat, id: string, isError: bool, rule: Rule)
    requires n <= |m.items|
  {
    exists i :: 0 <= i < n && m.items[i].id == id && Warranted(m, i, isError, rule)
  }

  predicate Reported(m: Matrix, id: string, isError: bool, rule: Rule) {
    ReportedUpTo(m, |m.items|, id, isError, rule)
  }

  /** The place of a rule in the list of an item's issues. */
  function Rank(rule: Rule): nat {
    match rule
    case DUPLICATE_ID => 0
    case INVALID_CATEGORY => 1
    case EMPTY_TITLE => 2
    case EMPTY_REQUIREMENT => 3
    case EMPTY_REFERENCE => 4
    case MISSING_DOMAIN => 5
    case VALIDATED_NO_EVIDENCE => 6
    case VALIDATED_LOW_CONFIDENCE => 7
    case CONFIDENCE_DRIFT => 8
    case IMPLEMENTED_NO_EVIDENCE => 9
    case BLOCKED_NO_REASON => 10
    case REVALIDATION_NO_REASON => 11
    case CRITICAL_NO_CRITERIA => 12
    case EVIDENCE_INCOMPLETE => 13
    case FINANCIAL_NO_INVARIANTS => 14
    case INVARIANT_NOT_PASS(_) => 15
    case REQUIRES_MISSING(_) => 16
    case REQUIRES_NOT_VALIDATED(_) => 16
  }

  /** The issues are about rules of ranks from lo up to, not including, hi, in order. */
  predicate Ranked(issues: seq<Issue>, lo: nat, hi: nat) {
    && (forall a :: 0 <= a < |issues| ==> lo <= Rank(issues[a].rule) < hi)
    && forall a, b :: 0 <= a < b < |issues| ==> Rank(issues[a].rule) <= Rank(issues[b].rule)
  }

  lemma RankedAppend(a: seq<Issue>, b: seq<Issue>, lo: nat, mid: nat, hi: nat)
    requires Ranked(a, lo, mid) && Ranked(b, mid, hi) && lo <= mid <= hi
    ensures Ranked(a + b, lo, hi)
  {
    hide Rank;
  }

  /** One issue when the condition holds, of one rank: the way such a part of the list is read. */
  lemma OnePart(cond: bool, item: Item, isError: bool, rule: Rule)
    ensures Ranked(When(cond, item, isError, rule), Rank(rule), Rank(rule) + 1)
    ensures forall issue :: issue in When(cond, item, isError, rule) <==> cond && issue == Issue(item.id, isError, rule)
  {
    hide Rank;
  }

  lemma TextIn(item: Item)
    ensures Ranked(TextIssues(item), 2, 6)
    ensures forall issue :: issue in TextIssues(item) <==>
              issue.itemId == item.id && 2 <= Rank(issue.rule) < 6 && ItemWarrants(item, issue.isError, issue.rule)
  {
    hide Blank, When, Ranked;
    var p1, p2 := When(Blank(item.title), item, true, EMPTY_TITLE), When(Blank(item.requirement), item, true, EMPTY_REQUIREMENT);
    var p3, p4 := When(Blank(item.referenceSection), item, true, EMPTY_REFERENCE), When(Blank(item.validationDomain), item, true, MISSING_DOMAIN);
    OnePart(Blank(item.title), item, true, EMPTY_TITLE);
    OnePart(Blank(item.requirement), item, true, EMPTY_REQUIREMENT);
    OnePart(Blank(item.referenceSection), item, true, EMPTY_REFERENCE);
    OnePart(Blank(item.validationDomain), item, true, MISSING_DOMAIN);
    RankedAppend(p1, p2, 2, 3, 4);
    RankedAppend(p1 + p2, p3, 2, 4, 5);
    RankedAppend(p1 + p2 + p3, p4, 2, 5, 6);
  }

  lemma StatusIn(item: Item)
    ensures Ranked(StatusIssues(item), 6, 11)
    ensures forall issue :: issue in StatusIssues(item) <==>
              issue.itemId == item.id && 6 <= Rank(issue.rule) < 11 && ItemWarrants(item, issue.isError, issue.rule)
  {
    hide When, Estimate, Ranked, Lacking;
    EstimateIs(item);
    var validated := item.status == VALIDATED;
    var p1 := When(validated && item.evidence == [], item, true, VALIDATED_NO_EVIDENCE);
    var p2 := When(validated && item.confidence < THRESHOLD, item, true, VALIDATED_LOW_CONFIDENCE);
    var p3 := When(validated && item.confidence >= THRESHOLD > Estimate(item), item, false, CONFIDENCE_DRIFT);
    var p4 := When(item.status == IMPLEMENTED && item.evidence == [], item, false, IMPLEMENTED_NO_EVIDENCE);
    var p5 := When(item.status == BLOCKED && item.blockingIssues == [], item, true, BLOCKED_NO_REASON);
    OnePart(validated && item.evidence == [], item, true, VALIDATED_NO_EVIDENCE);
    OnePart(validated && item.confidence < THRESHOLD, item, true, VALIDATED_LOW_CONFIDENCE);
    OnePart(validated && item.confidence >= THRESHOLD > Estimate(item), item, false, CONFIDENCE_DRIFT);
    OnePart(item.status == IMPLEMENTED && item.evidence == [], item, false, IMPLEMENTED_NO_EVIDENCE);
    OnePart(item.status == BLOCKED && item.blockingIssues == [], item, true, BLOCKED_NO_REASON);
    RankedAppend(p1, p2, 6, 7, 8);
    RankedAppend(p1 + p2, p3, 6, 8, 9);
    RankedAppend(p1 + p2 + p3, p4, 6, 9, 10);
    RankedAppend(p1 + p2 + p3 + p4, p5, 6, 10, 11);
  }

  lemma AdviceIn(item: Item)
    ensures Ranked(AdviceIssues(item), 11, 14)
    ensures forall issue :: issue in AdviceIssues(item) <==>
              issue.itemId == item.id && 11 <= Rank(issue.rule) < 14 && ItemWarrants(item, issue.isError, issue.rule)
  {
    hide When, Blank, Ranked;
    var incomplete := exists i :: 0 <= i < |item.evidence| && Incomplete(item.evidence[i]);
    IncompleteIs(item.evidence);
    var p1 := When(item.status == REVALIDATION_REQUIRED && Blank(item.freezeReason), item, false, REVALIDATION_NO_REASON);
    var p2 := When(item.priority == CRITICAL && item.acceptanceCriteria == [], item, false, CRITICAL_NO_CRITERIA);
    var p3 := When(incomplete, item, false, EVIDENCE_INCOMPLETE);
    OnePart(item.status == REVALIDATION_REQUIRED && Blank(item.freezeReason), item, false, REVALIDATION_NO_REASON);
    OnePart(item.priority == CRITICAL && item.acceptanceCriteria == [], item, false, CRITICAL_NO_CRITERIA);
    OnePart(incomplete, item, false, EVIDENCE_INCOMPLETE);
    RankedAppend(p1, p2, 11, 12, 13);
    RankedAppend(p1 + p2, p3, 11, 13, 14);
  }

  lemma IncompleteIs(evidence: seq<Evidence>)
    ensures (exists i :: 0 <= i < |evidence| && Incomplete(evidence[i])) <==>
            exists e :: e in evidence && (Blank(e.ref) || Blank(e.caption))
  {
    hide Blank;
    if i :| 0 <= i < |evidence| && Incomplete(evidence[i]) {
      assert evidence[i] in evidence;
    }
  }

  lemma {:induction false} NotPassingIn(item: Item, checks: seq<Check>)
    ensures Ranked(NotPassing(item, checks), 15, 16)
    ensures forall issue :: issue in NotPassing(item, checks) <==>
              issue.itemId == item.id && issue.isError && issue.rule.INVARIANT_NOT_PASS? &&
              exists c :: c in checks && c.name == issue.rule.name && c.status != PASS
    decreases |checks|
  {
    hide When, Ranked;
    if checks == [] {
      NothingRanked();
    } else {
      var init, last := checks[..|checks| - 1], checks[|checks| - 1];
      NotPassingIn(item, init);
      OnePart(last.status != PASS, item, true, INVARIANT_NOT_PASS(last.name));
      SameRank(NotPassing(item, init), When(last.status != PASS, item, true, INVARIANT_NOT_PASS(last.name)), 15);
      assert checks == init + [last];
    }
  }

  lemma NothingRanked()
    ensures forall lo, hi :: Ranked([], lo, hi)
  {
  }

  lemma SameRank(a: seq<Issue>, b: seq<Issue>, r: nat)
    requires Ranked(a, r, r + 1) && Ranked(b, r, r + 1)
    ensures Ranked(a + b, r, r + 1)
  {
    hide Rank;
  }

  lemma InvariantsIn(item: Item)
    ensures Ranked(InvariantIssues(item), 14, 16)
    ensures forall issue :: issue in InvariantIssues(item) <==>
              issue.itemId == item.id && 14 <= Rank(issue.rule) < 16 && ItemWarrants(item, issue.isError, issue.rule)
  {
    hide IsFinancial, When, Ranked, NotPassing;
    FinancialIs(item.categoryId);
    NotPassingIn(item, item.invariants);
    NothingRanked();
    var p1 := When(NeedsInvariants(item) && item.invariants == [], item, true, FINANCIAL_NO_INVARIANTS);
    var p2 := if NeedsInvariants(item) then NotPassing(item, item.invariants) else [];
    OnePart(NeedsInvariants(item) && item.invariants == [], item, true, FINANCIAL_NO_INVARIANTS);
    assert InvariantIssues(item) == p1 + p2 by {
      InvariantParts(item);
    }
    RankedAppend(p1, p2, 14, 15, 16);
    hide InvariantIssues;
  }

  lemma InvariantParts(item: Item)
    ensures InvariantIssues(item) == When(NeedsInvariants(item) && item.invariants == [], item, true, FINANCIAL_NO_INVARIANTS) +
                                     (if NeedsInvariants(item) then NotPassing(item, item.invariants) else [])
  {
  }

  /** The item an id stands for is the last one that has it. */
  lemma {:induction false} LookupLast(items: seq<Item>, id: string)
    ensures Lookup(items, id).Some? && Lookup(items, id).value.status != VALIDATED <==> LastNotValidated(items, id)
    decreases |items|
  {
    hide LastNotValidated;
    if items == [] {
      NoneNotValidated(id);
    } else {
      var init, last := items[..|items| - 1], items[|items| - 1];
      LookupLast(init, id);
      LastOneMore(init, last, id);
      assert items == init + [last];
    }
  }

  lemma NoneNotValidated(id: string)
    ensures !LastNotValidated([], id)
  {
  }

  lemma LastOneMore(init: seq<Item>, last: Item, id: string)
    ensures LastNotValidated(init + [last], id) <==>
              if last.id == id then !Is(last, VALIDATED) else LastNotValidated(init, id)
  {
    var items := init + [last];
    forall l | 0 <= l < |init| ensures items[l] == init[l] {
    }
    if last.id == id {
      assert items[|init|] == last;
    } else {
      forall j: nat | j < |init| ensures LastUnder(items, id, j) <==> LastUnder(init, id, j) {
        assert forall l :: j < l < |init| ==> items[l].id == init[l].id;
      }
    }
  }

  lemma OneRequired(item: Item, id: string, all: seq<Item>)
    ensures var other := Lookup(all, id);
            var last := if other == None then [Issue(item.id, true, REQUIRES_MISSING(id))]
                        else When(other.value.status != VALIDATED, item, true, REQUIRES_NOT_VALIDATED(id));
            && Ranked(last, 16, 17)
            && forall issue :: issue in last <==> issue.itemId == item.id && issue.isError && RequiredRule([id], all, issue.rule)
  {
    hide When, Ranked, LastNotValidated;
    LookupLast(all, id);
    OnePart(true, item, true, REQUIRES_MISSING(id));
    WhenTrue(item, true, REQUIRES_MISSING(id));
    OnePart(Lookup(all, id).Some? && Lookup(all, id).value.status != VALIDATED, item, true, REQUIRES_NOT_VALIDATED(id));
  }

  lemma RequiredRuleOneMore(init: seq<string>, id: string, all: seq<Item>, rule: Rule)
    ensures RequiredRule(init + [id], all, rule) <==> RequiredRule(init, all, rule) || RequiredRule([id], all, rule)
  {
    hide LastNotValidated;
  }

  lemma {:induction false} RequiredIn(item: Item, required: seq<string>, all: seq<Item>)
    ensures Ranked(RequiredIssues(item, required, all), 16, 17)
    ensures forall issue :: issue in RequiredIssues(item, required, all) <==>
              issue.itemId == item.id && issue.isError && RequiredRule(required, all, issue.rule)
    decreases |required|
  {
    hide When, Ranked;
    if required == [] {
      NothingRanked();
    } else {
      var init, id := required[..|required| - 1], required[|required| - 1];
      var other := Lookup(all, id);
      RequiredIn(item, init, all);
      OneRequired(item, id, all);
      assert required == init + [id];
      var last := if other == None then [Issue(item.id, true, REQUIRES_MISSING(id))]
                  else When(other.value.status != VALIDATED, item, true, REQUIRES_NOT_VALIDATED(id));
      SameRank(RequiredIssues(item, init, all), last, 16);
      hide RequiredRule;
      forall rule ensures RequiredRule(required, all, rule) <==> RequiredRule(init, all, rule) || RequiredRule([id], all, rule) {
        RequiredRuleOneMore(init, id, all, rule);
      }
    }
  }

  lemma WhenTrue(item: Item, isError: bool, rule: Rule)
    ensures When(true, item, isError, rule) == [Issue(item.id, isError, rule)]
  {
  }

  /** What is reported of one item, in what order. */
  lemma IssuesIn(m: Matrix, i: nat)
    requires i < |m.items|
    ensures Ranked(IssuesAt(m, i), 0, 17)
    ensures forall issue :: issue in IssuesAt(m, i) <==> issue.itemId == m.items[i].id && Warranted(m, i, issue.isError, issue.rule)
  {
    hide When, Ranked, TextIssues, StatusIssues, AdviceIssues, InvariantIssues, RequiredIssues, RequiredRule;
    var item := m.items[i];
    var twice := exists j :: 0 <= j < i && m.items[j].id == item.id;
    var p1, p2 := When(twice, item, true, DUPLICATE_ID), When(item.categoryId !in m.categories, item, true, INVALID_CATEGORY);
    OnePart(twice, item, true, DUPLICATE_ID);
    OnePart(item.categoryId !in m.categories, item, true, INVALID_CATEGORY);
    RankedAppend(p1, p2, 0, 1, 2);
    OwnIn(item);
    RequiresIn(item, m.items);
    var own, required := FieldIssues(item) + InvariantIssues(item), RequiresIssues(item, m.items);
    RankedAppend(p1 + p2, own, 0, 2, 16);
    RankedAppend(p1 + p2 + own, required, 0, 16, 17);
    hide FieldIssues, RequiresIssues, ItemWarrants, RequiringWarrants;
    OwnRanks(item);
  }

  lemma OwnRanks(item: Item)
    ensures forall isError, rule :: ItemWarrants(item, isError, rule) ==> 2 <= Rank(rule) < 16
  {
    hide Blank, Lacking, IsFinancial;
  }

  lemma OwnIn(item: Item)
    ensures Ranked(FieldIssues(item) + InvariantIssues(item), 2, 16)
    ensures forall issue :: issue in FieldIssues(item) + InvariantIssues(item) <==>
              issue.itemId == item.id && ItemWarrants(item, issue.isError, issue.rule)
  {
    hide Ranked, TextIssues, StatusIssues, AdviceIssues, InvariantIssues, ItemWarrants, Rank;
    TextIn(item);
    StatusIn(item);
    AdviceIn(item);
    InvariantsIn(item);
    OwnRanks(item);
    RankedAppend(TextIssues(item), StatusIssues(item), 2, 6, 11);
    RankedAppend(TextIssues(item) + StatusIssues(item), AdviceIssues(item), 2, 11, 14);
    RankedAppend(FieldIssues(item), InvariantIssues(item), 2, 14, 16);
  }

  lemma RequiresIn(item: Item, all: seq<Item>)
    ensures Ranked(RequiresIssues(item, all), 16, 17)
    ensures forall issue :: issue in RequiresIssues(item, all) <==>
              issue.itemId == item.id && RequiringWarrants(item, all, issue.isError, issue.rule)
  {
    hide Ranked, RequiredIssues, RequiredRule;
    RequiredIn(item, item.required, all);
    NothingRanked();
  }

  /** Exactly the warranted issues are reported, each with its rule and severity. */
  lemma {:induction false} RulesExactly(m: Matrix, n: nat)
    requires n <= |m.items|
    ensures forall issue :: issue in IssuesUpTo(m, n) <==> ReportedUpTo(m, n, issue.itemId, issue.isError, issue.rule)
    decreases n
  {
    hide IssuesAt, Warranted;
    if n > 0 {
      RulesExactly(m, n - 1);
      IssuesIn(m, n - 1);
    }
  }

  // ---------------------------------------------------------------- order

  /** Invariants are reported in the order they stand in. */
  lemma {:induction false} NotPassingInOrder(item: Item, a: seq<Check>, b: seq<Check>)
    ensures NotPassing(item, a + b) == NotPassing(item, a) + NotPassing(item, b)
    decreases |b|
  {
    hide When;
    if b == [] {
      assert a + b == a;
    } else {
      assert (a + b)[..|a + b| - 1] == a + b[..|b| - 1];
      NotPassingInOrder(item, a, b[..|b| - 1]);
    }
  }

  /** And so are required ids. */
  lemma {:induction false} RequiredInOrder(item: Item, a: seq<string>, b: seq<string>, all: seq<Item>)
    ensures RequiredIssues(item, a + b, all) == RequiredIssues(item, a, all) + RequiredIssues(item, b, all)
    decreases |b|
  {
    hide When, Lookup;
    if b == [] {
      assert a + b == a;
    } else {
      assert (a + b)[..|a + b| - 1] == a + b[..|b| - 1];
      RequiredInOrder(item, a, b[..|b| - 1], all);
    }
  }

  /** A required id blocks exactly when the last item under it is not VALIDATED, and the blocker is that item. */
  lemma OneBlocker(id: string, all: seq<Item>)
    ensures Blockers([id], all) != [] <==> LastNotValidated(all, id)
    ensures forall j: nat :: j < |all| && LastUnder(all, id, j) && !Is(all[j], VALIDATED) ==> Blockers([id], all) == [all[j]]
  {
    hide LastNotValidated, LastUnder;
    LookupLast(all, id);
    assert [id][..0] == [];
    forall j: nat | j < |all| && LastUnder(all, id, j) ensures Lookup(all, id) == Some(all[j]) {
      LookupIs(all, id, j);
    }
  }

  lemma {:induction false} LookupIs(items: seq<Item>, id: string, j: nat)
    requires j < |items| && LastUnder(items, id, j)
    ensures Lookup(items, id) == Some(items[j])
    decreases |items|
  {
    if j < |items| - 1 {
      LookupIs(items[..|items| - 1], id, j);
    }
  }

  /** Blockers stand in the order of the required ids. */
  lemma {:induction false} BlockersInOrder(a: seq<string>, b: seq<string>, all: seq<Item>)
    ensures Blockers(a + b, all) == Blockers(a, all) + Blockers(b, all)
    decreases |b|
  {
    if b == [] {
      assert a + b == a;
    } else {
      assert (a + b)[..|a + b| - 1] == a + b[..|b| - 1];
      BlockersInOrder(a, b[..|b| - 1], all);
    }
  }

  /** Items are reported in the order of the matrix, and the rules of one item in the order of their ranks. */
  lemma {:induction false} ItemsInOrder(m: Matrix, i: nat, n: nat)
    requires i < n <= |m.items|
    ensures IssuesUpTo(m, i) + IssuesAt(m, i) <= IssuesUpTo(m, n)
    ensures Ranked(IssuesAt(m, i), 0, 17)
    decreases n - i
  {
    hide IssuesAt, Ranked;
    IssuesIn(m, i);
    if i < n - 1 {
      ItemsInOrder(m, i, n - 1);
    }
  }

  // ---------------------------------------------------------------- the graph of required items

  /** A path along required ids, through items of the matrix. */
  predicate Path(items: seq<Item>, path: seq<nat>) {
    && path != []
    && (forall i :: 0 <= i < |path| ==> path[i] < |items|)
    && forall i :: 0 <= i < |path| - 1 ==> items[path[i + 1]].id in items[path[i]].required
  }

  /** Whatever a VALIDATED item requires, directly or through others, in circles or not, is VALIDATED. */
  lemma {:induction false} ReachableValidated(m: Matrix, path: seq<nat>)
    requires Governed(m) && Path(m.items, path) && m.items[path[0]].status == VALIDATED
    ensures m.items[path[|path| - 1]].status == VALIDATED
    decreases |path|
  {
    hide Sound;
    if |path| > 1 {
      var init := path[..|path| - 1];
      assert Path(m.items, init);
      ReachableValidated(m, init);
      var a, b := path[|path| - 2], path[|path| - 1];
      assert a == init[|init| - 1];
      var id := m.items[b].id;
      var k :| 0 <= k < |m.items[a].required| && m.items[a].required[k] == id;
      assert Met(m.items[a].required[k], m.items);
      LookupUnique(m.items, b);
    }
  }

  /** With unique ids the last item under an id is the only one. */
  lemma LookupUnique(items: seq<Item>, i: nat)
    requires i < |items| && forall i, j :: 0 <= i < j < |items| ==> items[i].id != items[j].id
    ensures Lookup(items, items[i].id) == Some(items[i])
  {
    var r := Lookup(items, items[i].id);
    var j :| 0 <= j < |items| && items[j] == r.value;
  }

  /** And nothing a VALIDATED item requires is missing from the matrix. */
  lemma RequiredExists(m: Matrix, i: nat, id: string) returns (j: nat)
    requires Governed(m) && i < |m.items| && m.items[i].status == VALIDATED && id in m.items[i].required
    ensures j < |m.items| && m.items[j].id == id && Path(m.items, [i, j])
  {
    hide Sound;
    var k :| 0 <= k < |m.items[i].required| && m.items[i].required[k] == id;
    assert Met(id, m.items);
    var r := Lookup(m.items, id);
    j :| 0 <= j < |m.items| && m.items[j] == r.value;
  }
}

/**
 The staged boot transaction. Every provider callback may answer anything: the answers
 are parameters, and the log records which callbacks really ran and with what result.
 */
module BootTransaction {
  import opened Bytes

  datatype Stage =
    | CAPTURE | VALIDATE_PRODUCT | NORMALIZE_ENVIRONMENT | SELECT_SOURCE | VERIFY_MANIFEST | LOAD_IMAGE
    | PREPARE_PROTOCOL | COMMIT_ATTEMPT | QUIESCE_ENVIRONMENT | EXECUTE_TERMINAL | TRANSFER | FAILED

  datatype Status =
    | OK | BAD_ARGUMENT | BAD_STATE | MISSING_CAPABILITY | INCOMPLETE_ENVIRONMENT | INVALID_PAYLOAD
    | INVALID_HANDOFF | BUDGET_EXCEEDED | UNSUPPORTED | TIMEOUT | PROVIDER_FAILURE

  datatype Reason =
    | BAD_INPUT | PRODUCT | BUDGET | DEADLINE | SOURCE | IMAGE | PROTOCOL | COMMIT | QUIESCE | TERMINAL

  datatype Terminal = NONE | DIRECT_ENTRY | FIRMWARE_MANAGED

  /** The sealed entry an architecture prepares; `sealed` is its size field check. */
  datatype Entry = Entry(address: nat, sealed: bool, translationRoot: nat)

  datatype Layout = Layout(segments: nat, entryLoad: word, runtimeEntry: word, highEntry: word)

  datatype Plan = Plan(layout: Option<Layout>, artifactSize: word, transitionRoot: word, transitionBytes: word)

  datatype Limits = Limits(maxInput: word, maxHandoff: word, maxRetries: nat, maxComponents: nat, maxSegments: nat)

  datatype Receipt = Receipt(stage: Stage, reason: Reason, input: nat, output: nat, components: nat, retries: nat)

  /** Selected product, protocol and architecture facts, fixed for the transaction. */
  datatype Selection = Selection(
    limits: Limits, architecture: nat, pageSize: nat, hasDirectHigh: bool,
    terminal: Terminal, allowsModules: bool, expectsMemoryMap: bool, handoffMajor: nat, sourceBudget: nat)

  datatype Environment = Environment(valid: bool, architecture: nat, modules: nat, hasMemoryMap: bool, normalizes: bool)

  datatype Transition = Transition(buffer: bool, physical: word, capacity: word)

  /** Caller input; `present` says that everything the call always needs is there. */
  datatype Input = Input(
    present: bool, environment: Environment, media: bool, mediaSize: nat, offset: nat, size: word,
    payloadCapacity: word, named: bool, hasLayout: bool, hasHandoff: bool, handoffBuffer: bool, handoffCapacity: word,
    transition: Transition)

  // ---- Callback answers

  datatype Handoff = Made(size: word) | OutOfCapacity | Refused

  datatype Request = Request(kind: Terminal, valid: bool, bridged: bool)

  datatype DirectHigh = DirectHigh(entry: word, root: word)

  datatype PlanAnswers = PlanAnswers(
    begin: Status, tablePages: nat, reserved: bool, directHigh: Option<DirectHigh>,
    handoff: Handoff, end: Status, request: Option<Request>, entry: Option<Entry>)

  /** `read(k)` is the result of the k-th source read, should it happen. */
  datatype PrepareAnswers = PrepareAnswers(
    productValid: bool, sourceUsable: bool, begin: Status, read: nat -> bool, end: Status,
    accepted: bool, runsDirect: bool, runsManaged: bool, layout: Layout, plan: PlanAnswers)

  datatype CommitAnswers = CommitAnswers(usable: bool, begin: Status, write: bool, flush: bool, end: Status)

  datatype LaunchAnswers = LaunchAnswers(usable: bool, returned: bool, timeout: bool)

  // ---- The log

  /** What a plan is made from. */
  datatype Order = Order(environment: Environment, layout: Option<Layout>, transition: Transition, capacity: nat)

  datatype Event =
    | Read(input: Input, ok: bool)
    | Planned(order: Order, answers: PlanAnswers, entry: Option<Entry>, size: word)
    | Wrote(record: seq<byte>, ok: bool)
    | Flushed(ok: bool)
    | Quiesced(ok: bool)
    | Launched
    | Transferred(target: Entry)

  predicate Leaves(e: Event) {
    e.Launched? || e.Transferred?
  }

  /** A metadata write and, behind it, a flush succeeded. */
  ghost predicate Durable(log: seq<Event>) {
    exists w, f :: 0 <= w < f < |log| && log[w].Wrote? && log[w].ok && log[f] == Flushed(true)
  }

  /** Behind a durable attempt the environment was closed. */
  ghost predicate Closed(log: seq<Event>) {
    exists q :: 0 <= q < |log| && log[q] == Quiesced(true) && Durable(log[..q])
  }

  /** The entry of the last plan that was completed. */
  function LastEntry(log: seq<Event>): (e: Option<Entry>) {
    if log == [] then None
    else if log[|log| - 1].Planned? then log[|log| - 1].entry
    else LastEntry(log[..|log| - 1])
  }

  function Reads(log: seq<Event>): (n: nat) {
    if log == [] then 0 else Reads(log[..|log| - 1]) + (if log[|log| - 1].Read? then 1 else 0)
  }

  function Output(log: seq<Event>): (n: nat) {
    if log == [] then 0 else Output(log[..|log| - 1]) + (if log[|log| - 1].Planned? then log[|log| - 1].size else 0)
  }

  /** The inputs the source may be asked to read: the payload fits its buffer, its medium and both input budgets, and
      the environment and the buffers are those the protocol wants. */
  predicate MayRead(selection: Selection, i: Input) {
    && i.present && i.named && i.media
    && 0 < i.size <= i.payloadCapacity && i.offset + i.size <= i.mediaSize
    && i.size <= selection.limits.maxInput && i.size <= selection.sourceBudget
    && i.environment.valid && i.environment.normalizes && i.environment.architecture == selection.architecture
    && (selection.allowsModules || i.environment.modules == 0)
    && (i.environment.hasMemoryMap || !selection.expectsMemoryMap)
    && (match selection.terminal
        case DIRECT_ENTRY => i.hasLayout && i.hasHandoff && i.handoffBuffer && i.handoffCapacity > 0
        case FIRMWARE_MANAGED => !i.hasLayout && !i.hasHandoff && !i.handoffBuffer && i.handoffCapacity == 0
        case NONE => true)
    && WholeTransition(i.transition)
  }

  /** A transition buffer is given completely or not at all. */
  predicate WholeTransition(t: Transition) {
    (!t.buffer && t.physical == 0 && t.capacity == 0) || (t.buffer && t.physical > 0 && t.capacity > 0)
  }

  /** The plans that may be made: for an environment of this architecture, within the deadline, with the artifact inside
      its buffer, the tables inside the reserved transition buffer and the entry the request asks for. */
  predicate MayPlan(selection: Selection, o: Order, a: PlanAnswers, entry: Option<Entry>, size: word) {
    && o.environment.valid && o.environment.normalizes && o.environment.architecture == selection.architecture
    && a.begin == OK && a.end == OK
    && (exists bridged :: a.request == Some(Request(selection.terminal, true, bridged)))
    && (o.transition != Transition(false, 0, 0) ==> LeadsHigh(selection, o, a))
    && (if selection.terminal == DIRECT_ENTRY
        then a.handoff == Made(size) && size <= o.capacity && a.entry.Some? && entry == Some(Routed(o, a)) &&
             (a.request.value.bridged ==> o.transition != Transition(false, 0, 0))
        else size == 0)
  }

  /** The entry of the architecture, through the transition tables if the request is bridged. */
  function Routed(o: Order, a: PlanAnswers): (e: Entry)
    requires a.entry.Some? && a.request.Some?
  {
    if a.request.value.bridged then Entry(a.entry.value.address, a.entry.value.sealed, o.transition.physical)
    else a.entry.value
  }

  /** The tables are whole pages, inside the reserved buffer, and map the high entry of the image. */
  predicate LeadsHigh(selection: Selection, o: Order, a: PlanAnswers) {
    && selection.hasDirectHigh && o.transition.buffer && o.transition.physical > 0 && a.reserved
    && 0 < a.tablePages * selection.pageSize <= o.transition.capacity
    && a.directHigh.Some? && a.directHigh.value.root == o.transition.physical
    && a.directHigh.value.entry == if o.layout.Some? then o.layout.value.highEntry else 0
  }

  /** Every logged read and plan was given what it may be given. */
  ghost predicate Given(selection: Selection, log: seq<Event>) {
    && (forall i :: 0 <= i < |log| && log[i].Read? ==> MayRead(selection, log[i].input))
    && (forall i :: 0 <= i < |log| && log[i].Planned? ==>
          MayPlan(selection, log[i].order, log[i].answers, log[i].entry, log[i].size))
    && (forall i :: 0 <= i < |log| && Leaves(log[i]) ==> MayLeave(selection, log[i]))
  }

  /** A managed image is launched, and a direct one entered at an entry the architecture has sealed. */
  predicate MayLeave(selection: Selection, e: Event)
    requires Leaves(e)
  {
    if e.Launched? then selection.terminal == FIRMWARE_MANAGED
    else selection.terminal == DIRECT_ENTRY && e.target.sealed
  }

  lemma GivenGrows(selection: Selection, log: seq<Event>, e: Event)
    requires Given(selection, log)
    requires e.Read? ==> MayRead(selection, e.input)
    requires e.Planned? ==> MayPlan(selection, e.order, e.answers, e.entry, e.size)
    requires Leaves(e) ==> MayLeave(selection, e)
    ensures Given(selection, log + [e])
  {
    hide MayRead, MayPlan, MayLeave;
    assert forall i :: 0 <= i < |log| ==> (log + [e])[i] == log[i];
  }

  /** Control leaves only as the protocol allows, with the right entry. */
  ghost predicate SafeAt(log: seq<Event>, i: nat)
    requires i < |log|
  {
    && (log[i].Launched? ==> Durable(log[..i]))
    && (log[i].Transferred? ==> Closed(log[..i]) && LastEntry(log[..i]) == Some(log[i].target))
  }

  ghost predicate StayedIn(log: seq<Event>) {
    forall i :: 0 <= i < |log| ==> !Leaves(log[i])
  }

  /** Control leaves at most once: one launch or one transfer, never both. */
  ghost predicate Safe(log: seq<Event>) {
    && (forall i :: 0 <= i < |log| ==> SafeAt(log, i))
    && (forall i, j :: 0 <= i < j < |log| ==> !(Leaves(log[i]) && Leaves(log[j])))
  }

  lemma DurableGrows(log: seq<Event>, e: Event)
    requires Durable(log)
    ensures Durable(log + [e])
  {
    var w, f :| 0 <= w < f < |log| && log[w].Wrote? && log[w].ok && log[f] == Flushed(true);
    var more := log + [e];
    assert more[w] == log[w] && more[f] == log[f];
  }

  lemma SafePrefix(log: seq<Event>, e: Event, i: nat)
    requires i < |log| && SafeAt(log, i)
    ensures SafeAt(log + [e], i)
  {
    hide Durable, Closed;
    assert (log + [e])[..i] == log[..i];
  }

  /** An event that keeps control in leaves a safe log safe. */
  lemma Stay(log: seq<Event>, e: Event)
    requires Safe(log) && !Leaves(e)
    ensures Safe(log + [e]) && (StayedIn(log) ==> StayedIn(log + [e]))
  {
    hide SafeAt;
    var more := log + [e];
    forall i | 0 <= i < |more| ensures SafeAt(more, i) {
      if i < |log| { SafePrefix(log, e, i); } else { SafeInside(more, i); }
    }
  }

  lemma SafeInside(log: seq<Event>, i: nat)
    requires i < |log| && !Leaves(log[i])
    ensures SafeAt(log, i)
  {
  }

  /** Control may leave where it has stayed in and the protocol is satisfied. */
  lemma Leave(log: seq<Event>, e: Event)
    requires Safe(log) && StayedIn(log) && Leaves(e)
    requires e.Launched? ==> Durable(log)
    requires e.Transferred? ==> Closed(log) && LastEntry(log) == Some(e.target)
    ensures Safe(log + [e])
  {
    hide Durable, Closed, LastEntry;
    var more := log + [e];
    assert more[..|log|] == log;
    forall i | 0 <= i < |more| ensures SafeAt(more, i) {
      if i < |log| { SafePrefix(log, e, i); }
    }
  }

  lemma Counts(log: seq<Event>, e: Event)
    ensures LastEntry(log + [e]) == if e.Planned? then e.entry else LastEntry(log)
    ensures Reads(log + [e]) == Reads(log) + if e.Read? then 1 else 0
    ensures Output(log + [e]) == Output(log) + if e.Planned? then e.size else 0
  {
    assert (log + [e])[..|log|] == log;
  }

  // ---- When a call succeeds

  /** Size of the transition tables; the page count has been checked against overflow. */
  function TableBytes(pageSize: nat, pages: nat): (n: word)
    requires pageSize != 0 && pages <= U64_MAX / pageSize
    ensures n == pages * pageSize
  {
    TableFits(pageSize, pages);
    pages * pageSize
  }

  lemma TableFits(pageSize: nat, pages: nat)
    requires pageSize != 0 && pages <= U64_MAX / pageSize
    ensures pages * pageSize <= U64_MAX
  {
    MulLe(pages, U64_MAX / pageSize, pageSize);
  }

  /** The transition tables fit, are reserved and lead to the high entry of the image. */
  predicate Bridges(selection: Selection, layout: Option<Layout>, t: Transition, a: PlanAnswers) {
    && t.buffer && t.physical != 0 && t.capacity != 0 && selection.hasDirectHigh
    && a.tablePages != 0 && selection.pageSize != 0 && a.tablePages <= U64_MAX / selection.pageSize
    && t.capacity >= TableBytes(selection.pageSize, a.tablePages) && a.reserved
    && a.directHigh == Some(DirectHigh(if layout.Some? then layout.value.highEntry else 0, t.physical))
  }

  lemma BridgeLeads(selection: Selection, layout: Option<Layout>, t: Transition, a: PlanAnswers)
    requires Bridges(selection, layout, t, a)
    ensures a.directHigh.Some? && a.directHigh.value.root == t.physical != 0
    ensures selection.pageSize != 0 && a.tablePages <= U64_MAX / selection.pageSize
    ensures TableBytes(selection.pageSize, a.tablePages) != 0
  {
  }

  predicate HasTransition(t: Transition) {
    t.buffer || t.physical != 0 || t.capacity != 0
  }

  /** The handoff artifact fits the buffer and what is left of the output budget. */
  predicate Affordable(selection: Selection, capacity: nat, output: nat, a: PlanAnswers) {
    a.handoff.Made? && a.handoff.size <= capacity && output + a.handoff.size <= selection.limits.maxHandoff
  }

  ghost predicate Plannable(selection: Selection, layout: Option<Layout>, t: Transition, capacity: nat, output: nat,
      a: PlanAnswers) {
    && a.begin == OK && a.end == OK
    && (HasTransition(t) ==> Bridges(selection, layout, t, a))
    && (selection.terminal == DIRECT_ENTRY ==> Affordable(selection, capacity, output, a))
    && a.request.Some? && a.request.value.valid && a.request.value.kind == selection.terminal
    && (selection.terminal == DIRECT_ENTRY ==> a.entry.Some? && (a.request.value.bridged ==> HasTransition(t)))
  }

  predicate Complete(selection: Selection, input: Input) {
    && input.present && input.size != 0 && input.payloadCapacity >= input.size
    && (HasTransition(input.transition) ==>
       input.transition.buffer && input.transition.physical != 0 && input.transition.capacity != 0)
    && (selection.terminal == DIRECT_ENTRY ==>
       input.hasLayout && input.handoffBuffer && input.handoffCapacity != 0 && input.hasHandoff)
    && (selection.terminal == FIRMWARE_MANAGED ==>
       !input.hasLayout && !input.handoffBuffer && input.handoffCapacity == 0 && !input.hasHandoff)
  }

  predicate Suitable(selection: Selection, e: Environment) {
    && e.valid && e.architecture == selection.architecture && (e.modules != 0 ==> selection.allowsModules)
    && (selection.expectsMemoryMap ==> e.hasMemoryMap) && e.normalizes
  }

  /** The candidate lies inside its medium and inside both input budgets. */
  predicate Readable(selection: Selection, input: Input) {
    && input.media && input.offset + input.size <= input.mediaSize
    && input.size <= selection.limits.maxInput && input.size <= selection.sourceBudget
  }

  /** The image is accepted and can run the way the protocol ends. */
  predicate Runs(selection: Selection, a: PrepareAnswers) {
    a.accepted && (selection.terminal == DIRECT_ENTRY ==> a.runsDirect)
      && (selection.terminal == FIRMWARE_MANAGED ==> a.runsManaged)
  }

  predicate Loads(selection: Selection, input: Input, a: PrepareAnswers) {
    && Runs(selection, a)
    && (input.hasLayout ==>
       a.layout.segments <= selection.limits.maxSegments
         && a.layout.segments + input.environment.modules <= selection.limits.maxComponents)
  }

  ghost predicate Preparable(selection: Selection, input: Input, a: PrepareAnswers) {
    && Complete(selection, input) && a.productValid && Suitable(selection, input.environment)
       && Readable(selection, input)
    && input.named && a.sourceUsable && a.begin == OK && a.end == OK
    && (exists k :: 0 <= k <= selection.limits.maxRetries && a.read(k)) && Loads(selection, input, a)
    && Plannable(selection, if input.hasLayout then Some(a.layout) else None,
                 input.transition, input.handoffCapacity, 0, a.plan)
  }

  // ---- How a call fails

  function LayoutStatus(selection: Selection, layout: Option<Layout>, t: Transition, capacity: nat, output: nat,
      a: PlanAnswers): (s: Status) {
    if a.begin != OK then a.begin
    else if HasTransition(t) && !Bridges(selection, layout, t, a) then INVALID_HANDOFF
    else if selection.terminal == DIRECT_ENTRY && a.handoff.Refused? then INVALID_HANDOFF
    else if selection.terminal == DIRECT_ENTRY && !Affordable(selection, capacity, output, a) then BUDGET_EXCEEDED
    else a.end
  }

  function PlanStatus(selection: Selection, layout: Option<Layout>, t: Transition, capacity: nat, output: nat,
      a: PlanAnswers): (s: Status) {
    var direct := selection.terminal == DIRECT_ENTRY;
    if LayoutStatus(selection, layout, t, capacity, output, a) != OK then
      LayoutStatus(selection, layout, t, capacity, output, a)
    else if a.request.None? || !a.request.value.valid || a.request.value.kind != selection.terminal
      || (direct && a.entry.None?) then UNSUPPORTED
    else if direct && a.request.value.bridged && !HasTransition(t) then INVALID_HANDOFF
    else OK
  }

  lemma PlanStatusIs(selection: Selection, layout: Option<Layout>, t: Transition, capacity: nat, output: nat,
      a: PlanAnswers)
    ensures PlanStatus(selection, layout, t, capacity, output, a) == OK <==>
      Plannable(selection, layout, t, capacity, output, a)
  {
    hide Bridges, HasTransition;
  }

  /** The callbacks a commit makes, with their results. */
  function CommitEvents(stage: Stage, record: seq<byte>, a: CommitAnswers): (log: seq<Event>) {
    if stage != PREPARE_PROTOCOL || !a.usable || a.begin != OK then []
    else if !a.write then [Wrote(record, false)]
    else [Wrote(record, true), Flushed(a.flush)]
  }

  ghost function LoadStatus(selection: Selection, i: Input, a: PrepareAnswers): (s: Status) {
    if !a.sourceUsable || a.begin != OK then TIMEOUT
    else if !exists k :: 0 <= k <= selection.limits.maxRetries && a.read(k) then PROVIDER_FAILURE
    else if a.end != OK then TIMEOUT
    else if !Runs(selection, a) then INVALID_PAYLOAD
    else if !Loads(selection, i, a) then BUDGET_EXCEEDED
    else OK
  }

  lemma LoadStatusIs(selection: Selection, i: Input, a: PrepareAnswers)
    ensures LoadStatus(selection, i, a) == OK <==>
            && a.sourceUsable && a.begin == OK && a.end == OK && Loads(selection, i, a)
            && exists k :: 0 <= k <= selection.limits.maxRetries && a.read(k)
  {
  }

  function AdmitStatus(selection: Selection, fits: bool, i: Input, productValid: bool): (s: Status) {
    if !fits || !Complete(selection, i) then BAD_ARGUMENT
    else if !productValid then UNSUPPORTED
    else if !Suitable(selection, i.environment) then INCOMPLETE_ENVIRONMENT
    else if !Readable(selection, i) then BUDGET_EXCEEDED
    else if !i.named then BAD_ARGUMENT
    else OK
  }

  /** The checks of a captured input. */
  method IsComplete(selection: Selection, i: Input) returns (ok: bool)
    ensures ok <==> Complete(selection, i)
  {
    var direct, managed := selection.terminal == DIRECT_ENTRY, selection.terminal == FIRMWARE_MANAGED;
    if !i.present || i.size == 0 || i.payloadCapacity < i.size {
      return false;
    }
    if (i.transition.buffer || i.transition.physical != 0 || i.transition.capacity != 0)
      && (!i.transition.buffer || i.transition.physical == 0 || i.transition.capacity == 0) {
      return false;
    }
    if direct && (!i.hasLayout || !i.handoffBuffer || i.handoffCapacity == 0 || !i.hasHandoff) {
      return false;
    }
    return !(managed && (i.hasLayout || i.handoffBuffer || i.handoffCapacity != 0 || i.hasHandoff));
  }

  /** The checks of an environment before its first plan. */
  method IsSuitable(selection: Selection, e: Environment) returns (ok: bool)
    ensures ok <==> Suitable(selection, e)
  {
    if !e.valid || e.architecture != selection.architecture || (e.modules != 0 && !selection.allowsModules) {
      return false;
    }
    return !(selection.expectsMemoryMap && !e.hasMemoryMap) && e.normalizes;
  }

  // ---- The attempt record

  /** Forty bytes: magic, stage, handoff major, and four little-endian words. */
  function Record(major: nat, input: word, plan: Plan): (r: seq<byte>)
    ensures |r| == 40
  {
    Widths();
    [0x52, 0x42, 0x41, 0x31, 7, major % 256, 0, 0] + ToLe(input, 8) + ToLe(plan.artifactSize, 8)
    + ToLe(if plan.layout.Some? then plan.layout.value.entryLoad else 0, 8)
    + ToLe(if plan.layout.Some? then plan.layout.value.runtimeEntry else 0, 8)
  }

  /** The record carries the consumed input, the artifact size and both entry addresses. */
  lemma RecordReads(major: nat, input: word, plan: Plan)
    ensures var r := Record(major, input, plan);
      && r[..8] == [0x52, 0x42, 0x41, 0x31, 7, major % 256, 0, 0]
      && Le(r[8..16]) == input && Le(r[16..24]) == plan.artifactSize
      && (plan.layout.Some? ==>
         Le(r[24..32]) == plan.layout.value.entryLoad && Le(r[32..]) == plan.layout.value.runtimeEntry)
  {
    hide ToLe, Le;
    Widths();
    var r := Record(major, input, plan);
    var load: word := if plan.layout.Some? then plan.layout.value.entryLoad else 0;
    var run: word := if plan.layout.Some? then plan.layout.value.runtimeEntry else 0;
    var a, b, c, d := ToLe(input, 8), ToLe(plan.artifactSize, 8), ToLe(load, 8), ToLe(run, 8);
    assert r == [0x52, 0x42, 0x41, 0x31, 7, major % 256, 0, 0] + a + b + c + d;
    assert r[8..16] == a && r[16..24] == b && r[24..32] == c && r[32..] == d;
    LeOfToLe(input, 8);
    LeOfToLe(plan.artifactSize, 8);
    LeOfToLe(load, 8);
    LeOfToLe(run, 8);
  }

  // ---- The transaction

  class Transaction {
    const selection: Selection
    var live: bool
    var stage: Stage
    var environment: Environment
    var layout: Option<Layout>
    var transition: Transition
    var handoffCapacity: word
    var plan: Plan
    var request: Terminal
    var entry: Option<Entry>
    var receipt: Option<Receipt>
    var input: word
    var output: word
    var components: nat
    var retries: nat
    ghost var log: seq<Event>

    /** Budgets and safety, whatever the stage. */
    ghost predicate Bounded()
      reads this
    {
      && Safe(log) && Given(selection, log)
      && output == Output(log) && output <= selection.limits.maxHandoff
      && input <= selection.limits.maxInput
      && retries <= selection.limits.maxRetries && Reads(log) <= retries + 1
      && (selection.terminal == DIRECT_ENTRY ==> components <= selection.limits.maxComponents)
      && (live ==> selection.terminal != NONE && selection.pageSize != 0)
    }

    /** A complete plan is held and control has stayed in. */
    ghost predicate Prepared()
      reads this
    {
      StayedIn(log) && live && request == selection.terminal
        && (request == DIRECT_ENTRY ==> entry.Some? && LastEntry(log) == entry)
    }

    ghost predicate Receipted()
      reads this
    {
      && receipt.Some? && receipt.value.input == input && receipt.value.output == output
      && receipt.value.components == components && receipt.value.retries == retries
    }

    /** What each stage promises about the past. */
    ghost predicate Staged()
      reads this
    {
      match stage
      case CAPTURE => log == [] && retries == 0 && input == 0 && output == 0
      case PREPARE_PROTOCOL => Prepared()
      case COMMIT_ATTEMPT => Prepared() && Durable(log)
      case QUIESCE_ENVIRONMENT => Prepared() && Closed(log) && request == DIRECT_ENTRY
      case TRANSFER => true
      case FAILED => Receipted()
      case _ => false
    }

    ghost predicate Valid()
      reads this
    {
      Bounded() && Staged()
    }

    /** A transaction that failed initialization is not live and can only fail. */
    constructor (selection: Selection, usable: bool)
      ensures Valid() && stage == CAPTURE && log == [] && this.selection == selection
      ensures live <==> usable && selection.terminal != NONE && selection.pageSize != 0
    {
      this.selection := selection;
      live := usable && selection.terminal != NONE && selection.pageSize != 0;
      stage := CAPTURE;
      environment := Environment(false, 0, 0, false, false);
      layout, transition, handoffCapacity := None, Transition(false, 0, 0), 0;
      plan := Plan(None, 0, 0, 0);
      request, entry, receipt := NONE, None, None;
      input, output, components, retries := 0, 0, 0, 0;
      log := [];
    }

    /** Failure is terminal and leaves a receipt of what was consumed. */
    method Fail(at: Stage, reason: Reason, status: Status) returns (r: Status)
      requires Bounded()
      modifies this`stage, this`receipt
      ensures Valid() && stage == FAILED && r == status
      ensures receipt == Some(Receipt(at, reason, input, output, components, retries))
    {
      receipt := Some(Receipt(at, reason, input, output, components, retries));
      stage := FAILED;
      return status;
    }

    /** Read the source, retrying while the retry budget lasts. */
    method ReadSource(i: Input, read: nat -> bool) returns (ok: bool)
      requires Bounded() && log == [] && retries == 0 && MayRead(selection, i)
      modifies this`retries, this`log
      ensures Bounded() && StayedIn(log) && log == ReadsOf(i, read, retries + 1)
      ensures ok <==> exists k :: 0 <= k <= selection.limits.maxRetries && read(k)
      ensures forall k :: 0 <= k < retries ==> !read(k)
      ensures ok == read(retries) && Reads(log) == retries + 1
    {
      hide Safe, StayedIn, LastEntry, Reads, Output, Given, MayRead;
      NothingRead();
      ok := read(0);
      LogRead(i, ok);
      while !ok && retries < selection.limits.maxRetries
        invariant Bounded() && StayedIn(log) && log == ReadsOf(i, read, retries + 1)
        invariant Reads(log) == retries + 1 && ok == read(retries)
        invariant forall k :: 0 <= k < retries ==> !read(k)
        decreases selection.limits.maxRetries - retries
      {
        retries := retries + 1;
        ok := read(retries);
        LogRead(i, ok);
      }
    }

    ghost method LogRead(i: Input, ok: bool)
      requires Bounded() && StayedIn(log) && MayRead(selection, i) && Reads(log) <= retries
      modifies this`log
      ensures Bounded() && StayedIn(log) && log == old(log) + [Read(i, ok)] && Reads(log) == old(Reads(log)) + 1
    {
      hide Safe, StayedIn, LastEntry, Reads, Output, Given, MayRead;
      Counts(log, Read(i, ok));
      Stay(log, Read(i, ok));
      GivenGrows(selection, log, Read(i, ok));
      log := log + [Read(i, ok)];
    }

    /** Lay out the plan and charge its handoff artifact against the output budget. */
    method LayoutPlan(a: PlanAnswers) returns (status: Status, candidate: Plan)
      requires Bounded() && live
      modifies this`stage, this`receipt
      ensures Bounded()
      ensures status == LayoutStatus(selection, layout, transition, handoffCapacity, output, a)
      ensures status == OK ==> candidate.layout == layout && stage == old(stage) && receipt == old(receipt)
      ensures status == OK ==>
        candidate.artifactSize == if selection.terminal == DIRECT_ENTRY then a.handoff.size else 0
      ensures status == OK ==>
        (candidate.transitionRoot != 0 && candidate.transitionBytes != 0 <==> HasTransition(transition))
      ensures status == OK && HasTransition(transition) ==> candidate.transitionRoot == transition.physical
      ensures status != OK ==> Valid() && stage == FAILED
    {
      hide Safe, StayedIn, LastEntry, Reads, Output, TableBytes, Given;
      candidate := Plan(layout, 0, 0, 0);
      if a.begin != OK {
        status := Fail(PREPARE_PROTOCOL, DEADLINE, a.begin);
        return;
      }
      if HasTransition(transition) {
        if !transition.buffer || transition.physical == 0 || transition.capacity == 0 || !selection.hasDirectHigh
          || a.tablePages == 0 || a.tablePages > U64_MAX / selection.pageSize
          || transition.capacity < TableBytes(selection.pageSize, a.tablePages) || !a.reserved || a.directHigh.None?
          || a.directHigh.value.entry != (if layout.Some? then layout.value.highEntry else 0)
          || a.directHigh.value.root != transition.physical {
          status := Fail(PREPARE_PROTOCOL, PROTOCOL, INVALID_HANDOFF);
          return;
        }
        BridgeLeads(selection, layout, transition, a);
        candidate := candidate.(transitionRoot := a.directHigh.value.root,
          transitionBytes := TableBytes(selection.pageSize, a.tablePages));
      }
      if selection.terminal == DIRECT_ENTRY {
        if !a.handoff.Made? {
          var full := a.handoff.OutOfCapacity?;
          status := Fail(PREPARE_PROTOCOL, if full then BUDGET else PROTOCOL,
                         if full then BUDGET_EXCEEDED else INVALID_HANDOFF);
          return;
        }
        if a.handoff.size > selection.limits.maxHandoff || a.handoff.size > handoffCapacity ||
           output > selection.limits.maxHandoff - a.handoff.size {
          status := Fail(PREPARE_PROTOCOL, BUDGET, BUDGET_EXCEEDED);
          return;
        }
        candidate := candidate.(artifactSize := a.handoff.size);
      }
      if a.end != OK {
        status := Fail(PREPARE_PROTOCOL, DEADLINE, a.end);
        return;
      }
      return OK, candidate;
    }

    /** Accept the terminal request and seal the entry of a plan that bridges through `root`. */
    method SealEntry(a: PlanAnswers, root: word, bytes: word) returns (status: Status)
      requires Bounded() && live
      modifies this`stage, this`receipt, this`request, this`entry
      ensures Bounded()
      ensures status == if a.request.None? || !a.request.value.valid
        || a.request.value.kind != selection.terminal then UNSUPPORTED
                        else if selection.terminal != DIRECT_ENTRY then OK
                        else if a.entry.None? then UNSUPPORTED
                        else if a.request.value.bridged && (root == 0 || bytes == 0) then INVALID_HANDOFF
                        else OK
      ensures status == OK ==> request == selection.terminal && stage == old(stage) && receipt == old(receipt)
      ensures status == OK ==> (selection.terminal == DIRECT_ENTRY <==> entry.Some?)
      ensures status == OK && selection.terminal == DIRECT_ENTRY ==>
        entry == Some(if a.request.value.bridged then a.entry.value.(translationRoot := root) else a.entry.value)
      ensures status != OK ==> Valid() && stage == FAILED && request == NONE && entry == None
    {
      hide Safe, StayedIn, LastEntry, Reads, Output, Given;
      request, entry := NONE, None;
      if a.request.None? || !a.request.value.valid || a.request.value.kind != selection.terminal {
        status := Fail(PREPARE_PROTOCOL, PROTOCOL, UNSUPPORTED);
        return;
      }
      if a.request.value.kind == DIRECT_ENTRY && a.entry.None? {
        status := Fail(PREPARE_PROTOCOL, PROTOCOL, UNSUPPORTED);
        return;
      }
      if a.request.value.kind == DIRECT_ENTRY && a.request.value.bridged && (root == 0 || bytes == 0) {
        status := Fail(PREPARE_PROTOCOL, PROTOCOL, INVALID_HANDOFF);
        return;
      }
      request := a.request.value.kind;
      if request == DIRECT_ENTRY {
        entry := a.entry;
        if a.request.value.bridged {
          entry := Some(entry.value.(translationRoot := root));
        }
      }
      return OK;
    }

    /** Build the protocol plan for the frozen payload and the current environment. */
    method PreparePlan(a: PlanAnswers) returns (status: Status)
      requires Bounded() && StayedIn(log) && live
      requires environment.valid && environment.normalizes && environment.architecture == selection.architecture
      modifies this`stage, this`receipt, this`plan, this`request, this`entry, this`output, this`log
      ensures Bounded()
      ensures status == PlanStatus(selection, layout, transition, handoffCapacity, old(output), a)
      ensures status == OK <==> Plannable(selection, layout, transition, handoffCapacity, old(output), a)
      ensures status != OK ==> Valid() && stage == FAILED && log == old(log) && output == old(output)
      ensures status == OK ==> stage == PREPARE_PROTOCOL && Prepared() && receipt == old(receipt)
      ensures status == OK ==>
        log == old(log) + [Planned(Ordered(), a, entry, plan.artifactSize)] && plan.layout == layout
      ensures status == OK ==>
        output == old(output) + (if selection.terminal == DIRECT_ENTRY then a.handoff.size else 0)
      ensures status == OK && selection.terminal == DIRECT_ENTRY ==>
        entry == Some(if a.request.value.bridged then a.entry.value.(translationRoot := transition.physical)
          else a.entry.value)
    {
      hide Safe, StayedIn, LastEntry, Reads, Output, Bridges, HasTransition, Given, MayPlan;
      PlanStatusIs(selection, layout, transition, handoffCapacity, output, a);
      var candidate;
      status, candidate := LayoutPlan(a);
      if status != OK {
        return;
      }
      status := SealEntry(a, candidate.transitionRoot, candidate.transitionBytes);
      if status != OK {
        return;
      }
      PlannableIs(selection, Ordered(), output, a, entry, candidate.artifactSize);
      AdoptPlan(candidate, a);
    }

    /** What the current plan is made from. */
    ghost function Ordered(): (o: Order)
      reads this
    {
      Order(environment, layout, transition, handoffCapacity)
    }

    /** The candidate becomes the plan and its artifact is charged. */
    method AdoptPlan(candidate: Plan, ghost a: PlanAnswers)
      requires Bounded() && StayedIn(log) && live && request == selection.terminal
        && (request == DIRECT_ENTRY ==> entry.Some?)
      requires output + candidate.artifactSize <= selection.limits.maxHandoff
      requires MayPlan(selection, Ordered(), a, entry, candidate.artifactSize)
      modifies this`stage, this`plan, this`output, this`log
      ensures Bounded() && stage == PREPARE_PROTOCOL && Prepared() && plan == candidate
      ensures output == old(output) + candidate.artifactSize
        && log == old(log) + [Planned(Ordered(), a, entry, candidate.artifactSize)]
    {
      hide Safe, StayedIn, LastEntry, Reads, Output, Given, MayPlan;
      ghost var e := Planned(Ordered(), a, entry, candidate.artifactSize);
      plan := candidate;
      output := output + candidate.artifactSize;
      stage := PREPARE_PROTOCOL;
      Counts(log, e);
      Stay(log, e);
      GivenGrows(selection, log, e);
      log := log + [e];
    }

    /** Capture the input and check it up to the manifest. */
    method Admit(i: Input, productValid: bool) returns (status: Status)
      requires Valid()
      modifies this`stage, this`receipt, this`environment, this`transition, this`handoffCapacity
      ensures Bounded()
      ensures status == AdmitStatus(selection, live && old(stage) == CAPTURE, i, productValid)
      ensures status == OK ==>
        stage == VERIFY_MANIFEST && environment == i.environment && transition == i.transition
          && handoffCapacity == i.handoffCapacity
      ensures status != OK ==> Valid() && stage == FAILED
    {
      hide Safe, Reads, Output, Given, Complete, Suitable, Readable, Durable, Closed, LastEntry, StayedIn;
      var complete := IsComplete(selection, i);
      var suitable := IsSuitable(selection, i.environment);
      if !live || stage != CAPTURE || !complete {
        status := Fail(CAPTURE, BAD_INPUT, BAD_ARGUMENT);
        return;
      }
      transition, handoffCapacity := i.transition, i.handoffCapacity;
      stage := VALIDATE_PRODUCT;
      if !productValid {
        status := Fail(VALIDATE_PRODUCT, PRODUCT, UNSUPPORTED);
        return;
      }
      stage := NORMALIZE_ENVIRONMENT;
      if !suitable {
        status := Fail(NORMALIZE_ENVIRONMENT, BAD_INPUT, INCOMPLETE_ENVIRONMENT);
        return;
      }
      environment := i.environment;
      status := SelectSource(i);
    }

    /** Check the candidate against its medium and the input budgets. */
    method SelectSource(i: Input) returns (status: Status)
      requires Bounded()
      modifies this`stage, this`receipt
      ensures Bounded()
      ensures status == if !Readable(selection, i) then BUDGET_EXCEEDED else if !i.named then BAD_ARGUMENT else OK
      ensures status == OK ==> stage == VERIFY_MANIFEST
      ensures status != OK ==> Valid() && stage == FAILED
    {
      hide Safe, Reads, Output, Given, Durable, Closed, LastEntry, StayedIn;
      stage := SELECT_SOURCE;
      if !i.media || i.offset > i.mediaSize || i.size > i.mediaSize - i.offset ||
         i.size > selection.limits.maxInput || i.size > selection.sourceBudget {
        status := Fail(SELECT_SOURCE, BUDGET, BUDGET_EXCEEDED);
        return;
      }
      stage := VERIFY_MANIFEST;
      if !i.named {
        status := Fail(VERIFY_MANIFEST, BAD_INPUT, BAD_ARGUMENT);
        return;
      }
      return OK;
    }

    /** Read the payload inside its budgets and check the analysed image. */
    method LoadImage(i: Input, a: PrepareAnswers) returns (status: Status)
      requires Bounded() && live && log == [] && retries == 0 && input == 0 && output == 0
      requires MayRead(selection, i) && Complete(selection, i) && Readable(selection, i) && environment == i.environment
      modifies this`stage, this`receipt, this`layout, this`input, this`components, this`retries, this`log
      ensures Bounded() && StayedIn(log)
      ensures log == if a.sourceUsable && a.begin == OK then ReadsOf(i, a.read, retries + 1) else []
      ensures status == LoadStatus(selection, i, a)
      ensures status == OK ==> input == i.size && layout == (if i.hasLayout then Some(a.layout) else None)
      ensures status != OK ==> Valid() && stage == FAILED
    {
      hide Safe, Reads, Output, LastEntry, Complete, Given, MayRead, Durable, Closed, StayedIn, ReadsOf;
      stage := LOAD_IMAGE;
      NothingRead();
      if !a.sourceUsable || a.begin != OK {
        status := Fail(LOAD_IMAGE, DEADLINE, TIMEOUT);
        return;
      }
      var ok := ReadSource(i, a.read);
      if !ok {
        status := Fail(LOAD_IMAGE, SOURCE, PROVIDER_FAILURE);
        return;
      }
      input := input + i.size;
      if a.end != OK {
        status := Fail(LOAD_IMAGE, DEADLINE, TIMEOUT);
        return;
      }
      if !a.accepted || (selection.terminal == DIRECT_ENTRY && !a.runsDirect)
        || (selection.terminal == FIRMWARE_MANAGED && !a.runsManaged) {
        status := Fail(LOAD_IMAGE, IMAGE, INVALID_PAYLOAD);
        return;
      }
      if i.hasLayout
        && (a.layout.segments > selection.limits.maxSegments || a.layout.segments > selection.limits.maxComponents ||
                         environment.modules > selection.limits.maxComponents - a.layout.segments) {
        status := Fail(LOAD_IMAGE, BUDGET, BUDGET_EXCEEDED);
        return;
      }
      CompleteDirect(selection, i);
      components := ((if i.hasLayout then a.layout.segments else 1) + environment.modules) % 0x1_0000_0000;
      layout := if i.hasLayout then Some(a.layout) else None;
      return OK;
    }

    /** From captured input to a complete plan, without touching durable state. */
    method Prepare(i: Input, a: PrepareAnswers) returns (status: Status)
      requires Valid()
      modifies this
      ensures Valid()
      ensures status == OK <==> live && old(stage) == CAPTURE && Preparable(selection, i, a)
      ensures status ==
        var admitted := AdmitStatus(selection, live && old(stage) == CAPTURE, i, a.productValid);
        if admitted != OK then admitted else if LoadStatus(selection, i, a) != OK then LoadStatus(selection, i, a)
        else PlanStatus(selection, if i.hasLayout then Some(a.layout) else None,
                        i.transition, i.handoffCapacity, 0, a.plan)
      ensures status == OK ==> stage == PREPARE_PROTOCOL && input == i.size
      ensures status != OK ==> stage == FAILED
      ensures old(stage) == CAPTURE ==>
        log == (if live && MayRead(selection, i) && a.productValid && a.sourceUsable && a.begin == OK
                then ReadsOf(i, a.read, retries + 1) else [])
             + (if status == OK then [Planned(Ordered(), a.plan, entry, plan.artifactSize)] else [])
      ensures live == old(live) && (old(stage) == FAILED ==> log == old(log))
    {
      hide Safe, Reads, Output, LastEntry, Loads, Complete, Suitable, Readable, Plannable, PlanStatus, LoadStatus;
      hide Given, MayRead, ReadsOf;
      AdmittedMayRead(selection, i);
      LoadStatusIs(selection, i, a);
      status := Admit(i, a.productValid);
      if status != OK {
        return;
      }
      status := LoadImage(i, a);
      if status != OK {
        return;
      }
      status := PreparePlan(a.plan);
    }

    /** Write the attempt record and flush it; only then is the attempt committed. */
    method CommitAttempt(a: CommitAnswers) returns (status: Status)
      requires Valid()
      modifies this`stage, this`receipt, this`log
      ensures Valid()
      ensures status == if old(stage) != PREPARE_PROTOCOL then BAD_STATE
                        else if a == CommitAnswers(true, OK, true, true, OK) then OK else PROVIDER_FAILURE
      ensures stage == if status == OK then COMMIT_ATTEMPT else FAILED
      ensures log == old(log) + CommitEvents(old(stage), Record(selection.handoffMajor, input, plan), a)
    {
      hide Safe, Reads, Output, LastEntry, Durable, Record, Closed, StayedIn, Given;
      if stage != PREPARE_PROTOCOL {
        status := Fail(COMMIT_ATTEMPT, BAD_INPUT, BAD_STATE);
        return;
      }
      if !a.usable || a.begin != OK {
        status := Fail(COMMIT_ATTEMPT, COMMIT, PROVIDER_FAILURE);
        return;
      }
      ghost var before := log;
      ghost var wrote := Wrote(Record(selection.handoffMajor, input, plan), a.write);
      Append(wrote);
      if !a.write {
        status := Fail(COMMIT_ATTEMPT, COMMIT, PROVIDER_FAILURE);
        return;
      }
      Append(Flushed(a.flush));
      assert before + [wrote] + [Flushed(a.flush)] == before + [wrote, Flushed(a.flush)];
      if !a.flush || a.end != OK {
        status := Fail(COMMIT_ATTEMPT, COMMIT, PROVIDER_FAILURE);
        return;
      }
      WriteThenFlush(before, wrote);
      stage := COMMIT_ATTEMPT;
      return OK;
    }

    /** Log an event that keeps control in. */
    ghost method Append(e: Event)
      requires Bounded() && Prepared() && !Leaves(e) && !e.Planned? && !e.Read?
      modifies this`log
      ensures Bounded() && Prepared() && log == old(log) + [e]
    {
      hide Safe, StayedIn, LastEntry, Reads, Output, Given;
      Counts(log, e);
      Stay(log, e);
      GivenGrows(selection, log, e);
      log := log + [e];
    }

    /** Rebuild only the handoff plan from the final environment facts. */
    method RefreshAfterCommit(e: Environment, a: PlanAnswers) returns (status: Status)
      requires Valid()
      modifies this
      ensures Valid() && live == old(live)
      ensures status == OK <==> && old(stage) == COMMIT_ATTEMPT && selection.terminal == DIRECT_ENTRY && e.valid
                                && e.architecture == selection.architecture && e.normalizes
                                && Plannable(selection, old(layout), old(transition), old(handoffCapacity),
                                   old(output), a)
      ensures status == if old(stage) != COMMIT_ATTEMPT || selection.terminal != DIRECT_ENTRY || !e.valid
        || e.architecture != selection.architecture || !e.normalizes
                        then INCOMPLETE_ENVIRONMENT
                        else PlanStatus(selection, old(layout), old(transition), old(handoffCapacity), old(output), a)
      ensures stage == if status == OK then COMMIT_ATTEMPT else FAILED
      ensures status == OK ==>
        log == old(log) + [Planned(Ordered(), a, entry, plan.artifactSize)] && environment == e
          && output == old(output) + a.handoff.size
      ensures status != OK ==> log == old(log) && output == old(output)
      ensures layout == old(layout) && transition == old(transition) && input == old(input) && retries == old(retries)
    {
      hide Safe, Reads, Output, LastEntry, Durable, Closed, StayedIn, Plannable, Given;
      if stage != COMMIT_ATTEMPT || request != DIRECT_ENTRY || !e.valid || e.architecture != selection.architecture
        || !e.normalizes {
        status := Fail(COMMIT_ATTEMPT, BAD_INPUT, INCOMPLETE_ENVIRONMENT);
        return;
      }
      environment := e;
      ghost var before := log;
      status := PreparePlan(a);
      if status != OK {
        return;
      }
      DurableGrows(before, Planned(Ordered(), a, entry, plan.artifactSize));
      stage := COMMIT_ATTEMPT;
    }

    /** Close the environment; afterwards only the transfer remains. */
    method QuiesceEnvironment(usable: bool, quiesced: bool) returns (status: Status)
      requires Valid()
      modifies this`stage, this`receipt, this`log
      ensures Valid()
      ensures status == if old(stage) != COMMIT_ATTEMPT then BAD_STATE else if selection.terminal != DIRECT_ENTRY then
        UNSUPPORTED
                        else if usable && quiesced then OK else PROVIDER_FAILURE
      ensures stage == if status == OK then QUIESCE_ENVIRONMENT else FAILED
      ensures log == old(log) + if old(stage) == COMMIT_ATTEMPT && selection.terminal == DIRECT_ENTRY
        && usable then [Quiesced(quiesced)] else []
    {
      hide Safe, Reads, Output, LastEntry, Durable, Closed, StayedIn, Given;
      if stage != COMMIT_ATTEMPT {
        status := Fail(QUIESCE_ENVIRONMENT, BAD_INPUT, BAD_STATE);
        return;
      }
      if request != DIRECT_ENTRY {
        status := Fail(EXECUTE_TERMINAL, TERMINAL, UNSUPPORTED);
        return;
      }
      if !usable {
        status := Fail(QUIESCE_ENVIRONMENT, QUIESCE, PROVIDER_FAILURE);
        return;
      }
      ghost var before := log;
      Append(Quiesced(quiesced));
      if !quiesced {
        status := Fail(QUIESCE_ENVIRONMENT, QUIESCE, PROVIDER_FAILURE);
        return;
      }
      CloseDurable(before);
      stage := QUIESCE_ENVIRONMENT;
      return OK;
    }

    /** Hand the committed managed image to the launcher; whatever it returns, the transaction is over. */
    method ExecuteTerminal(a: LaunchAnswers) returns (status: Status)
      requires Valid()
      modifies this`stage, this`receipt, this`log
      ensures Valid() && stage == FAILED
      ensures status == if old(stage) != COMMIT_ATTEMPT || selection.terminal != FIRMWARE_MANAGED then BAD_STATE
                        else if a.usable && a.returned && a.timeout then TIMEOUT else PROVIDER_FAILURE
      ensures log == old(log) + if old(stage) == COMMIT_ATTEMPT && selection.terminal == FIRMWARE_MANAGED
        && a.usable then [Launched] else []
    {
      hide Safe, Reads, Output, LastEntry, Durable, Closed, StayedIn, Given;
      if stage != COMMIT_ATTEMPT || request != FIRMWARE_MANAGED {
        status := Fail(EXECUTE_TERMINAL, BAD_INPUT, BAD_STATE);
        return;
      }
      if !a.usable {
        status := Fail(EXECUTE_TERMINAL, TERMINAL, PROVIDER_FAILURE);
        return;
      }
      stage := EXECUTE_TERMINAL;
      Counts(log, Launched);
      Leave(log, Launched);
      GivenGrows(selection, log, Launched);
      log := log + [Launched];
      status := Fail(EXECUTE_TERMINAL, TERMINAL, if a.returned && a.timeout then TIMEOUT else PROVIDER_FAILURE);
    }

    /** Transfer control with the sealed entry, or halt. Neither returns to the caller. */
    method TransferControl()
      requires Valid()
      modifies this`stage, this`log
      ensures Valid()
      ensures var go := old(stage) == QUIESCE_ENVIRONMENT && entry.Some? && entry.value.sealed;
        && stage == (if go then TRANSFER else old(stage))
        && log == old(log) + if go then [Transferred(entry.value)] else []
    {
      hide Safe, Reads, Output, LastEntry, Durable, Closed, StayedIn, Given;
      if stage != QUIESCE_ENVIRONMENT || request != DIRECT_ENTRY || !entry.value.sealed {
        return;
      }
      stage := TRANSFER;
      ghost var leave := Transferred(entry.value);
      Counts(log, leave);
      Leave(log, leave);
      GivenGrows(selection, log, leave);
      log := log + [leave];
    }

    method Perform(call: Call)
      requires Valid()
      modifies this
      ensures Valid()
      ensures old(stage) == FAILED ==> stage == FAILED && log == old(log)
    {
      hide Safe, Reads, Output, LastEntry, Durable, Closed, StayedIn, Plannable, Preparable, Record, Given;
      var status;
      match call
      case PrepareCall(i, a) => status := Prepare(i, a);
      case CommitCall(a) => status := CommitAttempt(a);
      case RefreshCall(e, a) => status := RefreshAfterCommit(e, a);
      case QuiesceCall(usable, quiesced) => status := QuiesceEnvironment(usable, quiesced);
      case ExecuteCall(a) => status := ExecuteTerminal(a);
      case TransferCall => TransferControl();
    }
  }

  lemma WriteThenFlush(log: seq<Event>, wrote: Event)
    requires wrote.Wrote? && wrote.ok
    ensures Durable(log + [wrote] + [Flushed(true)])
  {
    var more := log + [wrote] + [Flushed(true)];
    assert more[|log|] == wrote && more[|log| + 1] == Flushed(true);
  }

  lemma CloseDurable(log: seq<Event>)
    requires Durable(log)
    ensures Closed(log + [Quiesced(true)])
  {
    var more := log + [Quiesced(true)];
    assert more[|log|] == Quiesced(true) && more[..|log|] == log;
  }

  /** The first `n` reads of an input. */
  function ReadsOf(i: Input, read: nat -> bool, n: nat): (log: seq<Event>) {
    if n == 0 then [] else ReadsOf(i, read, n - 1) + [Read(i, read(n - 1))]
  }

  /** What capture, environment and source checks admit is exactly what may be read. */
  lemma AdmittedMayRead(selection: Selection, i: Input)
    ensures Complete(selection, i) && Suitable(selection, i.environment) && Readable(selection, i) && i.named <==>
      MayRead(selection, i)
    ensures MayRead(selection, i) ==>
      i.environment.valid && i.environment.normalizes && i.environment.architecture == selection.architecture
  {
  }

  /** What can be planned is exactly what may be planned, within the rest of the output budget. */
  lemma PlannableIs(selection: Selection, o: Order, output: nat, a: PlanAnswers, entry: Option<Entry>, size: word)
    requires o.environment.valid && o.environment.normalizes && o.environment.architecture == selection.architecture
    requires selection.pageSize != 0
      && size == (if selection.terminal == DIRECT_ENTRY && a.handoff.Made? then a.handoff.size else 0)
    requires a.request.Some? && selection.terminal == DIRECT_ENTRY && a.entry.Some? ==> entry == Some(Routed(o, a))
    ensures Plannable(selection, o.layout, o.transition, o.capacity, output, a) <==>
      MayPlan(selection, o, a, entry, size)
        && (selection.terminal == DIRECT_ENTRY ==> output + size <= selection.limits.maxHandoff)
  {
    hide Bridges, LeadsHigh;
    BridgesIs(selection, o, a);
    if a.request.Some? {
      var q := a.request.value;
      assert q.kind == selection.terminal && q.valid ==>
        a.request == Some(Request(selection.terminal, true, q.bridged));
    }
  }

  lemma BridgesIs(selection: Selection, o: Order, a: PlanAnswers)
    requires selection.pageSize != 0
    ensures HasTransition(o.transition) <==> o.transition != Transition(false, 0, 0)
    ensures Bridges(selection, o.layout, o.transition, a) <==> LeadsHigh(selection, o, a)
  {
    var pages, size := a.tablePages, selection.pageSize;
    if pages * size <= U64_MAX && pages > U64_MAX / size {
      MulLe(U64_MAX / size + 1, pages, size);
    }
    if pages != 0 {
      MulLe(1, pages, size);
    }
  }

  lemma NothingRead()
    ensures Reads([]) == 0 && StayedIn([])
  {
  }

  lemma CompleteDirect(selection: Selection, i: Input)
    requires Complete(selection, i)
    ensures selection.terminal == DIRECT_ENTRY ==> i.hasLayout
  {
  }

  // ---- Whole runs

  datatype Call =
    | PrepareCall(input: Input, prepareAnswers: PrepareAnswers)
    | CommitCall(commitAnswers: CommitAnswers)
    | RefreshCall(environment: Environment, planAnswers: PlanAnswers)
    | QuiesceCall(usable: bool, quiesced: bool)
    | ExecuteCall(launchAnswers: LaunchAnswers)
    | TransferCall

  /** Any calls in any order, with any callback answers, keep every safety and budget promise. */
  method Run(selection: Selection, usable: bool, calls: seq<Call>) returns (t: Transaction)
    ensures t.selection == selection && t.Valid()
    ensures Safe(t.log) && Reads(t.log) <= selection.limits.maxRetries + 1
    ensures Output(t.log) <= selection.limits.maxHandoff && t.input <= selection.limits.maxInput
    ensures selection.terminal == DIRECT_ENTRY ==> t.components <= selection.limits.maxComponents
    ensures Given(selection, t.log)
  {
    hide Safe, Reads, Output, LastEntry, Durable, Closed, StayedIn, Plannable, Preparable, Given;
    t := new Transaction(selection, usable);
    for i := 0 to |calls|
      invariant fresh(t) && t.selection == selection && t.Valid()
    {
      t.Perform(calls[i]);
    }
  }

  /** FAILED is absorbing: no call sequence logs another event or leaves the stage. */
  method RunAfterFailure(t: Transaction, calls: seq<Call>)
    requires t.Valid() && t.stage == FAILED
    modifies t
    ensures t.Valid() && t.stage == FAILED && t.log == old(t.log)
  {
    for i := 0 to |calls|
      invariant t.Valid() && t.stage == FAILED && t.log == old(t.log)
    {
      t.Perform(calls[i]);
    }
  }
}

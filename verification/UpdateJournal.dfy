/**
 The update journal: two record slots and two selector slots on media that may tear or
 lose every write that no flush has confirmed. Digests are idealised: a digest is the
 record it was taken of, and a torn area decodes to nothing.
 */
module UpdateJournal {
  import opened Bytes

  datatype Status =
    | OK | UNINITIALIZED | IO | SHORT_IO | CORRUPT | CONFLICT | REPLAY | OVERFLOW | STATE | INTERRUPTED

  datatype Meta = Meta(generation: word, wellFormed: bool, content: nat)

  /** A journal record; its predecessor digest stands for the whole chain behind it. */
  datatype Record = Record(meta: Meta, target: nat, previous: Option<Record>)

  datatype Selector = Selector(slot: nat, record: Record)

  /** What an area of the media decodes to. */
  datatype Cell<T> = Blank | Torn | Holds(value: T)

  datatype Media = Media(records: seq<Cell<Record>>, selectors: seq<Cell<Selector>>)

  predicate Shaped(m: Media) {
    && |m.records| == 2 && |m.selectors| == 2
    && forall i :: 0 <= i < 2 && m.selectors[i].Holds? ==> m.selectors[i].value.slot < 2
  }

  function Other(i: nat): (j: nat)
    requires i < 2
    ensures j < 2 && j != i
  {
    1 - i
  }

  /** Every commit behind a record, oldest first. */
  function History(r: Record): (h: seq<(Meta, nat)>) {
    (match r.previous case None => [] case Some(p) => History(p)) + [(r.meta, r.target)]
  }

  // ---- Opening

  datatype Opening =
    | Refused(status: Status)
    | Opened(selector: nat, slot: nat, record: Record)

  function Generation(s: Selector): (g: word) {
    s.record.meta.generation
  }

  /** Which selector counts: the valid one, or of two the one with the higher generation. */
  function Choose(a: Cell<Selector>, b: Cell<Selector>): (i: nat)
    requires a.Holds? || b.Holds?
    ensures i < 2 && (if i == 0 then a.Holds? else b.Holds?)
  {
    if !a.Holds? then 1 else if !b.Holds? then 0 else if Generation(b.value) > Generation(a.value) then 1 else 0
  }

  function OpenOf(m: Media, minimum: nat): (o: Opening)
    requires Shaped(m)
  {
    var a, b := m.selectors[0], m.selectors[1];
    if !a.Holds? && !b.Holds? then Refused(if a.Blank? && b.Blank? then UNINITIALIZED else CORRUPT)
    else if a.Holds? && b.Holds? && Generation(a.value) == Generation(b.value) then Refused(CONFLICT)
    else
      var i := Choose(a, b);
      var s := m.selectors[i].value;
      if Generation(s) < minimum then Refused(REPLAY)
      else if m.records[s.slot] != Holds(s.record) then Refused(CORRUPT)
      else Opened(i, s.slot, s.record)
  }

  /** A selector that cannot outvote the record. */
  predicate Weaker(c: Cell<Selector>, record: Record) {
    c.Holds? ==> Generation(c.value) < record.meta.generation
  }

  /** Selector `i` names `record` in `slot`, the record is there, and the other selector is weaker. */
  predicate Stable(m: Media, i: nat, slot: nat, record: Record) {
    && Shaped(m) && i < 2 && slot < 2
    && m.selectors[i] == Holds(Selector(slot, record)) && m.records[slot] == Holds(record)
    && Weaker(m.selectors[Other(i)], record)
  }

  /** Opening succeeds exactly on stable media, and yields what is stable. */
  lemma OpenedIsStable(m: Media, minimum: nat, i: nat, slot: nat, record: Record)
    requires Shaped(m)
    ensures OpenOf(m, minimum) == Opened(i, slot, record) <==>
      Stable(m, i, slot, record) && record.meta.generation >= minimum
  {
  }

  // ---- Media that forget

  datatype Choice = Old | New | Lost

  /** What survives of an area whose last write was not confirmed. */
  function Survivor<T(==)>(durable: Cell<T>, seen: Cell<T>, c: Choice): (r: Cell<T>) {
    if durable == seen || c.Old? then durable else if c.New? then seen else Torn
  }

  /** The media after a power cut; choices 0 and 1 are for the records, 2 and 3 for the selectors. */
  function Cut(d: Media, v: Media, f: nat -> Choice): (m: Media)
    requires Shaped(d) && Shaped(v)
    ensures Shaped(m)
  {
    Media([Survivor(d.records[0], v.records[0], f(0)), Survivor(d.records[1], v.records[1], f(1))],
          [Survivor(d.selectors[0], v.selectors[0], f(2)), Survivor(d.selectors[1], v.selectors[1], f(3))])
  }

  /** Between two records: the old one is intact, and only a written new record can be selected instead. */
  ghost predicate Limbo(d: Media, v: Media, i: nat, slot: nat, record: Record, next: Record) {
    && Shaped(d) && Shaped(v) && i < 2 && slot < 2 && next.meta.generation > record.meta.generation
    && d.selectors[i] == v.selectors[i] == Holds(Selector(slot, record))
       && d.records[slot] == v.records[slot] == Holds(record)
    && Candidate(d, d, v, i, slot, record, next) && Candidate(v, d, v, i, slot, record, next)
  }

  /** The other selector of `m` is weaker, or names the next record, which then is on the media. */
  ghost predicate Candidate(m: Media, d: Media, v: Media, i: nat, slot: nat, record: Record, next: Record)
    requires Shaped(m) && Shaped(d) && Shaped(v) && i < 2 && slot < 2
  {
    var c := m.selectors[Other(i)];
    || Weaker(c, record)
    || (c == Holds(Selector(Other(slot), next)) && d.records[Other(slot)] == v.records[Other(slot)] == Holds(next))
  }

  /** The old record or the next one, whichever opens. */
  ghost predicate Either(m: Media, i: nat, slot: nat, record: Record, next: Record) {
    Stable(m, i, slot, record) || (i < 2 && slot < 2 && Stable(m, Other(i), Other(slot), next))
  }

  /** Whatever a power cut keeps, the media opens to the old record or the next. */
  lemma CutIsAtomic(d: Media, v: Media, i: nat, slot: nat, record: Record, next: Record, f: nat -> Choice)
    requires Limbo(d, v, i, slot, record, next)
    ensures Either(Cut(d, v, f), i, slot, record, next)
  {
  }

  datatype Selected = Selected(selector: nat, slot: nat, record: Record)

  /** A selector is chosen and above the floor, so that the record is read. */
  predicate ReachesRecord(m: Media, minimum: nat)
    requires Shaped(m)
  {
    var a, b := m.selectors[0], m.selectors[1];
    && (a.Holds? || b.Holds?) && !(a.Holds? && b.Holds? && Generation(a.value) == Generation(b.value))
    && minimum <= (if a.Holds? && (b.Holds? ==> Generation(a.value) > Generation(b.value)) then Generation(a.value)
                   else Generation(b.value))
  }

  /** What opening reports when reads may fail: the first failing read of those it makes. */
  function OpenVia(m: Media, minimum: nat, reads_: nat -> Transfer): (o: Opening)
    requires Shaped(m)
  {
    if !reads_(0).Complete? then Refused(TransferStatus(reads_(0)))
    else if !reads_(1).Complete? then Refused(TransferStatus(reads_(1)))
    else if ReachesRecord(m, minimum) && !reads_(2).Complete? then Refused(TransferStatus(reads_(2)))
    else OpenOf(m, minimum)
  }

  // ---- One commit

  datatype Transfer = Complete | Failed | Short

  /** A write: complete, or refused with the area left as any of old, new or torn. */
  datatype WriteAnswer = WriteAnswer(transfer: Transfer, left: Choice)

  /** A flush: everything becomes durable, or it fails and any of it may have. */
  datatype FlushAnswer = FlushAnswer(ok: bool, kept: nat -> Choice)

  /** The provider's answers to one commit, and where the observer interrupts it. */
  datatype CommitAnswers = CommitAnswers(
    stop: nat -> bool, recordWrite: WriteAnswer, recordFlush: FlushAnswer, readback: Transfer,
    selectorWrite: WriteAnswer, selectorFlush: FlushAnswer, reopen: nat -> Transfer)

  function TransferStatus(t: Transfer): (s: Status) {
    match t case Complete => OK case Failed => IO case Short => SHORT_IO
  }

  /** What a write leaves in its area. */
  function After<T(==)>(old_: Cell<T>, value: T, a: WriteAnswer): (c: Cell<T>) {
    if a.transfer.Complete? then Holds(value) else Survivor(old_, Holds(value), a.left)
  }

  /** The media as the provider shows them, and what of them has been confirmed. */
  datatype Store = Store(seen: Media, durable: Media)

  predicate Fit(s: Store) {
    Shaped(s.seen) && Shaped(s.durable)
  }

  function AfterFlush(s: Store, a: FlushAnswer): (t: Store)
    requires Fit(s)
    ensures Fit(t)
  {
    Store(s.seen, if a.ok then s.seen else Cut(s.durable, s.seen, a.kept))
  }

  function PutRecord(m: Media, slot: nat, c: Cell<Record>): (n: Media)
    requires Shaped(m) && slot < 2
    ensures Shaped(n)
  {
    m.(records := m.records[slot := c])
  }

  function PutSelector(m: Media, i: nat, c: Cell<Selector>): (n: Media)
    requires Shaped(m) && i < 2 && (c.Holds? ==> c.value.slot < 2)
    ensures Shaped(n)
  {
    m.(selectors := m.selectors[i := c])
  }

  /** The record flush is reached; the record is durable and read back. */
  predicate RecordWritten(a: CommitAnswers) {
    !a.stop(0) && a.recordWrite.transfer.Complete? && !a.stop(1) && !a.stop(2)
  }

  predicate RecordDone(a: CommitAnswers) {
    RecordWritten(a) && a.recordFlush.ok && !a.stop(3) && !a.stop(4) && a.readback.Complete? && !a.stop(5) && !a.stop(6)
  }

  /** The selector flush is reached; the selector is durable. */
  predicate SelectorWritten(a: CommitAnswers) {
    a.selectorWrite.transfer.Complete? && !a.stop(7) && !a.stop(8)
  }

  predicate SelectorDone(a: CommitAnswers) {
    SelectorWritten(a) && a.selectorFlush.ok && !a.stop(9) && !a.stop(10)
  }

  /** How the record part of a commit ends. */
  function RecordStatus(a: CommitAnswers): (s: Status)
    ensures s == OK <==> RecordDone(a)
  {
    if a.stop(0) then INTERRUPTED
    else if !a.recordWrite.transfer.Complete? then TransferStatus(a.recordWrite.transfer)
    else if a.stop(1) || a.stop(2) then INTERRUPTED
    else if !a.recordFlush.ok then IO
    else if a.stop(3) || a.stop(4) then INTERRUPTED
    else if !a.readback.Complete? then TransferStatus(a.readback)
    else if a.stop(5) || a.stop(6) then INTERRUPTED
    else OK
  }

  /** How the selector part of a commit ends. */
  function SelectorStatus(a: CommitAnswers): (s: Status)
    ensures s == OK <==> SelectorDone(a)
  {
    if !a.selectorWrite.transfer.Complete? then TransferStatus(a.selectorWrite.transfer)
    else if a.stop(7) || a.stop(8) then INTERRUPTED
    else if !a.selectorFlush.ok then IO
    else if a.stop(9) || a.stop(10) then INTERRUPTED
    else OK
  }

  /** The store after the record part of a commit. */
  function Recorded(s: Store, slot: nat, record: Record, a: CommitAnswers): (t: Store)
    requires Fit(s) && slot < 2
    ensures Fit(t)
  {
    if a.stop(0) then s
    else
      var w := s.(seen := PutRecord(s.seen, slot, After(s.seen.records[slot], record, a.recordWrite)));
      if RecordWritten(a) then AfterFlush(w, a.recordFlush) else w
  }

  /** The store after the selector part of a commit. */
  function Pointed(s: Store, i: nat, selector: Selector, a: CommitAnswers): (t: Store)
    requires Fit(s) && i < 2 && selector.slot < 2
    ensures Fit(t)
  {
    var w := s.(seen := PutSelector(s.seen, i, After(s.seen.selectors[i], selector, a.selectorWrite)));
    if SelectorWritten(a) then AfterFlush(w, a.selectorFlush) else w
  }

  /** The store after a whole commit, done or not. */
  function Committed(s: Store, next: Selected, a: CommitAnswers): (t: Store)
    requires Fit(s) && next.selector < 2 && next.slot < 2
    ensures Fit(t)
  {
    var r := Recorded(s, next.slot, next.record, a);
    if RecordDone(a) then Pointed(r, next.selector, Selector(next.slot, next.record), a) else r
  }

  class Journal {
    const minimum: nat
    var seen: Media
    var durable: Media

    constructor (minimum: nat, media: Media)
      requires Shaped(media)
      ensures this.minimum == minimum && seen == durable == media
    {
      this.minimum := minimum;
      seen, durable := media, media;
    }

    ghost predicate Valid()
      reads this
    {
      Shaped(seen) && Shaped(durable)
    }

    ghost function Now(): (s: Store)
      reads this
    {
      Store(seen, durable)
    }

    /** Power cut and restart. */
    method Restart(kept: nat -> Choice)
      requires Valid()
      modifies this
      ensures Valid() && seen == durable == Cut(old(durable), old(seen), kept)
    {
      seen := Cut(durable, seen, kept);
      durable := seen;
    }

    /** Read both selectors and the record of the newer one. */
    method Open(reads_: nat -> Transfer) returns (r: Opening)
      requires Valid()
      ensures r == OpenVia(seen, minimum, reads_)
      ensures reads_(0).Complete? && reads_(1).Complete? && reads_(2).Complete? ==> r == OpenOf(seen, minimum)
      ensures r.Opened? <==>
        OpenOf(seen, minimum).Opened? && reads_(0).Complete? && reads_(1).Complete? && reads_(2).Complete?
      ensures r.Refused? ==> r.status != OK
      ensures r == Refused(UNINITIALIZED) <==>
        OpenOf(seen, minimum) == Refused(UNINITIALIZED) && reads_(0).Complete? && reads_(1).Complete?
    {
      for i := 0 to 2
        invariant forall k :: 0 <= k < i ==> reads_(k).Complete?
      {
        if !reads_(i).Complete? {
          return Refused(TransferStatus(reads_(i)));
        }
      }
      var a, b := seen.selectors[0], seen.selectors[1];
      if !a.Holds? && !b.Holds? {
        return Refused(if a.Blank? && b.Blank? then UNINITIALIZED else CORRUPT);
      }
      if a.Holds? && b.Holds? && Generation(a.value) == Generation(b.value) {
        return Refused(CONFLICT);
      }
      var selected := if !a.Holds? then 1 else if !b.Holds? then 0
        else if Generation(b.value) > Generation(a.value) then 1 else 0;
      var selector := seen.selectors[selected].value;
      if Generation(selector) < minimum {
        return Refused(REPLAY);
      }
      if !reads_(2).Complete? {
        return Refused(TransferStatus(reads_(2)));
      }
      if seen.records[selector.slot] != Holds(selector.record) {
        return Refused(CORRUPT);
      }
      return Opened(selected, selector.slot, selector.record);
    }

    method WriteRecord(slot: nat, record: Record, a: WriteAnswer) returns (status: Status)
      requires Valid() && slot < 2
      modifies this`seen
      ensures Valid() && status == TransferStatus(a.transfer)
      ensures seen == old(seen).(records := old(seen).records[slot := After(old(seen).records[slot], record, a)])
    {
      seen := seen.(records := seen.records[slot := After(seen.records[slot], record, a)]);
      return TransferStatus(a.transfer);
    }

    method WriteSelector(i: nat, selector: Selector, a: WriteAnswer) returns (status: Status)
      requires Valid() && i < 2 && selector.slot < 2
      modifies this`seen
      ensures Valid() && status == TransferStatus(a.transfer)
      ensures seen == old(seen).(selectors := old(seen).selectors[i := After(old(seen).selectors[i], selector, a)])
    {
      seen := seen.(selectors := seen.selectors[i := After(seen.selectors[i], selector, a)]);
      return TransferStatus(a.transfer);
    }

    method Flush(a: FlushAnswer) returns (status: Status)
      requires Valid()
      modifies this`durable
      ensures Valid() && status == if a.ok then OK else IO
      ensures durable == if a.ok then seen else Cut(old(durable), seen, a.kept)
    {
      if a.ok {
        durable := seen;
        return OK;
      }
      durable := Cut(durable, seen, a.kept);
      return IO;
    }

    /** Write the next record to its slot, make it durable and read it back. */
    method StoreRecord(slot: nat, next: Record, a: CommitAnswers) returns (status: Status)
      requires Valid() && slot < 2
      modifies this
      ensures Valid() && Now() == Recorded(old(Now()), slot, next, a)
      ensures status == RecordStatus(a)
      ensures seen.selectors == old(seen.selectors) && seen.records[Other(slot)] == old(seen.records[Other(slot)])
      ensures old(seen == durable) ==>
        seen.selectors == durable.selectors && seen.records[Other(slot)] == durable.records[Other(slot)]
      ensures status == OK ==> seen == durable && seen.records[slot] == Holds(next)
    {
      if a.stop(0) {
        return INTERRUPTED;
      }
      status := WriteRecord(slot, next, a.recordWrite);
      if status != OK {
        return;
      }
      if a.stop(1) || a.stop(2) {
        return INTERRUPTED;
      }
      status := Flush(a.recordFlush);
      if status != OK {
        return;
      }
      if a.stop(3) || a.stop(4) {
        return INTERRUPTED;
      }
      if !a.readback.Complete? {
        return TransferStatus(a.readback);
      }
      if seen.records[slot] != Holds(next) {
        return CORRUPT;
      }
      if a.stop(5) || a.stop(6) {
        return INTERRUPTED;
      }
      return OK;
    }

    /** Point the other selector at the next record and make that durable. */
    method SwitchSelector(i: nat, selector: Selector, a: CommitAnswers) returns (status: Status)
      requires Valid() && i < 2 && selector.slot < 2
      modifies this
      ensures Valid() && Now() == Pointed(old(Now()), i, selector, a)
      ensures status == SelectorStatus(a)
      ensures seen.records == old(seen.records) && seen.selectors[Other(i)] == old(seen.selectors[Other(i)])
      ensures old(seen == durable) ==>
        durable.records == seen.records && durable.selectors[Other(i)] == seen.selectors[Other(i)]
      ensures seen.selectors[i] in {old(seen.selectors[i]), Torn, Holds(selector)}
      ensures seen.selectors[i] != Holds(selector) ==> durable == old(durable)
      ensures status == OK ==> seen == durable && seen.selectors[i] == Holds(selector)
    {
      status := WriteSelector(i, selector, a.selectorWrite);
      if status != OK {
        return;
      }
      if a.stop(7) || a.stop(8) {
        return INTERRUPTED;
      }
      status := Flush(a.selectorFlush);
      if status != OK {
        return;
      }
      if a.stop(9) || a.stop(10) {
        return INTERRUPTED;
      }
      return OK;
    }

    /** Append one record behind the current one, or write the first. */
    method CommitRecord(current: Option<Selected>, meta: Meta, target: nat, a: CommitAnswers) returns (status: Status)
      requires Valid() && Startable(current, seen)
        && (current.Some? ==> current.value.record.meta.generation >= minimum)
      modifies this
      ensures Valid()
      ensures Now() == if Admissible(current, meta, target)
                       then Committed(old(Now()), Following(current, meta, target), a) else old(Now())
      ensures status == OK <==>
        && Admissible(current, meta, target) && RecordDone(a) && SelectorDone(a) && meta.generation >= minimum
        && a.reopen(0).Complete? && a.reopen(1).Complete? && a.reopen(2).Complete? && !a.stop(11)
      ensures !Admissible(current, meta, target) ==>
        var next := current.Some? ==> meta.generation == current.value.record.meta.generation + 1;
        status == if next then STATE else OVERFLOW
      ensures Admissible(current, meta, target) && !RecordDone(a) ==> status == RecordStatus(a)
      ensures Admissible(current, meta, target) && RecordDone(a) && !SelectorDone(a) ==> status == SelectorStatus(a)
      ensures Admissible(current, meta, target) && RecordDone(a) && SelectorDone(a) ==>
        status == (match OpenVia(seen, minimum, a.reopen)
                   case Refused(s) => s
                   case Opened(_, _, _) => if a.stop(11) then INTERRUPTED else OK)
      ensures status == OK ==> seen == durable && Opens(seen, Following(current, meta, target))
      ensures Calm(current, old(Now())) ==>
        Calm(current, Now()) || Pending(current, durable, seen, Following(current, meta, target))
    {
      hide Stable, Pending, OpenOf, Startable, Recorded, Pointed, Calm, RecordDone, SelectorDone, RecordStatus,
        SelectorStatus;
      StartableBounds(current, seen);
      var next := Following(current, meta, target);
      ghost var was := Now();
      if current.Some?
        && (current.value.record.meta.generation == U64_MAX
           || meta.generation != current.value.record.meta.generation + 1) {
        return OVERFLOW;
      }
      if current.None? && meta.generation != 1 {
        return STATE;
      }
      if target >= 2 || !meta.wellFormed {
        return STATE;
      }
      if Calm(current, was) {
        CommitPends(current, was, next, a);
      }
      status := StoreRecord(next.slot, next.record, a);
      if status != OK {
        return;
      }
      status := SwitchSelector(next.selector, Selector(next.slot, next.record), a);
      if status != OK {
        return;
      }
      CommitOpens(current, was, next, a);
      OpenedIsStable(seen, minimum, next.selector, next.slot, next.record);
      var reopened := Open(a.reopen);
      if reopened.Refused? {
        return reopened.status;
      }
      OpenedIsStable(seen, minimum, reopened.selector, reopened.slot, reopened.record);
      OpenedIsStable(seen, 0, reopened.selector, reopened.slot, reopened.record);
      OpenedIsStable(seen, 0, next.selector, next.slot, next.record);
      if reopened.record != next.record {
        return CORRUPT;
      }
      if a.stop(11) {
        return INTERRUPTED;
      }
      return OK;
    }

    /** Provision an empty journal; anything but an empty journal is left alone. */
    method Initialize(meta: Meta, target: nat, reads_: nat -> Transfer, a: CommitAnswers) returns (status: Status)
      requires Valid() && meta.generation == 1 && target < 2
      modifies this
      ensures Valid()
      ensures OpenOf(old(seen), minimum) != Refused(UNINITIALIZED) ==> status != OK && Now() == old(Now())
      ensures Now() == if Provisions(old(seen), minimum, meta, reads_)
                       then Committed(old(Now()), Following(None, meta, target), a) else old(Now())
      ensures status == OK <==>
        && Provisions(old(seen), minimum, meta, reads_) && RecordDone(a) && SelectorDone(a) && minimum <= 1
        && a.reopen(0).Complete? && a.reopen(1).Complete? && a.reopen(2).Complete? && !a.stop(11)
      ensures status == OK ==> seen == durable && Opens(seen, Selected(0, 0, Record(meta, target, None)))
      ensures OpenVia(old(seen), minimum, reads_) != Refused(UNINITIALIZED) ==>
        status == (match OpenVia(old(seen), minimum, reads_) case Opened(_, _, _) => STATE case Refused(s) => s)
      ensures OpenVia(old(seen), minimum, reads_) == Refused(UNINITIALIZED) && !meta.wellFormed ==> status == STATE
    {
      hide Recorded, Pointed, RecordDone, SelectorDone;
      var existing := Open(reads_);
      if existing != Refused(UNINITIALIZED) {
        return if existing.Opened? then STATE else existing.status;
      }
      assert seen.selectors == [seen.selectors[0], seen.selectors[1]];
      status := CommitRecord(None, meta, target, a);
    }

    /** Open and commit once; after a failure restart, or go on if the journal still shows the old record. */
    method Attempt(step: Step, ghost last: Selected) returns (status: Status, ghost effect: bool, ghost after: Selected)
      requires Valid() && Calm(Some(last), Now()) && last.record.meta.generation >= minimum
      modifies this
      ensures Valid() && Calm(Some(after), Now()) && after.record.meta.generation >= minimum
      ensures status == OK ==> effect
      ensures after.record == if effect then Record(step.meta, step.target, Some(last.record)) else last.record
    {
      hide Stable, Pending, OpenOf, Cut, Committed;
      effect, after := false, last;
      CalmOpens(Now(), last, minimum);
      var current := Open(step.reads_);
      if current.Refused? {
        return current.status, false, last;
      }
      var c := Selected(current.selector, current.slot, current.record);
      ghost var was, next := Now(), Following(Some(c), step.meta, step.target);
      status := CommitRecord(Some(c), step.meta, step.target, step.answers);
      if status == OK {
        return status, true, next;
      }
      ghost var left := Now();
      if step.resume {
        var shown := Open(step.check);
        if shown == current {
          OpenedIsStable(seen, minimum, c.selector, c.slot, c.record);
          if left != was {
            StillCalm(was, c, next, step.answers);
          }
          return;
        }
      }
      Restart(step.kept);
      if Calm(Some(c), left) {
        CalmCut(left, c, step.kept);
      } else {
        RestartOpens(left.durable, left.seen, c, next, step.kept);
        effect := !Opens(seen, c);
        after := if effect then next else c;
      }
    }
  }

  lemma StableShape(m: Media, c: Selected)
    requires Opens(m, c)
    ensures c.selector < 2 && c.slot < 2
  {
  }

  lemma RestartOpens(d: Media, v: Media, c: Selected, next: Selected, f: nat -> Choice)
    requires Pending(Some(c), d, v, next) && c.selector < 2 && c.slot < 2 && next.selector == Other(c.selector)
      && next.slot == Other(c.slot)
    ensures Shaped(d) && Shaped(v) && (Opens(Cut(d, v, f), c) || Opens(Cut(d, v, f), next))
    ensures next.record.meta.generation > c.record.meta.generation
  {
    CutIsAtomic(d, v, c.selector, c.slot, c.record, next.record, f);
  }

  /** The media a commit starts from: stable at the current record, or empty. */
  ghost predicate Startable(current: Option<Selected>, m: Media) {
    match current
    case Some(c) => Stable(m, c.selector, c.slot, c.record)
    case None => Shaped(m) && m.selectors == [Blank, Blank]
  }

  lemma StartableBounds(current: Option<Selected>, m: Media)
    requires Startable(current, m)
    ensures current.Some? ==> current.value.selector < 2 && current.value.slot < 2
  {
  }

  /** Shown and confirmed media agree on the current record, or on an empty journal. */
  ghost predicate Calm(current: Option<Selected>, s: Store) {
    Startable(current, s.seen) && Startable(current, s.durable)
  }

  /** The commits the code does not refuse at once. */
  predicate Admissible(current: Option<Selected>, meta: Meta, target: nat) {
    && target < 2 && meta.wellFormed
    && match current
       case Some(c) => c.record.meta.generation < U64_MAX && meta.generation == c.record.meta.generation + 1
       case None => meta.generation == 1
  }

  /** The first commit is started: the journal reads as empty. */
  predicate Provisions(m: Media, minimum: nat, meta: Meta, reads_: nat -> Transfer)
    requires Shaped(m)
  {
    OpenOf(m, minimum) == Refused(UNINITIALIZED) && reads_(0).Complete? && reads_(1).Complete? && meta.wellFormed
  }

  lemma CalmOpens(s: Store, c: Selected, minimum: nat)
    requires Calm(Some(c), s)
    ensures c.selector < 2 && c.slot < 2 && Fit(s)
    ensures c.record.meta.generation >= minimum ==> OpenOf(s.seen, minimum) == Opened(c.selector, c.slot, c.record)
  {
    OpenedIsStable(s.seen, minimum, c.selector, c.slot, c.record);
  }

  lemma CalmCut(s: Store, c: Selected, f: nat -> Choice)
    requires Calm(Some(c), s)
    ensures Fit(s) && Calm(Some(c), Store(Cut(s.durable, s.seen, f), Cut(s.durable, s.seen, f)))
  {
  }

  /** Where and what the next commit writes: the slots that are not in use. */
  function Following(current: Option<Selected>, meta: Meta, target: nat): (n: Selected)
    requires current.Some? ==> current.value.selector < 2 && current.value.slot < 2
    ensures n.selector < 2 && n.slot < 2
  {
    match current
    case None => Selected(0, 0, Record(meta, target, None))
    case Some(c) => Selected(Other(c.selector), Other(c.slot), Record(meta, target, Some(c.record)))
  }

  predicate Opens(m: Media, c: Selected) {
    Stable(m, c.selector, c.slot, c.record)
  }

  /** A commit is under way. */
  ghost predicate Pending(current: Option<Selected>, d: Media, v: Media, next: Selected) {
    match current
    case Some(c) => Limbo(d, v, c.selector, c.slot, c.record, next.record)
    case None => FirstLimbo(d, v, next.record)
  }

  /** The next commit of the current record, with a higher generation. */
  ghost predicate Follows(current: Option<Selected>, next: Selected) {
    && next.selector < 2 && next.slot < 2
    && match current
       case Some(c) => c.selector < 2 && c.slot < 2 && next.selector == Other(c.selector) && next.slot == Other(c.slot)
                       && next.record.meta.generation > c.record.meta.generation
       case None => next.selector == 0 && next.slot == 0
  }

  /** The record part of a commit touches neither the selectors nor the slot in use. */
  lemma RecordPends(current: Option<Selected>, s: Store, next: Selected, a: CommitAnswers)
    requires Calm(current, s) && Follows(current, next)
    ensures Fit(s) && var t := Recorded(s, next.slot, next.record, a);
      && Calm(current, t) && Pending(current, t.durable, t.seen, next)
      && (RecordDone(a) ==> t.seen == t.durable && t.seen.records[next.slot] == Holds(next.record))
  {
    var t := Recorded(s, next.slot, next.record, a);
    if current.None? {
      assert t.seen.selectors == [Blank, Blank] && t.durable.selectors == [Blank, Blank];
    }
  }

  /** A commit from a calm store leaves only states between the old and the next record. */
  lemma CommitPends(current: Option<Selected>, s: Store, next: Selected, a: CommitAnswers)
    requires Calm(current, s) && Follows(current, next)
    ensures Fit(s) && Pending(current, Committed(s, next, a).durable, Committed(s, next, a).seen, next)
  {
    hide Recorded;
    RecordPends(current, s, next, a);
  }

  /** A commit that is done opens to the next record, whatever was confirmed before. */
  lemma CommitOpens(current: Option<Selected>, s: Store, next: Selected, a: CommitAnswers)
    requires Fit(s) && Startable(current, s.seen) && Follows(current, next) && RecordDone(a) && SelectorDone(a)
    ensures Committed(s, next, a).seen == Committed(s, next, a).durable && Opens(Committed(s, next, a).seen, next)
  {
  }

  /** A failed commit that still shows the old record has confirmed nothing else. */
  lemma StillCalm(s: Store, c: Selected, next: Selected, a: CommitAnswers)
    requires Calm(Some(c), s) && Follows(Some(c), next) && Fit(s) && Opens(Committed(s, next, a).seen, c)
    ensures Calm(Some(c), Committed(s, next, a))
  {
    hide Recorded;
    RecordPends(Some(c), s, next, a);
  }

  /** Between an empty journal and its first record. */
  ghost predicate FirstLimbo(d: Media, v: Media, next: Record) {
    && Shaped(d) && Shaped(v) && d.selectors[1].Blank? && v.selectors[1].Blank?
    && First(d.selectors[0], d, v, next) && First(v.selectors[0], d, v, next)
  }

  ghost predicate First(c: Cell<Selector>, d: Media, v: Media, next: Record)
    requires Shaped(d) && Shaped(v)
  {
    c.Holds? ==> c == Holds(Selector(0, next)) && d.records[0] == v.records[0] == Holds(next)
  }

  // ---- Whole lives of a journal

  /** One commit as a caller makes it; should it fail, the caller looks and goes on, or a power cut keeps something. */
  datatype Step = Step(
    meta: Meta, target: nat, reads_: nat -> Transfer, answers: CommitAnswers,
    resume: bool, check: nat -> Transfer, kept: nat -> Choice)

  /** The commits that took effect. */
  function Taken(steps: seq<Step>, took: seq<bool>): (h: seq<(Meta, nat)>)
    requires |took| <= |steps|
  {
    if took == [] then []
    else
      var n := |took| - 1;
      Taken(steps, took[..n]) + if took[n] then [(steps[n].meta, steps[n].target)] else []
  }

  lemma HistoryNext(meta: Meta, target: nat, record: Record)
    ensures History(Record(meta, target, Some(record))) == History(record) + [(meta, target)]
  {
  }

  lemma TakenNext(steps: seq<Step>, took: seq<bool>, b: bool)
    requires |took| < |steps|
    ensures Taken(steps, took + [b]) ==
            Taken(steps, took) + if b then [(steps[|took|].meta, steps[|took|].target)] else []
  {
    assert (took + [b])[..|took|] == took;
  }

  /** Open and commit; after a failure restart, or look and go on: the journal always opens, and its record
      chain is exactly the commits that took effect, among them every one that was reported as done. */
  method Run(j: Journal, start: Selected, steps: seq<Step>)
      returns (statuses: seq<Status>, ghost took: seq<bool>, ghost last: Selected)
    requires j.Valid() && Calm(Some(start), j.Now()) && start.record.meta.generation >= j.minimum
    modifies j
    ensures j.Valid() && Calm(Some(last), j.Now()) && last.record.meta.generation >= j.minimum
    ensures |statuses| == |took| == |steps| && forall k :: 0 <= k < |steps| && statuses[k] == OK ==> took[k]
    ensures History(last.record) == History(start.record) + Taken(steps, took)
  {
    hide History, Taken, Stable, Pending, OpenOf, Cut, Calm;
    statuses, took, last := [], [], start;
    NothingTaken(steps);
    for k := 0 to |steps|
      invariant j.Valid() && Calm(Some(last), j.Now()) && last.record.meta.generation >= j.minimum
      invariant |statuses| == |took| == k && forall x :: 0 <= x < k && statuses[x] == OK ==> took[x]
      invariant History(last.record) == History(start.record) + Taken(steps, took)
    {
      var status, effect, after := j.Attempt(steps[k], last);
      statuses := statuses + [status];
      TakenNext(steps, took, effect);
      HistoryNext(steps[k].meta, steps[k].target, last.record);
      took, last := took + [effect], after;
    }
  }

  lemma NothingTaken(steps: seq<Step>)
    ensures Taken(steps, []) == []
  {
  }

  // ---- Initialization is not atomic

  /** A power cut during initialization leaves an empty journal, the first record, or a torn first selector. */
  lemma FirstCut(d: Media, v: Media, next: Record, f: nat -> Choice, minimum: nat)
    requires FirstLimbo(d, v, next)
    ensures var m := Cut(d, v, f);
      || (m.selectors == [Blank, Blank] && OpenOf(m, minimum) == Refused(UNINITIALIZED))
      || Stable(m, 0, 0, next)
      || (m.selectors == [Torn, Blank] && OpenOf(m, minimum) == Refused(CORRUPT))
    ensures minimum <= next.meta.generation ==>
      (OpenOf(Cut(d, v, f), minimum) == Refused(CORRUPT) <==> Survivor(d.selectors[0], v.selectors[0], f(2)).Torn?)
  {
    var m := Cut(d, v, f);
    assert m.selectors == [m.selectors[0], m.selectors[1]];
  }

  /** The interrupted initializations that a power cut with choice `c` for the first selector makes useless. */
  predicate Bricks(a: CommitAnswers, c: Choice) {
    && RecordDone(a)
    && if !a.selectorWrite.transfer.Complete? then
         (match a.selectorWrite.left case Old => false case New => c.Lost? case Lost => !c.Old?)
       else if !SelectorWritten(a) then c.Lost?
       else
         !a.selectorFlush.ok && match a.selectorFlush.kept(2) case Old => c.Lost? case New => false case Lost => !c.New?
  }

  /** The selector was not reached, was not touched, or is confirmed. */
  predicate Secure(a: CommitAnswers) {
    || !RecordDone(a)
    || (!a.selectorWrite.transfer.Complete? && a.selectorWrite.left.Old?)
    || (SelectorWritten(a) && (a.selectorFlush.ok || a.selectorFlush.kept(2).New?))
  }

  /** No power cut bricks the journal exactly when the selector was not reached, was not touched, or is confirmed. */
  lemma SecureIs(a: CommitAnswers)
    ensures Secure(a) <==> forall c :: !Bricks(a, c)
  {
    assert !Secure(a) ==> Bricks(a, Lost);
  }

  /** Which interrupted initializations end corrupt, empty or opened. */
  lemma FirstCutExact(s: Store, next: Record, a: CommitAnswers, f: nat -> Choice, minimum: nat)
    requires Calm(None, s) && minimum <= next.meta.generation
    ensures var t := Committed(s, Selected(0, 0, next), a); var o := OpenOf(Cut(t.durable, t.seen, f), minimum);
      && (o == Refused(CORRUPT) <==> Bricks(a, f(2)))
      && (o == Refused(CORRUPT) || o == Refused(UNINITIALIZED) || o == Opened(0, 0, next))
  {
    hide OpenOf, Pending, Recorded, Startable;
    var n := Selected(0, 0, next);
    CommitPends(None, s, n, a);
    RecordPends(None, s, n, a);
    var t := Committed(s, n, a);
    FirstCutOf(t, next, f, minimum);
    BlankSelectors(Recorded(s, 0, next, a));
  }

  lemma BlankSelectors(s: Store)
    requires Calm(None, s)
    ensures s.seen.selectors[0] == s.durable.selectors[0] == Blank
  {
  }

  lemma FirstCutOf(t: Store, next: Record, f: nat -> Choice, minimum: nat)
    requires Pending(None, t.durable, t.seen, Selected(0, 0, next)) && minimum <= next.meta.generation
    ensures Fit(t) && var o := OpenOf(Cut(t.durable, t.seen, f), minimum);
      && (o == Refused(CORRUPT) <==> Survivor(t.durable.selectors[0], t.seen.selectors[0], f(2)).Torn?)
      && (o == Refused(CORRUPT) || o == Refused(UNINITIALIZED) || o == Opened(0, 0, next))
  {
    hide OpenOf, Stable;
    FirstCut(t.durable, t.seen, next, f, minimum);
    OpenedIsStable(Cut(t.durable, t.seen, f), minimum, 0, 0, next);
  }

  /** Initialize an empty journal and lose power: it is bricked exactly as `Bricks` says; otherwise it opens,
      or is empty and can be initialized again. */
  method InterruptedInitialize(j: Journal, meta: Meta, target: nat, reads_: nat -> Transfer, a: CommitAnswers,
      f: nat -> Choice)
    returns (status: Status)
    requires j.Valid() && Calm(None, j.Now()) && meta.generation == 1 && target < 2 && j.minimum <= 1
    modifies j
    ensures j.Valid() && j.seen == j.durable
    ensures OpenOf(j.seen, j.minimum) == Refused(CORRUPT) <==>
            reads_(0).Complete? && reads_(1).Complete? && meta.wellFormed && Bricks(a, f(2))
    ensures OpenOf(j.seen, j.minimum) in {Refused(CORRUPT), Refused(UNINITIALIZED),
      Opened(0, 0, Record(meta, target, None))}
    ensures OpenOf(j.seen, j.minimum) == Refused(UNINITIALIZED) ==> Calm(None, j.Now())
    ensures status == OK ==> OpenOf(j.seen, j.minimum).Opened?
    ensures Secure(a) ==> OpenOf(j.seen, j.minimum) != Refused(CORRUPT)
  {
    hide Bricks, Secure, Committed, RecordDone, SelectorDone;
    ghost var was := j.Now();
    EmptyOpens(was, j.minimum, f);
    FirstCutExact(was, Record(meta, target, None), a, f, j.minimum);
    SecureIs(a);
    status := j.Initialize(meta, target, reads_, a);
    ghost var left := j.Now();
    j.Restart(f);
    if status == OK {
      CutSame(left, f);
      OpenedIsStable(j.seen, j.minimum, 0, 0, Record(meta, target, None));
    }
    if OpenOf(j.seen, j.minimum) == Refused(UNINITIALIZED) {
      EmptyAgain(j.seen, j.minimum);
    }
  }

  lemma CutSame(s: Store, f: nat -> Choice)
    requires Fit(s) && s.seen == s.durable
    ensures Cut(s.durable, s.seen, f) == s.seen
  {
  }

  lemma EmptyOpens(s: Store, minimum: nat, f: nat -> Choice)
    requires Calm(None, s)
    ensures Fit(s) && OpenOf(s.seen, minimum) == OpenOf(Cut(s.durable, s.seen, f), minimum) == Refused(UNINITIALIZED)
  {
  }

  lemma EmptyAgain(m: Media, minimum: nat)
    requires Shaped(m) && OpenOf(m, minimum) == Refused(UNINITIALIZED)
    ensures Calm(None, Store(m, m))
  {
    assert m.selectors == [m.selectors[0], m.selectors[1]];
  }

  /** Answers without a fault. */
  function Flawless(): (a: CommitAnswers) {
    CommitAnswers(_ => false, WriteAnswer(Complete, New), FlushAnswer(true, _ => New), Complete,
                  WriteAnswer(Complete, New), FlushAnswer(true, _ => New), _ => Complete)
  }

  /** A run that bricks an empty journal: the first selector write is torn, and stays so. */
  method BrickedRun(meta: Meta, target: nat) returns (j: Journal)
    requires meta.generation == 1 && meta.wellFormed && target < 2
    ensures fresh(j) && j.Valid() && j.seen == j.durable && j.seen.selectors == [Torn, Blank]
    ensures OpenOf(j.seen, 0) == Refused(CORRUPT)
  {
    j := new Journal(0, Media([Blank, Blank], [Blank, Blank]));
    var a := Flawless().(selectorWrite := WriteAnswer(Failed, Lost));
    var status := j.Initialize(meta, target, _ => Complete, a);
    j.Restart(_ => New);
    assert j.seen.selectors == [j.seen.selectors[0], j.seen.selectors[1]];
  }

  /** After the first selector was torn no initialization succeeds any more: the journal stays corrupt. */
  method TornStaysCorrupt(j: Journal, tries: seq<Step>)
    requires j.Valid() && j.seen == j.durable && j.seen.selectors == [Torn, Blank]
    requires forall k :: 0 <= k < |tries| ==> tries[k].meta.generation == 1 && tries[k].target < 2
    modifies j
    ensures j.seen == j.durable == old(j.seen) && j.Valid() && OpenOf(j.seen, j.minimum) == Refused(CORRUPT)
  {
    for k := 0 to |tries|
      invariant j.Valid() && j.seen == j.durable == old(j.seen)
    {
      var status := j.Initialize(tries[k].meta, tries[k].target, tries[k].reads_, tries[k].answers);
    }
  }

  // ---- Going on after a failed commit

  /** Whatever the next commit behind `c` does and a power cut keeps, something opens. */
  ghost predicate Safe(s: Store, c: Selected)
    requires Fit(s) && c.selector < 2 && c.slot < 2
  {
    forall meta: Meta, target: nat, b: CommitAnswers, f: nat -> Choice :: Admissible(Some(c), meta, target) ==>
      var t := Committed(s, Following(Some(c), meta, target), b);
      OpenOf(Cut(t.durable, t.seen, f), 0).Opened?
  }

  lemma CalmIsSafe(s: Store, c: Selected)
    requires Calm(Some(c), s)
    ensures c.selector < 2 && c.slot < 2 && Fit(s) && Safe(s, c)
  {
    hide Committed, OpenOf, Cut;
    CalmOpens(s, c, 0);
    forall meta: Meta, target: nat, b: CommitAnswers, f: nat -> Choice | Admissible(Some(c), meta, target)
      ensures var t := Committed(s, Following(Some(c), meta, target), b); OpenOf(Cut(t.durable, t.seen, f), 0).Opened?
    {
      var next := Following(Some(c), meta, target);
      CommitPends(Some(c), s, next, b);
      var t := Committed(s, next, b);
      RestartOpens(t.durable, t.seen, c, next, f);
      var m := Cut(t.durable, t.seen, f);
      OpenedIsStable(m, 0, c.selector, c.slot, c.record);
      OpenedIsStable(m, 0, next.selector, next.slot, next.record);
    }
  }

  lemma LimboOpens(d: Media, v: Media, i: nat, slot: nat, record: Record, next: Record)
    requires Limbo(d, v, i, slot, record, next)
    ensures Shaped(d) && Shaped(v) && i < 2 && slot < 2
    ensures OpenOf(d, 0) in {Opened(i, slot, record), Opened(Other(i), Other(slot), next)}
    ensures OpenOf(v, 0) in {Opened(i, slot, record), Opened(Other(i), Other(slot), next)}
  {
  }

  /** A next commit whose record write is torn. */
  function TornWrite(): (a: CommitAnswers) {
    Flawless().(recordWrite := WriteAnswer(Failed, Lost))
  }

  /** A power cut that keeps what was written to the records, and nothing of the selectors. */
  function RecordsOnly(): (f: nat -> Choice) {
    k => if k < 2 then New else Old
  }

  lemma StaleFails(d: Media, v: Media, i: nat, slot: nat, record: Record, next: Record, c: Selected, after: Selected)
    requires Limbo(d, v, i, slot, record, next) && OpenOf(d, 0) != OpenOf(v, 0) == Opened(c.selector, c.slot, c.record)
    requires c.selector < 2 && c.slot < 2 && after.selector == Other(c.selector) && after.slot == Other(c.slot)
    requires after.record != record && after.record != next
    ensures var t := Committed(Store(v, d), after, TornWrite());
      OpenOf(Cut(t.durable, t.seen, RecordsOnly()), 0) == Refused(CORRUPT)
  {
    LimboOpens(d, v, i, slot, record, next);
    var t := Committed(Store(v, d), after, TornWrite());
    assert t == Store(PutRecord(v, after.slot, Torn), d);
  }

  /** Going on is safe for the whole next commit exactly when the confirmed media open to what is read,
      or no commit can follow. */
  lemma ContinueIffDurable(d: Media, v: Media, i: nat, slot: nat, record: Record, next: Record, c: Selected)
    requires Limbo(d, v, i, slot, record, next) && Opens(v, c)
    ensures c.selector < 2 && c.slot < 2
    ensures Safe(Store(v, d), c) <==> OpenOf(d, 0) == OpenOf(v, 0) || c.record.meta.generation == U64_MAX
  {
    hide Limbo, OpenOf, Committed, Cut, Safe;
    StableShape(v, c);
    LimboOpens(d, v, i, slot, record, next);
    OpenedIsStable(v, 0, c.selector, c.slot, c.record);
    if OpenOf(d, 0) == OpenOf(v, 0) {
      OpenedIsStable(d, 0, c.selector, c.slot, c.record);
      CalmIsSafe(Store(v, d), c);
    } else if c.record.meta.generation == U64_MAX {
      NothingFollows(Store(v, d), c);
    } else {
      StaleIsUnsafe(d, v, i, slot, record, next, c);
    }
  }

  lemma NothingFollows(s: Store, c: Selected)
    requires Fit(s) && c.selector < 2 && c.slot < 2 && c.record.meta.generation == U64_MAX
    ensures Safe(s, c)
  {
  }

  lemma StaleIsUnsafe(d: Media, v: Media, i: nat, slot: nat, record: Record, next: Record, c: Selected)
    requires Limbo(d, v, i, slot, record, next) && OpenOf(d, 0) != OpenOf(v, 0) == Opened(c.selector, c.slot, c.record)
    requires c.selector < 2 && c.slot < 2 && c.record.meta.generation < U64_MAX
    ensures !Safe(Store(v, d), c)
  {
    hide OpenOf, Committed, Cut;
    var meta := Meta(c.record.meta.generation + 1, true, record.meta.content + next.meta.content + 1);
    var after := Following(Some(c), meta, 0);
    StaleFails(d, v, i, slot, record, next, c, after);
    assert Admissible(Some(c), meta, 0);
    var t := Committed(Store(v, d), after, TornWrite());
    assert !OpenOf(Cut(t.durable, t.seen, RecordsOnly()), 0).Opened?;
  }

  /** The journal opens, and going on behind what it shows is safe. */
  ghost predicate GoingOnIsSafe(s: Store)
    requires Fit(s)
  {
    var o := OpenOf(s.seen, 0);
    o.Opened? && o.selector < 2 && o.slot < 2 && Safe(s, Selected(o.selector, o.slot, o.record))
  }

  /** The same commit with another outcome of its last flush. */
  function FlushedAs(a: CommitAnswers, flush: FlushAnswer): (b: CommitAnswers) {
    a.(selectorFlush := flush)
  }

  lemma SameShown(s: Store, next: Selected, a: CommitAnswers, flush: FlushAnswer)
    requires Fit(s) && next.selector < 2 && next.slot < 2
    ensures Committed(s, next, FlushedAs(a, flush)).seen == Committed(s, next, a).seen
  {
  }

  /** A last flush that fails and keeps nothing. */
  function Failing(): (flush: FlushAnswer) {
    FlushAnswer(false, _ => Old)
  }

  /** A commit that shows its record has confirmed nothing of it when its last flush kept nothing. */
  lemma FailingLags(s: Store, c: Selected, next: Selected, a: CommitAnswers)
    requires Calm(Some(c), s) && Follows(Some(c), next) && Fit(s) && !Opens(Committed(s, next, a).seen, c)
    ensures Opens(Committed(s, next, FlushedAs(a, Failing())).durable, c)
  {
    hide Recorded;
    RecordPends(Some(c), s, next, a);
    RecordPends(Some(c), s, next, FlushedAs(a, Failing()));
    assert RecordDone(a);
  }

  /** What a caller can check: whatever became of the last flush, going on after a commit that failed is safe
      exactly when the journal still shows the record from before, or shows one that no commit can follow. */
  lemma ContinueExact(s: Store, c: Selected, next: Selected, a: CommitAnswers)
    requires Calm(Some(c), s) && Follows(Some(c), next)
    ensures Fit(s)
    ensures (forall flush: FlushAnswer :: GoingOnIsSafe(Committed(s, next, FlushedAs(a, flush)))) <==>
            Opens(Committed(s, next, a).seen, c) || next.record.meta.generation == U64_MAX
  {
    hide Committed, OpenOf, Safe, Stable, Limbo;
    CalmOpens(s, c, 0);
    if Opens(Committed(s, next, a).seen, c) || next.record.meta.generation == U64_MAX {
      forall flush: FlushAnswer ensures GoingOnIsSafe(Committed(s, next, FlushedAs(a, flush))) {
        SafeAfter(s, c, next, a, flush);
      }
    } else {
      FailingIsUnsafe(s, c, next, a);
    }
  }

  lemma SafeAfter(s: Store, c: Selected, next: Selected, a: CommitAnswers, flush: FlushAnswer)
    requires Calm(Some(c), s) && Follows(Some(c), next) && Fit(s)
    requires Opens(Committed(s, next, a).seen, c) || next.record.meta.generation == U64_MAX
    ensures GoingOnIsSafe(Committed(s, next, FlushedAs(a, flush)))
  {
    hide Committed, OpenOf, Safe, Stable, Limbo;
    var b := FlushedAs(a, flush);
    var t := Committed(s, next, b);
    SameShown(s, next, a, flush);
    if Opens(t.seen, c) {
      StillCalm(s, c, next, b);
      CalmIsSafe(t, c);
      CalmOpens(t, c, 0);
    } else {
      CommitPends(Some(c), s, next, b);
      LimboOpens(t.durable, t.seen, c.selector, c.slot, c.record, next.record);
      OpenedIsStable(t.seen, 0, c.selector, c.slot, c.record);
      NothingFollows(t, next);
    }
  }

  lemma FailingIsUnsafe(s: Store, c: Selected, next: Selected, a: CommitAnswers)
    requires Calm(Some(c), s) && Follows(Some(c), next) && Fit(s)
    requires !Opens(Committed(s, next, a).seen, c) && next.record.meta.generation < U64_MAX
    ensures !GoingOnIsSafe(Committed(s, next, FlushedAs(a, Failing())))
  {
    hide Committed, OpenOf, Safe, Stable, Limbo;
    var t := Committed(s, next, FlushedAs(a, Failing()));
    SameShown(s, next, a, Failing());
    CommitPends(Some(c), s, next, FlushedAs(a, Failing()));
    LimboOpens(t.durable, t.seen, c.selector, c.slot, c.record, next.record);
    FailingLags(s, c, next, a);
    OpenedIsStable(t.seen, 0, c.selector, c.slot, c.record);
    OpenedIsStable(t.durable, 0, c.selector, c.slot, c.record);
    StaleIsUnsafe(t.durable, t.seen, c.selector, c.slot, c.record, next.record, next);
  }

  lemma LagsBehind(record: Record, next: Record)
    requires next.meta.generation > record.meta.generation
    ensures var m := Media([Holds(record), Blank], [Holds(Selector(0, record)), Blank]);
      var t := Committed(Store(m, m), Selected(1, 1, next), FlushedAs(Flawless(), Failing()));
      && Limbo(t.durable, t.seen, 0, 0, record, next) && Opens(t.seen, Selected(1, 1, next))
      && OpenOf(t.durable, 0) != OpenOf(t.seen, 0) == Opened(1, 1, next)
  {
    hide OpenOf, Recorded, Pointed;
    var m := Media([Holds(record), Blank], [Holds(Selector(0, record)), Blank]);
    var a := FlushedAs(Flawless(), Failing());
    var t := Recorded(Store(m, m), 1, next, a);
    assert t == Store(PutRecord(m, 1, Holds(next)), PutRecord(m, 1, Holds(next))) by { RecordedIs(m, next); }
    var u := Pointed(t, 1, Selector(1, next), a);
    assert u == Store(PutSelector(t.seen, 1, Holds(Selector(1, next))), t.seen) by { PointedIs(t, next); }
    OpenedIsStable(u.durable, 0, 0, 0, record);
    OpenedIsStable(u.seen, 0, 1, 1, next);
  }

  lemma RecordedIs(m: Media, next: Record)
    requires Shaped(m)
    ensures Recorded(Store(m, m), 1, next, FlushedAs(Flawless(), Failing())) ==
            Store(PutRecord(m, 1, Holds(next)), PutRecord(m, 1, Holds(next)))
  {
  }

  lemma PointedIs(s: Store, next: Record)
    requires Fit(s) && s.seen == s.durable
    ensures Pointed(s, 1, Selector(1, next), FlushedAs(Flawless(), Failing())) ==
            Store(PutSelector(s.seen, 1, Holds(Selector(1, next))), s.seen)
  {
    assert Survivor(s.durable.selectors[1], Holds(Selector(1, next)), Old) == s.seen.selectors[1];
  }

  /** A run that goes on where it is not safe: the first commit fails at its last flush, the journal shows its
      record, the second commit is interrupted in its record write, and after the power cut nothing opens. */
  method StaleRun(record: Record, content: nat) returns (j: Journal, first: Status, shown: Opening, second: Status)
    requires record.meta.generation + 2 <= U64_MAX
    ensures fresh(j) && j.Valid() && first == IO && second == IO
    ensures shown == Opened(1, 1, Record(Meta(record.meta.generation + 1, true, content), 0, Some(record)))
    ensures OpenOf(j.seen, 0) == Refused(CORRUPT)
  {
    hide Committed, OpenOf, Cut, Limbo;
    var c := Selected(0, 0, record);
    j := new Journal(0, Media([Holds(record), Blank], [Holds(Selector(0, record)), Blank]));
    var a := FlushedAs(Flawless(), Failing());
    var meta := Meta(record.meta.generation + 1, true, content);
    var next := Following(Some(c), meta, 0);
    LagsBehind(record, next.record);
    first := j.CommitRecord(Some(c), meta, 0, a);
    shown := j.Open(_ => Complete);
    var after := Meta(record.meta.generation + 2, true, content);
    StaleFails(j.durable, j.seen, 0, 0, record, next.record, next, Following(Some(next), after, 0));
    second := j.CommitRecord(Some(next), after, 0, TornWrite());
    j.Restart(RecordsOnly());
  }
}

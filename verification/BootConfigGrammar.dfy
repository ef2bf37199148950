/** The boot configuration as a grammar of lines: which texts are accepted, with which entries, and why others are not.
    */
module BootConfigGrammar {
  import opened Bytes
  import opened BootConfig
  import opened BootConfigParser
  import opened BootConfigLaws

  /** A `key=value` line of an entry. */
  datatype Item = Item(key: seq<byte>, value: seq<byte>)

  predicate IsKey(key: seq<byte>) {
    key in {PRIORITY, PROTOCOL, IMAGE, KERNEL, CMDLINE, INIT_IMAGE, MODULE}
  }

  /** The lines that count, without carriage returns. */
  function Kept(lines: seq<seq<byte>>): (kept: seq<seq<byte>>) {
    if lines == [] then []
    else
      var n := |lines| - 1;
      Kept(lines[..n]) + if Skipped(lines[n]) then [] else [Strip(lines[n])]
  }

  // ---- The body of an entry

  ghost predicate Has(items: seq<Item>, key: seq<byte>) {
    exists i :: 0 <= i < |items| && items[i].key == key
  }

  /** The value of a key, or none. */
  ghost predicate Gives(items: seq<Item>, key: seq<byte>, value: Option<seq<byte>>) {
    match value
    case None => !Has(items, key)
    case Some(v) => Item(key, v) in items
  }

  ghost predicate GivesPriority(items: seq<Item>, priority: Option<nat>) {
    match priority
    case None => !Has(items, PRIORITY)
    case Some(n) => exists v :: Item(PRIORITY, v) in items && Priority(v) == Some(n)
  }

  /** Only modules may repeat. */
  ghost predicate Once(items: seq<Item>) {
    forall i, j :: 0 <= i < j < |items| && items[i].key == items[j].key ==> items[i].key == MODULE
  }

  ghost predicate Keyed(items: seq<Item>) {
    forall i :: 0 <= i < |items| ==> IsKey(items[i].key)
  }

  /** The values of the module lines, in order. */
  function Modules(items: seq<Item>): (paths: seq<seq<byte>>) {
    if items == [] then []
    else
      var n := |items| - 1;
      Modules(items[..n]) + if items[n].key == MODULE then [items[n].value] else []
  }

  /** The items are known keys, none but modules repeated, and give exactly the fields of the entry. */
  ghost predicate Body(items: seq<Item>, e: Entry) {
    && Keyed(items) && Once(items)
    && GivesPriority(items, e.priority) && Gives(items, PROTOCOL, e.protocol) && Gives(items, IMAGE, e.image)
    && Gives(items, KERNEL, e.kernel) && Gives(items, CMDLINE, e.command) && Gives(items, INIT_IMAGE, e.init)
    && Modules(items) == e.modules
  }

  function PairLines(items: seq<Item>): (lines: seq<seq<byte>>)
    ensures |lines| == |items|
  {
    if items == [] then []
    else
      var n := |items| - 1;
      PairLines(items[..n]) + [Pair(items[n].key, items[n].value)]
  }

  /** An entry line with the id and the lines of a well-formed body. */
  ghost predicate Opened(lines: seq<seq<byte>>, e: Entry) {
    Formed(e) && exists items :: lines == [ENTRY + e.id] + PairLines(items) && Body(items, e)
  }

  /** A closed entry with all required fields. */
  ghost predicate Block(lines: seq<seq<byte>>, e: Entry) {
    lines != [] && lines[|lines| - 1] == END && Opened(lines[..|lines| - 1], e) && Complete(e)
  }

  ghost predicate Blocks(lines: seq<seq<byte>>, es: seq<Entry>)
    decreases |es|
  {
    if es == [] then lines == []
    else
      var k := |es| - 1;
      exists n :: 0 <= n <= |lines| && Blocks(lines[..n], es[..k]) && Block(lines[n..], es[k])
  }

  /** A configuration: the version line and one to four closed entries with different ids. */
  ghost predicate Configuration(lines: seq<seq<byte>>, es: seq<Entry>) {
    lines != [] && lines[0] == VERSION && Blocks(lines[1..], es) && 0 < |es| <= MAX_ENTRIES && DistinctIds(es)
  }

  // ---- One key

  /** The entry already has the field of a key; modules may always be added. */
  predicate Present(e: Entry, key: seq<byte>) {
    || (key == PRIORITY && e.priority.Some?) || (key == PROTOCOL && e.protocol.Some?) || (key == IMAGE && e.image.Some?)
    || (key == KERNEL && e.kernel.Some?) || (key == CMDLINE && e.command.Some?) || (key == INIT_IMAGE && e.init.Some?)
  }

  predicate GoodValue(key: seq<byte>, value: seq<byte>) {
    if key == PRIORITY then Priority(value).Some?
    else if key == CMDLINE then Text(value, COMMAND_CAPACITY)
    else if key == PROTOCOL || key == IMAGE then Identifier(value)
    else Path(value)
  }

  /** All module slots are taken; the init image takes one. */
  predicate Full(e: Entry, key: seq<byte>) {
    if key == MODULE then Used(e) == MAX_MODULES else key == INIT_IMAGE && |e.modules| == MAX_MODULES
  }

  /** The entry with the field of a key set, or a module added. */
  function Assigned(e: Entry, key: seq<byte>, value: seq<byte>): (f: Entry) {
    Entry(e.id, if key == PRIORITY then Priority(value) else e.priority,
          if key == PROTOCOL then Some(value) else e.protocol, if key == IMAGE then Some(value) else e.image,
          if key == KERNEL then Some(value) else e.kernel, if key == CMDLINE then Some(value) else e.command,
          if key == INIT_IMAGE then Some(value) else e.init, if key == MODULE then e.modules + [value] else e.modules)
  }

  /** Why a key is refused. */
  function KeyFault(e: Entry, key: seq<byte>, value: seq<byte>): (fault: Option<Status>) {
    if !IsKey(key) then Some(UNKNOWN_KEY)
    else if Present(e, key) then Some(DUPLICATE_KEY)
    else if key == MODULE && Full(e, key) then Some(OUT_OF_CAPACITY)
    else if GoodValue(key, value) && !Full(e, key) then None
    else if key == PRIORITY || key == CMDLINE then Some(DUPLICATE_KEY)
    else if key == PROTOCOL || key == IMAGE || (key == KERNEL && !Text(value, PATH_CAPACITY)) then Some(SYNTAX)
    else Some(BAD_PATH)
  }

  lemma FieldsOfKeys(key: seq<byte>)
    ensures IsKey(key) <==> FieldOf(key) != NoField
    ensures FieldOf(key) == PriorityField <==> key == PRIORITY
    ensures FieldOf(key) == ProtocolField <==> key == PROTOCOL
    ensures FieldOf(key) == ImageField <==> key == IMAGE
    ensures FieldOf(key) == KernelField <==> key == KERNEL
    ensures FieldOf(key) == CommandField <==> key == CMDLINE
    ensures FieldOf(key) == InitField <==> key == INIT_IMAGE
    ensures FieldOf(key) == ModuleField <==> key == MODULE
  {
    DifferentKeys();
    var keys := [PRIORITY, PROTOCOL, IMAGE, KERNEL, CMDLINE, INIT_IMAGE, MODULE];
    assert forall i, j :: 0 <= i < j < |keys| ==> keys[i] != keys[j];
  }

  lemma DifferentKeys()
    ensures Distinct([PRIORITY, PROTOCOL, IMAGE, KERNEL, CMDLINE, INIT_IMAGE, MODULE])
  {
    assert PRIORITY[1] == 114 && PRIORITY[2] == 105 && PROTOCOL[2] == 111;
    assert IMAGE[0] == 105 && KERNEL[0] == 107 && CMDLINE[0] == 99 && INIT_IMAGE[0] == 105 && MODULE[0] == 109;
    assert |IMAGE| == 5 && |INIT_IMAGE| == 10;
  }

  /** A key sets exactly its own field, or is refused for its reason. */
  lemma ApplyExact(e: Entry, key: seq<byte>, value: seq<byte>)
    ensures Apply(e, key, value) ==
      match KeyFault(e, key, value) case None => Done(Assigned(e, key, value)) case Some(status) => Refused(status)
  {
    hide Text, CanonicalPath, Identifier, Priority, FieldOf, IsKey, Path;
    FieldsOfKeys(key);
    PathIs(value);
    OneField(e, key, value);
  }

  lemma OneField(e: Entry, key: seq<byte>, value: seq<byte>)
    ensures var f := Assigned(e, key, value);
      && (FieldOf(key) == PriorityField ==> f == e.(priority := Priority(value)))
      && (FieldOf(key) == ProtocolField ==> f == e.(protocol := Some(value)))
      && (FieldOf(key) == ImageField ==> f == e.(image := Some(value)))
      && (FieldOf(key) == KernelField ==> f == e.(kernel := Some(value)))
      && (FieldOf(key) == CommandField ==> f == e.(command := Some(value)))
      && (FieldOf(key) == InitField ==> f == e.(init := Some(value)))
      && (FieldOf(key) == ModuleField ==> f == e.(modules := e.modules + [value]))
  {
    hide Priority, FieldOf, IsKey;
    FieldsOfKeys(key);
  }

  // ---- From the parser to the grammar

  lemma NoItems(id: seq<byte>)
    ensures Body([], Blank(id)) && PairLines([]) == []
  {
  }

  lemma HasNext(items: seq<Item>, item: Item, key: seq<byte>)
    ensures Has(items + [item], key) <==> Has(items, key) || item.key == key
  {
    var all := items + [item];
    assert all[|items|] == item && forall i :: 0 <= i < |items| ==> all[i] == items[i];
  }

  lemma GivesOther(items: seq<Item>, item: Item, key: seq<byte>, value: Option<seq<byte>>)
    requires Gives(items, key, value) && item.key != key
    ensures Gives(items + [item], key, value)
  {
    HasNext(items, item, key);
  }

  lemma GivesPriorityOther(items: seq<Item>, item: Item, priority: Option<nat>)
    requires GivesPriority(items, priority) && item.key != PRIORITY
    ensures GivesPriority(items + [item], priority)
  {
    HasNext(items, item, PRIORITY);
    if priority.Some? {
      var v :| Item(PRIORITY, v) in items && Priority(v) == priority;
      assert Item(PRIORITY, v) in items + [item];
    }
  }

  lemma GivesNew(items: seq<Item>, key: seq<byte>, value: seq<byte>)
    ensures Gives(items + [Item(key, value)], key, Some(value))
    ensures key == PRIORITY && Priority(value).Some? ==> GivesPriority(items + [Item(key, value)], Priority(value))
  {
    assert Item(key, value) in items + [Item(key, value)];
  }

  lemma ModulesNext(items: seq<Item>, item: Item)
    ensures Modules(items + [item]) == Modules(items) + if item.key == MODULE then [item.value] else []
    ensures PairLines(items + [item]) == PairLines(items) + [Pair(item.key, item.value)]
  {
    assert (items + [item])[..|items|] == items;
  }

  lemma OnceNext(items: seq<Item>, item: Item)
    requires Once(items) && Keyed(items) && IsKey(item.key) && (Has(items, item.key) ==> item.key == MODULE)
    ensures Once(items + [item]) && Keyed(items + [item])
  {
  }

  /** A repeated key is seen as such. */
  lemma GivesHas(items: seq<Item>, key: seq<byte>, value: Option<seq<byte>>)
    requires Gives(items, key, value)
    ensures Has(items, key) <==> value.Some?
  {
    if value.Some? {
      var i :| 0 <= i < |items| && items[i] == Item(key, value.value);
    }
  }

  lemma PriorityHas(items: seq<Item>, priority: Option<nat>)
    requires GivesPriority(items, priority)
    ensures Has(items, PRIORITY) <==> priority.Some?
  {
    if priority.Some? {
      var v :| Item(PRIORITY, v) in items && Priority(v) == priority;
      var i :| 0 <= i < |items| && items[i] == Item(PRIORITY, v);
    }
  }

  lemma FieldStep(items: seq<Item>, item: Item, key: seq<byte>, was: Option<seq<byte>>, now: Option<seq<byte>>)
    requires Gives(items, key, was) && now == if item.key == key then Some(item.value) else was
    ensures Gives(items + [item], key, now)
  {
    if item.key == key {
      GivesNew(items, key, item.value);
    } else {
      GivesOther(items, item, key, was);
    }
  }

  /** The fields an entry has are the keys its body has. */
  lemma PresentIsHas(items: seq<Item>, e: Entry, key: seq<byte>)
    requires Body(items, e)
    ensures key != MODULE && IsKey(key) ==> (Present(e, key) <==> Has(items, key))
  {
    hide Has, Gives, GivesPriority, Keyed, Once, Modules;
    PriorityHas(items, e.priority);
    GivesHas(items, PROTOCOL, e.protocol);
    GivesHas(items, IMAGE, e.image);
    GivesHas(items, KERNEL, e.kernel);
    GivesHas(items, CMDLINE, e.command);
    GivesHas(items, INIT_IMAGE, e.init);
    FieldsOfKeys(key);
  }

  /** One more accepted key extends the body. */
  lemma BodyStep(items: seq<Item>, e: Entry, key: seq<byte>, value: seq<byte>)
    requires Body(items, e) && KeyFault(e, key, value).None?
    ensures Body(items + [Item(key, value)], Assigned(e, key, value))
  {
    hide Has, Gives, GivesPriority, Keyed, Once, Modules, Path, Text, Identifier, Priority;
    var item, f := Item(key, value), Assigned(e, key, value);
    PresentIsHas(items, e, key);
    FieldsOfKeys(key);
    OnceNext(items, item);
    FieldStep(items, item, PROTOCOL, e.protocol, f.protocol);
    FieldStep(items, item, IMAGE, e.image, f.image);
    FieldStep(items, item, KERNEL, e.kernel, f.kernel);
    FieldStep(items, item, CMDLINE, e.command, f.command);
    FieldStep(items, item, INIT_IMAGE, e.init, f.init);
    if key == PRIORITY {
      GivesNew(items, key, value);
    } else {
      GivesPriorityOther(items, item, e.priority);
    }
    ModulesNext(items, item);
  }

  /** What the lines read so far mean: some closed entries and perhaps an open one. */
  ghost predicate Reads(kept: seq<seq<byte>>, s: State) {
    && Sane(s)
    && if kept == [] then s == START
       else kept[0] == VERSION && s.version && exists n: nat :: Parted(kept, s, n)
  }

  /** The closed entries end at line `n`, where the open one starts. */
  ghost predicate Parted(kept: seq<seq<byte>>, s: State, n: nat) {
    && 1 <= n <= |kept| && Blocks(kept[1..n], s.entries)
    && if s.active.None? then n == |kept| else Opened(kept[n..], s.active.value)
  }

  lemma ReadsVersion()
    ensures Reads([VERSION], State(true, [], None))
  {
    assert Parted([VERSION], State(true, [], None), 1);
  }

  lemma BeginReads(kept: seq<seq<byte>>, s: State, line: seq<byte>, t: State)
    requires Reads(kept, s) && s.version && ENTRY <= line && Begin(s, line[|ENTRY|..]) == Done(t)
    ensures Reads(kept + [line], t)
  {
    hide Blocks, Body, Formed, AllGood, DistinctIds, HasId, Identifier;
    var id := line[|ENTRY|..];
    BeginKeepsSane(s, id);
    BlankFormed(id);
    assert line == ENTRY + id;
    var more := kept + [line];
    var n: nat :| Parted(kept, s, n);
    assert more[1..n] == kept[1..n] && more[n..] == [line];
    NoItems(id);
    assert [line] == [ENTRY + id] + PairLines([]);
    assert Opened(more[n..], Blank(id));
    assert Parted(more, t, n);
  }

  lemma CloseReads(kept: seq<seq<byte>>, s: State, t: State)
    requires Reads(kept, s) && s.version && Close(s) == Done(t)
    ensures Reads(kept + [END], t)
  {
    hide Opened, Body, Formed, AllGood, DistinctIds, HasId, Complete;
    CloseKeepsSane(s);
    var more := kept + [END];
    var n: nat :| Parted(kept, s, n);
    var e, lines := s.active.value, more[1..];
    assert lines[..n - 1] == kept[1..n] && lines[n - 1..] == kept[n..] + [END];
    assert (kept[n..] + [END])[..|kept| - n] == kept[n..];
    assert Block(lines[n - 1..], e) && t.entries[..|s.entries|] == s.entries;
    assert Blocks(lines, t.entries);
    assert more[1..|more|] == lines && more[|more|..] == [];
    assert Parted(more, t, |more|);
  }

  lemma KeyReads(kept: seq<seq<byte>>, s: State, line: seq<byte>, t: State)
    requires Reads(kept, s) && s.version && Key(s, line) == Done(t)
    ensures Reads(kept + [line], t)
  {
    hide Blocks, Body, Formed, AllGood, DistinctIds, HasId, Apply, KeyFault, Assigned;
    KeyKeepsSane(s, line);
    var k := First(line, EQUALS);
    var key, value, e := line[..k], line[k + 1..], s.active.value;
    assert line == Pair(key, value);
    ApplyExact(e, key, value);
    var more := kept + [line];
    var n: nat :| Parted(kept, s, n);
    var items :| kept[n..] == [ENTRY + e.id] + PairLines(items) && Body(items, e);
    BodyStep(items, e, key, value);
    ModulesNext(items, Item(key, value));
    assert more[1..n] == kept[1..n] && more[n..] == kept[n..] + [line];
    assert more[n..] == [ENTRY + e.id] + PairLines(items + [Item(key, value)]);
    AssignedId(e, key, value);
    assert Opened(more[n..], t.active.value);
    assert Parted(more, t, n);
  }

  lemma AssignedId(e: Entry, key: seq<byte>, value: seq<byte>)
    ensures Assigned(e, key, value).id == e.id
  {
  }

  lemma StepReads(kept: seq<seq<byte>>, s: State, raw: seq<byte>, t: State)
    requires Reads(kept, s) && Step(s, raw) == Done(t)
    ensures Reads(kept + if Skipped(raw) then [] else [Strip(raw)], t)
  {
    hide Key, Begin, Close, Parted, Sane, Printable, Strip;
    var line := Strip(raw);
    if Skipped(raw) {
      assert kept + [] == kept;
    } else if !s.version {
      assert kept + [line] == [VERSION];
      ReadsVersion();
    } else if ENTRY <= line {
      BeginReads(kept, s, line, t);
    } else if line == END {
      CloseReads(kept, s, t);
    } else {
      KeyReads(kept, s, line, t);
    }
  }

  lemma StartReads()
    ensures Reads([], START)
  {
  }

  lemma FoldLast(lines: seq<seq<byte>>, s: State)
    requires lines != []
    ensures Fold(s, lines) == Continue(Fold(s, lines[..|lines| - 1]), [lines[|lines| - 1]])
    ensures forall t: State :: Continue(Done(t), [lines[|lines| - 1]]) == Step(t, lines[|lines| - 1])
  {
    hide Step;
    var n := |lines| - 1;
    assert lines == lines[..n] + [lines[n]];
    FoldConcat(s, lines[..n], [lines[n]]);
    forall t: State ensures Continue(Done(t), [lines[n]]) == Step(t, lines[n]) {
      FoldCons(t, lines[n], []);
      assert [lines[n]] + [] == [lines[n]];
    }
  }

  /** Whatever the parser has read is what the grammar says. */
  lemma {:induction false} FoldReads(lines: seq<seq<byte>>, s: State)
    requires Fold(START, lines) == Done(s)
    ensures Reads(Kept(lines), s)
    decreases |lines|
  {
    hide Step, Reads, Skipped, Strip;
    if lines == [] {
      StartReads();
    } else {
      var n := |lines| - 1;
      hide Fold;
      FoldLast(lines, START);
      var t := Fold(START, lines[..n]).value;
      FoldReads(lines[..n], t);
      StepReads(Kept(lines[..n]), t, lines[n], s);
    }
  }

  // ---- From the grammar to the parser

  /** Two entries with one body are the same. */
  lemma BodyUnique(items: seq<Item>, e: Entry, f: Entry)
    requires Body(items, e) && Body(items, f) && e.id == f.id
    ensures e == f
  {
    hide Modules, Keyed, Gives, GivesPriority;
    GivesUnique(items, PROTOCOL, e.protocol, f.protocol);
    GivesUnique(items, IMAGE, e.image, f.image);
    GivesUnique(items, KERNEL, e.kernel, f.kernel);
    GivesUnique(items, CMDLINE, e.command, f.command);
    GivesUnique(items, INIT_IMAGE, e.init, f.init);
    PriorityUnique(items, e.priority, f.priority);
  }

  lemma GivesUnique(items: seq<Item>, key: seq<byte>, a: Option<seq<byte>>, b: Option<seq<byte>>)
    requires Once(items) && Gives(items, key, a) && Gives(items, key, b) && key != MODULE
    ensures a == b
  {
    GivesHas(items, key, a);
    GivesHas(items, key, b);
    if a.Some? {
      SameItem(items, Item(key, a.value), Item(key, b.value));
    }
  }

  lemma PriorityUnique(items: seq<Item>, a: Option<nat>, b: Option<nat>)
    requires Once(items) && GivesPriority(items, a) && GivesPriority(items, b)
    ensures a == b
  {
    PriorityHas(items, a);
    PriorityHas(items, b);
    if a.Some? {
      var v :| Item(PRIORITY, v) in items && Priority(v) == a;
      var w :| Item(PRIORITY, w) in items && Priority(w) == b;
      FieldsOfKeys(PRIORITY);
      SameItem(items, Item(PRIORITY, v), Item(PRIORITY, w));
    }
  }

  lemma SameItem(items: seq<Item>, a: Item, b: Item)
    requires Once(items) && a in items && b in items && a.key == b.key != MODULE
    ensures a == b
  {
    var i :| 0 <= i < |items| && items[i] == a;
    var j :| 0 <= j < |items| && items[j] == b;
    if i < j {
      assert items[i].key == items[j].key;
    } else if j < i {
      assert items[j].key == items[i].key;
    }
  }

  /** Every item of a well-formed entry has a good value. */
  lemma GoodItem(items: seq<Item>, e: Entry, k: nat)
    requires Body(items, e) && Formed(e) && k < |items|
    ensures IsKey(items[k].key) && GoodValue(items[k].key, items[k].value)
  {
    hide Gives, GivesPriority, Once, Text, Identifier, Path, Priority;
    var item := items[k];
    assert IsKey(item.key) && item in items;
    FieldsOfKeys(item.key);
    assert Has(items, item.key);
    if item.key == MODULE {
      ModuleListed(items, k);
      var j :| 0 <= j < |e.modules| && e.modules[j] == item.value;
      assert Path(e.modules[j]);
    } else if item.key == PRIORITY {
      PriorityOf(items, e.priority, item);
    } else {
      PresentIsHas(items, e, item.key);
      var value := if item.key == PROTOCOL then e.protocol else if item.key == IMAGE then e.image
        else if item.key == KERNEL then e.kernel else if item.key == CMDLINE then e.command else e.init;
      ValueOf(items, item.key, value, item);
    }
  }

  lemma PriorityOf(items: seq<Item>, priority: Option<nat>, item: Item)
    requires Once(items) && GivesPriority(items, priority) && item in items && item.key == PRIORITY
    ensures Priority(item.value).Some?
  {
    hide Priority;
    var i :| 0 <= i < |items| && items[i] == item;
    PriorityHas(items, priority);
    FieldsOfKeys(PRIORITY);
    var v :| Item(PRIORITY, v) in items && Priority(v) == priority;
    SameItem(items, Item(PRIORITY, v), item);
  }

  lemma ValueOf(items: seq<Item>, key: seq<byte>, value: Option<seq<byte>>, item: Item)
    requires Once(items) && Gives(items, key, value) && item in items && item.key == key != MODULE
    ensures value == Some(item.value)
  {
    var i :| 0 <= i < |items| && items[i] == item;
    GivesHas(items, key, value);
    SameItem(items, Item(key, value.value), item);
  }

  lemma {:induction false} ModuleListed(items: seq<Item>, k: nat)
    requires k < |items| && items[k].key == MODULE
    ensures items[k].value in Modules(items)
  {
    var n := |items| - 1;
    if k < n {
      ModuleListed(items[..n], k);
    } else {
      assert Modules(items)[|Modules(items)| - 1] == items[k].value;
    }
  }

  /** How many module slots the items take. */
  function Taken(items: seq<Item>): (n: nat) {
    if items == [] then 0
    else
      var n := |items| - 1;
      Taken(items[..n]) + if items[n].key == MODULE || items[n].key == INIT_IMAGE then 1 else 0
  }

  lemma {:induction false} TakenIs(items: seq<Item>)
    requires Once(items)
    ensures Taken(items) == |Modules(items)| + if Has(items, INIT_IMAGE) then 1 else 0
  {
    if items != [] {
      var n := |items| - 1;
      var head, last := items[..n], items[n];
      TakenIs(head);
      assert items == head + [last];
      HasNext(head, last, INIT_IMAGE);
      FieldsOfKeys(INIT_IMAGE);
      if Has(head, INIT_IMAGE) {
        var i :| 0 <= i < |head| && head[i].key == INIT_IMAGE;
        assert items[i].key == INIT_IMAGE;
      }
    }
  }

  lemma {:induction false} TakenGrows(items: seq<Item>, k: nat)
    requires k <= |items|
    ensures Taken(items[..k]) <= Taken(items)
    decreases |items|
  {
    var n := |items| - 1;
    if k <= n {
      TakenGrows(items[..n], k);
      assert items[..n][..k] == items[..k];
    } else {
      assert items[..k] == items;
    }
  }

  lemma UsedIsTaken(items: seq<Item>, e: Entry)
    requires Body(items, e)
    ensures Used(e) == Taken(items)
  {
    hide Modules, Has;
    TakenIs(items);
    FieldsOfKeys(INIT_IMAGE);
    PresentIsHas(items, e, INIT_IMAGE);
  }

  lemma NotBefore(items: seq<Item>, k: nat)
    requires Once(items) && k < |items| && items[k].key != MODULE
    ensures !Has(items[..k], items[k].key)
  {
    forall i | 0 <= i < k ensures items[..k][i].key != items[k].key {
      assert items[..k][i] == items[i];
    }
  }

  /** The next item of a body is accepted. */
  lemma NextAccepted(items: seq<Item>, e: Entry, k: nat, b: Entry)
    requires Body(items, e) && Formed(e) && k < |items| && Body(items[..k], b)
    ensures KeyFault(b, items[k].key, items[k].value).None?
  {
    hide Text, Identifier, Path, Priority, Gives, GivesPriority, Modules, GoodValue;
    var head, item := items[..k], items[k];
    GoodItem(items, e, k);
    FieldsOfKeys(item.key);
    PresentIsHas(head, b, item.key);
    if item.key != MODULE {
      NotBefore(items, k);
    }
    UsedIsTaken(items, e);
    UsedIsTaken(head, b);
    TakenGrows(items, k + 1);
    assert items[..k + 1][..k] == head;
  }

  /** Reading the lines of a body builds its entry. */
  lemma {:induction false} ItemsFold(entries: seq<Entry>, items: seq<Item>, e: Entry, k: nat) returns (b: Entry)
    requires Body(items, e) && Formed(e) && k <= |items|
    ensures Body(items[..k], b) && b.id == e.id
    ensures Fold(State(true, entries, Some(Blank(e.id))), PairLines(items[..k])) == Done(State(true, entries, Some(b)))
  {
    hide Fold, Step, Formed, Body, Apply, KeyFault, Assigned, IsKey, Printable, PlainKey;
    var start := State(true, entries, Some(Blank(e.id)));
    if k == 0 {
      b := Blank(e.id);
      NoItems(e.id);
      assert items[..0] == [];
      FoldDone(start);
    } else {
      var n := k - 1;
      var c := ItemsFold(entries, items, e, n);
      var item, head := items[n], items[..n];
      NextAccepted(items, e, n, c);
      BodyStep(head, c, item.key, item.value);
      ApplyExact(c, item.key, item.value);
      b := Assigned(c, item.key, item.value);
      AssignedId(c, item.key, item.value);
      assert items[..k] == head + [item];
      ModulesNext(head, item);
      GoodItem(items, e, n);
      GoodLine(item.key, item.value);
      var lines := PairLines(items[..k]);
      assert lines[..n] == PairLines(head) && lines[n] == Pair(item.key, item.value);
      FoldLast(lines, start);
      StepPair(State(true, entries, Some(c)), item.key, item.value);
    }
  }

  /** A known key with a good value makes a line of its own kind. */
  lemma GoodLine(key: seq<byte>, value: seq<byte>)
    requires IsKey(key) && GoodValue(key, value)
    ensures PlainKey(key) && Printable(value) && value != []
  {
    hide CanonicalPath, IdentifierByte, Number, PlainKey;
    Keys();
    if key == PRIORITY {
      assert forall i :: 0 <= i < |value| ==> IsDigit(value[i]);
    }
  }

  lemma BeginStep(entries: seq<Entry>, id: seq<byte>)
    requires Identifier(id) && |entries| < MAX_ENTRIES && !HasId(entries, id)
    ensures Step(State(true, entries, None), ENTRY + id) == Done(State(true, entries, Some(Blank(id))))
  {
    hide HasId;
    var line := ENTRY + id;
    assert line[|line| - 1] == id[|id| - 1] && line[0] == ENTRY[0] && line[|ENTRY|..] == id;
    assert Strip(line) == line && !Skipped(line) && Printable(line) && ENTRY <= line;
  }

  /** Reading a block adds its entry. */
  lemma BlockFold(lines: seq<seq<byte>>, e: Entry, entries: seq<Entry>)
    requires Block(lines, e) && |entries| < MAX_ENTRIES && !HasId(entries, e.id)
    ensures Fold(State(true, entries, None), lines) == Done(State(true, entries + [e], None))
  {
    hide Fold, Step, Body, Complete, HasId, Identifier, Text, Path, AllPaths;
    var n := |lines| - 1;
    var items :| lines[..n] == [ENTRY + e.id] + PairLines(items) && Body(items, e);
    var b := ItemsFold(entries, items, e, |items|);
    assert items[..|items|] == items;
    BodyUnique(items, b, e);
    BeginStep(entries, e.id);
    var start := State(true, entries, None);
    FoldCons(start, ENTRY + e.id, PairLines(items));
    FoldLast(lines, start);
    StepEnd(State(true, entries, Some(e)));
  }

  lemma {:induction false} BlocksFold(lines: seq<seq<byte>>, es: seq<Entry>)
    requires Blocks(lines, es) && |es| <= MAX_ENTRIES && DistinctIds(es)
    ensures Fold(State(true, [], None), lines) == Done(State(true, es, None))
    decreases |es|
  {
    hide Fold, Block;
    if es == [] {
      FoldDone(State(true, [], None));
    } else {
      var k := |es| - 1;
      var n :| 0 <= n <= |lines| && Blocks(lines[..n], es[..k]) && Block(lines[n..], es[k]);
      BlocksFold(lines[..n], es[..k]);
      BlockFold(lines[n..], es[k], es[..k]);
      assert lines == lines[..n] + lines[n..] && es == es[..k] + [es[k]];
      FoldConcat(State(true, [], None), lines[..n], lines[n..]);
    }
  }

  /** Lines that carry no carriage return at their end. */
  ghost predicate Bare(lines: seq<seq<byte>>) {
    forall i :: 0 <= i < |lines| ==> Strip(lines[i]) == lines[i]
  }

  lemma {:induction false} PairsBare(items: seq<Item>, e: Entry, k: nat)
    requires Body(items, e) && Formed(e) && k <= |items|
    ensures Bare(PairLines(items[..k]))
  {
    hide Body, Formed, Strip, PlainKey, Printable, IsKey, GoodValue;
    if k > 0 {
      var n := k - 1;
      PairsBare(items, e, n);
      var item, head := items[n], items[..n];
      assert items[..k] == head + [item];
      ModulesNext(head, item);
      GoodItem(items, e, n);
      GoodLine(item.key, item.value);
      PairParts(item.key, item.value);
    }
  }

  lemma BlockBare(lines: seq<seq<byte>>, e: Entry)
    requires Block(lines, e)
    ensures Bare(lines)
  {
    hide Body, Complete, IdentifierByte, Path, AllPaths;
    var n := |lines| - 1;
    var items :| lines[..n] == [ENTRY + e.id] + PairLines(items) && Body(items, e);
    PairsBare(items, e, |items|);
    assert items[..|items|] == items;
    var line := ENTRY + e.id;
    assert line[|line| - 1] == e.id[|e.id| - 1] && IsPrintable(e.id[|e.id| - 1]);
    assert Strip(line) == line && Strip(END) == END;
    forall i | 0 <= i < |lines| ensures Strip(lines[i]) == lines[i] {
      if 0 < i < n {
        assert lines[i] == lines[..n][i] == PairLines(items)[i - 1];
      } else if i == 0 && n > 0 {
        assert lines[i] == lines[..n][0];
      }
    }
  }

  lemma {:induction false} BlocksBare(lines: seq<seq<byte>>, es: seq<Entry>)
    requires Blocks(lines, es)
    ensures Bare(lines)
    decreases |es|
  {
    hide Block, Strip;
    if es != [] {
      var k := |es| - 1;
      var n :| 0 <= n <= |lines| && Blocks(lines[..n], es[..k]) && Block(lines[n..], es[k]);
      BlocksBare(lines[..n], es[..k]);
      BlockBare(lines[n..], es[k]);
      forall i | 0 <= i < |lines| ensures Strip(lines[i]) == lines[i] {
        if i < n {
          assert lines[i] == lines[..n][i];
        } else {
          assert lines[i] == lines[n..][i - n];
        }
      }
    }
  }

  lemma StepBare(s: State, raw: seq<byte>)
    requires !Skipped(raw) && Strip(Strip(raw)) == Strip(raw)
    ensures Step(s, raw) == Step(s, Strip(raw))
  {
    hide Key, Begin, Close, Printable;
  }

  lemma StepSkips(s: State, raw: seq<byte>)
    requires Skipped(raw)
    ensures Step(s, raw) == Done(s)
  {
  }

  /** Reading the lines that count is reading all lines. */
  lemma {:induction false} KeptFold(s: State, lines: seq<seq<byte>>)
    requires Bare(Kept(lines))
    ensures Fold(s, lines) == Fold(s, Kept(lines))
    decreases |lines|
  {
    hide Fold, Step, Skipped, Strip;
    if lines != [] {
      var n := |lines| - 1;
      var head, raw := lines[..n], lines[n];
      assert Bare(Kept(head)) by {
        assert forall i :: 0 <= i < |Kept(head)| ==> Kept(lines)[i] == Kept(head)[i];
      }
      KeptFold(s, head);
      FoldLast(lines, s);
      if Skipped(raw) {
        assert Kept(lines) == Kept(head);
        if Fold(s, head).Done? {
          StepSkips(Fold(s, head).value, raw);
        }
      } else {
        var kept := Kept(lines);
        assert kept[..|kept| - 1] == Kept(head) && kept[|kept| - 1] == Strip(raw);
        FoldLast(kept, s);
        if Fold(s, head).Done? {
          StepBare(Fold(s, head).value, raw);
        }
      }
      ContinueRefused(Fold(s, head), [raw]);
    } else {
      assert Kept(lines) == [];
    }
  }

  lemma ContinueRefused(r: Outcome<State>, lines: seq<seq<byte>>)
    ensures r.Refused? ==> forall more: seq<seq<byte>> :: Continue(r, more) == r
  {
  }

  /** A text of legal size is accepted with exactly the entries its lines spell out. */
  lemma ParseExact(text: seq<byte>, es: seq<Entry>)
    ensures Meaning(text) == Done(es) <==>
      0 < |text| <= MAX_BYTES && Configuration(Kept(Split(text, LF)), es)
  {
    hide Fold, Split, Blocks, Kept;
    var lines := Split(text, LF);
    var kept := Kept(lines);
    if Meaning(text) == Done(es) {
      var s := Fold(START, lines).value;
      FoldReads(lines, s);
      ReadsConfigure(kept, s);
    }
    if 0 < |text| <= MAX_BYTES && Configuration(kept, es) {
      ConfigurationFold(kept, es);
      ConfigurationBare(kept, es);
      KeptFold(START, lines);
    }
  }

  lemma ReadsConfigure(kept: seq<seq<byte>>, s: State)
    requires Reads(kept, s) && Finish(s).Done?
    ensures Configuration(kept, s.entries)
  {
    hide Blocks, AllGood, DistinctIds, HasId, Formed;
    var n: nat :| Parted(kept, s, n);
    assert kept[1..n] == kept[1..];
  }

  lemma ConfigurationFold(kept: seq<seq<byte>>, es: seq<Entry>)
    requires Configuration(kept, es)
    ensures Fold(START, kept) == Done(State(true, es, None))
  {
    hide Fold, Blocks, Step;
    StepVersion();
    assert kept == [VERSION] + kept[1..];
    FoldCons(START, VERSION, kept[1..]);
    BlocksFold(kept[1..], es);
    ContinueDone(State(true, [], None), kept[1..]);
  }

  lemma ContinueDone(s: State, lines: seq<seq<byte>>)
    ensures Continue(Done(s), lines) == Fold(s, lines)
  {
  }

  lemma ConfigurationBare(kept: seq<seq<byte>>, es: seq<Entry>)
    requires Configuration(kept, es)
    ensures Bare(kept)
  {
    hide Blocks;
    BlocksBare(kept[1..], es);
    assert Strip(VERSION) == VERSION;
    hide Strip;
    forall i | 0 <= i < |kept| ensures Strip(kept[i]) == kept[i] {
      if i > 0 {
        assert kept[i] == kept[1..][i - 1];
      }
    }
  }

  // ---- Refusals

  /** The line is a key and a value around its first equals sign. */
  predicate Paired(line: seq<byte>, key: seq<byte>, value: seq<byte>) {
    line == Pair(key, value) && EQUALS !in key && key != [] && value != []
  }

  /** Why a line that counts is refused behind lines that mean `s`. */
  ghost predicate Faulty(s: State, line: seq<byte>, status: Status) {
    if !Printable(line) || (!s.version && line != VERSION) then status == SYNTAX
    else if !s.version then false
    else if ENTRY <= line then
      if s.active.Some? || |s.entries| == MAX_ENTRIES || !Identifier(line[|ENTRY|..]) then status == OUT_OF_CAPACITY
      else HasId(s.entries, line[|ENTRY|..]) && status == DUPLICATE_KEY
    else if line == END then (s.active.Some? ==> !Complete(s.active.value)) && status == INCOMPLETE_ENTRY
    else if s.active.None? || !(exists key, value :: Paired(line, key, value)) then status == SYNTAX
    else exists key, value :: Paired(line, key, value) && KeyFault(s.active.value, key, value) == Some(status)
  }

  lemma PairedFirst(line: seq<byte>, key: seq<byte>, value: seq<byte>)
    requires Paired(line, key, value)
    ensures First(line, EQUALS) == |key| != 0 && |key| + 1 < |line|
  {
    assert line[..|key|] == key;
    FirstIs(line, EQUALS, |key|);
  }

  lemma PairedSelf(line: seq<byte>)
    requires var k := First(line, EQUALS); k != 0 && k + 1 < |line|
    ensures Paired(line, line[..First(line, EQUALS)], line[First(line, EQUALS) + 1..])
  {
    hide First;
    var k := First(line, EQUALS);
    assert line == Pair(line[..k], line[k + 1..]);
  }

  lemma PairedIs(line: seq<byte>)
    ensures var k := First(line, EQUALS);
      && ((exists key, value :: Paired(line, key, value)) <==> k != 0 && k + 1 < |line|)
      && (k != 0 && k + 1 < |line| ==> Paired(line, line[..k], line[k + 1..]))
  {
    hide Paired, First;
    var k := First(line, EQUALS);
    if k != 0 && k + 1 < |line| {
      PairedSelf(line);
    }
    if exists key, value :: Paired(line, key, value) {
      var key, value :| Paired(line, key, value);
      PairedFirst(line, key, value);
    }
  }

  lemma StepRefuses(s: State, raw: seq<byte>, status: Status)
    requires Step(s, raw) == Refused(status)
    ensures !Skipped(raw) && Faulty(s, Strip(raw), status)
  {
    hide Apply, KeyFault, Complete, HasId, Identifier, Printable, Strip, Assigned, Paired;
    var line := Strip(raw);
    PairedIs(line);
    var k := First(line, EQUALS);
    if k != 0 && k + 1 < |line| && s.active.Some? {
      ApplyExact(s.active.value, line[..k], line[k + 1..]);
    }
  }

  lemma {:induction false} FoldRefuses(lines: seq<seq<byte>>, status: Status) returns (n: nat, s: State)
    requires Fold(START, lines) == Refused(status)
    ensures n < |lines| && Fold(START, lines[..n]) == Done(s) && Step(s, lines[n]) == Refused(status)
    decreases |lines|
  {
    hide Step;
    assert lines != [];
    hide Fold;
    var k := |lines| - 1;
    FoldLast(lines, START);
    var r := Fold(START, lines[..k]);
    if r.Done? {
      n, s := k, r.value;
    } else {
      ContinueRefused(r, [lines[k]]);
      n, s := FoldRefuses(lines[..k], status);
      assert lines[..k][..n] == lines[..n];
    }
  }

  /** Line `n` is the first that is refused, behind lines that mean `s`. */
  ghost predicate RefusedAt(lines: seq<seq<byte>>, n: nat, s: State, status: Status) {
    n < |lines| && Reads(Kept(lines[..n]), s) && !Skipped(lines[n]) && Faulty(s, Strip(lines[n]), status)
  }

  lemma RefusedSomewhere(lines: seq<seq<byte>>, status: Status)
    requires Fold(START, lines) == Refused(status)
    ensures exists n: nat, s: State :: RefusedAt(lines, n, s, status)
  {
    hide Fold, Kept, Reads, Step, Faulty, Skipped, Strip;
    var n, s := FoldRefuses(lines, status);
    FoldReads(lines[..n], s);
    StepRefuses(s, lines[n], status);
    assert RefusedAt(lines, n, s, status);
  }

  /** Nothing is refused, but an entry is left open or there is none. */
  ghost predicate Unfinished(lines: seq<seq<byte>>) {
    exists s: State :: Reads(Kept(lines), s) && (s.active.Some? || s.entries == [] || !s.version)
  }

  ghost predicate Explained(lines: seq<seq<byte>>, status: Status) {
    || (exists n: nat, s: State :: RefusedAt(lines, n, s, status))
    || (status == INCOMPLETE_ENTRY && Unfinished(lines))
  }

  lemma FoldExplained(lines: seq<seq<byte>>, status: Status)
    requires var r := Fold(START, lines); if r.Done? then Finish(r.value) == Refused(status) else r.status == status
    ensures Explained(lines, status)
  {
    hide Fold, Kept, Reads, RefusedAt;
    if Fold(START, lines).Done? {
      FoldReads(lines, Fold(START, lines).value);
    } else {
      RefusedSomewhere(lines, status);
    }
  }

  /** Every refusal of a text of legal size is that of its first faulty line, or of an entry left open or missing. */
  lemma RefusalExplained(text: seq<byte>, status: Status)
    requires Meaning(text) == Refused(status) && 0 < |text| <= MAX_BYTES
    ensures Explained(Split(text, LF), status)
  {
    hide Fold, Split, Explained;
    FoldExplained(Split(text, LF), status);
  }
}

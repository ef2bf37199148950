/** What the boot configuration grammar guarantees: soundness, invariance and the round trip with the printer. */
module BootConfigLaws {
  import opened Bytes
  import opened BootConfig
  import opened BootConfigParser

  // ---- Soundness

  predicate AllPaths(paths: seq<seq<byte>>) {
    forall i :: 0 <= i < |paths| ==> Path(paths[i])
  }

  /** Whatever fields an entry has obey the lexical rules and the capacities. */
  predicate Formed(e: Entry) {
    && Identifier(e.id) && (e.priority.Some? ==> e.priority.value <= U32_MAX)
    && (e.protocol.Some? ==> Identifier(e.protocol.value)) && (e.image.Some? ==> Identifier(e.image.value))
    && (e.kernel.Some? ==> Path(e.kernel.value)) && (e.command.Some? ==> Text(e.command.value, COMMAND_CAPACITY))
    && (e.init.Some? ==> Path(e.init.value)) && AllPaths(e.modules) && Used(e) <= MAX_MODULES
  }

  ghost predicate DistinctIds(entries: seq<Entry>) {
    forall i, j :: 0 <= i < j < |entries| ==> entries[i].id != entries[j].id
  }

  ghost predicate AllGood(entries: seq<Entry>) {
    forall i :: 0 <= i < |entries| ==> Complete(entries[i]) && Formed(entries[i])
  }

  ghost predicate Sane(s: State) {
    && |s.entries| <= MAX_ENTRIES && AllGood(s.entries) && DistinctIds(s.entries)
    && (s.active.Some? ==> Formed(s.active.value) && !HasId(s.entries, s.active.value.id) && |s.entries| < MAX_ENTRIES)
  }

  lemma ApplyForms(e: Entry, key: seq<byte>, value: seq<byte>)
    requires Formed(e)
    ensures var r := Apply(e, key, value); r.Done? ==> Formed(r.value) && r.value.id == e.id
  {
    hide CanonicalPath, Text, Identifier, Path, AllPaths, Priority, FieldOf;
    PathIs(value);
    PriorityFits(value);
    if FieldOf(key) == ModuleField && Path(value) {
      MorePaths(e.modules, value);
    }
  }

  lemma PriorityFits(value: seq<byte>)
    ensures Priority(value).Some? ==> Priority(value).value <= U32_MAX
  {
  }

  lemma PathIs(value: seq<byte>)
    ensures Path(value) <==> Text(value, PATH_CAPACITY) && CanonicalPath(value)
  {
  }

  lemma MorePaths(paths: seq<seq<byte>>, path: seq<byte>)
    requires AllPaths(paths) && Path(path)
    ensures AllPaths(paths + [path])
  {
  }

  lemma KeyKeepsSane(s: State, line: seq<byte>)
    requires Sane(s)
    ensures Key(s, line).Done? ==> Sane(Key(s, line).value)
  {
    hide Apply, Formed, AllGood, DistinctIds, HasId;
    var k := First(line, EQUALS);
    if k != 0 && k + 1 < |line| && s.active.Some? {
      ApplyForms(s.active.value, line[..k], line[k + 1..]);
    }
  }

  lemma BeginKeepsSane(s: State, id: seq<byte>)
    requires Sane(s)
    ensures Begin(s, id).Done? ==> Sane(Begin(s, id).value)
  {
    hide Formed, AllGood, DistinctIds, HasId, Identifier;
    if Identifier(id) {
      BlankFormed(id);
    }
  }

  lemma CloseKeepsSane(s: State)
    requires Sane(s)
    ensures Close(s).Done? ==> Sane(Close(s).value)
  {
    hide Formed, Complete;
  }

  lemma StepKeepsSane(s: State, raw: seq<byte>)
    requires Sane(s)
    ensures Step(s, raw).Done? ==> Sane(Step(s, raw).value)
  {
    hide Key, Begin, Close, AllGood, DistinctIds, HasId, Formed, Printable, Skipped, Strip;
    var line := Strip(raw);
    KeyKeepsSane(s, line);
    CloseKeepsSane(s);
    if ENTRY <= line {
      BeginKeepsSane(s, line[|ENTRY|..]);
    }
  }

  lemma BlankFormed(id: seq<byte>)
    requires Identifier(id)
    ensures Formed(Blank(id))
  {
  }

  lemma {:induction false} FoldKeepsSane(s: State, lines: seq<seq<byte>>)
    requires Sane(s)
    ensures Fold(s, lines).Done? ==> Sane(Fold(s, lines).value)
    decreases |lines|
  {
    hide Step, Sane;
    if lines != [] {
      StepKeepsSane(s, lines[0]);
      if Step(s, lines[0]).Done? {
        FoldKeepsSane(Step(s, lines[0]).value, lines[1..]);
      }
    }
  }

  /** Every accepted text yields one to four complete, well-formed entries with distinct ids. */
  lemma ParsedIsSound(text: seq<byte>)
    requires Meaning(text).Done?
    ensures var entries := Meaning(text).value;
      0 < |entries| <= MAX_ENTRIES && AllGood(entries) && DistinctIds(entries)
  {
    hide Fold;
    FoldKeepsSane(START, Split(text, LF));
  }

  // ---- Lines that do not matter

  lemma {:induction false} FoldConcat(s: State, a: seq<seq<byte>>, b: seq<seq<byte>>)
    ensures Fold(s, a + b) == Continue(Fold(s, a), b)
    decreases |a|
  {
    hide Step;
    if a == [] {
      assert a + b == b;
    } else {
      assert (a + b)[1..] == a[1..] + b;
      if Step(s, a[0]).Done? {
        FoldConcat(Step(s, a[0]).value, a[1..], b);
      }
    }
  }

  lemma FoldSkips(s: State, a: seq<seq<byte>>, w: seq<byte>, b: seq<seq<byte>>)
    requires Skipped(w)
    ensures Fold(s, a + ([w] + b)) == Fold(s, a + b)
  {
    hide Fold;
    FoldConcat(s, a, [w] + b);
    FoldConcat(s, a, b);
    if Fold(s, a).Done? {
      FoldCons(Fold(s, a).value, w, b);
    }
  }

  /** A blank or comment line inserted at any line boundary changes nothing. */
  lemma BlankLineIgnored(before: seq<byte>, line: seq<byte>, after: seq<byte>)
    requires before == [] || before[|before| - 1] == LF
    requires LF !in line && Skipped(line)
    requires 0 < |before + after| && |before + line + [LF] + after| <= MAX_BYTES
    ensures Meaning(before + line + [LF] + after) == Meaning(before + after)
  {
    hide Fold, Split, Skipped;
    SplitNone(line, LF);
    if before == [] {
      assert before + line + [LF] + after == line + [LF] + after && before + after == after;
      SplitJoin(line, after, LF);
      FoldSkips(START, [], line, Split(after, LF));
      assert [] + ([line] + Split(after, LF)) == [line] + Split(after, LF) && [] + Split(after, LF) == Split(after, LF);
    } else {
      var x := before[..|before| - 1];
      assert before == x + [LF];
      assert before + after == x + [LF] + after;
      assert before + line + [LF] + after == x + [LF] + (line + [LF] + after);
      SplitJoin(x, after, LF);
      SplitJoin(x, line + [LF] + after, LF);
      SplitJoin(line, after, LF);
      FoldSkips(START, Split(x, LF), line, Split(after, LF));
    }
  }

  // ---- Line endings

  /** Every line feed preceded by a carriage return. */
  function Crlf(s: seq<byte>): (t: seq<byte>) {
    if s == [] then [] else if s[0] == LF then [CR, LF] + Crlf(s[1..]) else [s[0]] + Crlf(s[1..])
  }

  /** Two lists of lines that agree once carriage returns are stripped. */
  ghost predicate SameLines(a: seq<seq<byte>>, b: seq<seq<byte>>) {
    |a| == |b| && forall i :: 0 <= i < |a| ==> Strip(a[i]) == Strip(b[i])
  }

  lemma {:induction false} SameFold(s: State, a: seq<seq<byte>>, b: seq<seq<byte>>)
    requires SameLines(a, b)
    ensures Fold(s, a) == Fold(s, b)
    decreases |a|
  {
    if a != [] {
      assert Strip(a[0]) == Strip(b[0]);
      assert Step(s, a[0]) == Step(s, b[0]);
      hide Step;
      if Step(s, a[0]).Done? {
        SameFold(Step(s, a[0]).value, a[1..], b[1..]);
      }
    }
  }

  lemma {:induction false} CrlfKeeps(s: seq<byte>)
    requires LF !in s
    ensures Crlf(s) == s
  {
    if s != [] {
      CrlfKeeps(s[1..]);
    }
  }

  lemma {:induction false} CrlfConcat(a: seq<byte>, b: seq<byte>)
    ensures Crlf(a + b) == Crlf(a) + Crlf(b)
  {
    if a == [] {
      assert a + b == b;
    } else {
      assert (a + b)[1..] == a[1..] + b;
      CrlfConcat(a[1..], b);
    }
  }

  lemma StripReturn(line: seq<byte>)
    requires CR !in line
    ensures Strip(line + [CR]) == line == Strip(line)
  {
  }

  lemma {:induction false} CrlfLines(s: seq<byte>)
    requires CR !in s
    ensures SameLines(Split(s, LF), Split(Crlf(s), LF))
    decreases |s|
  {
    hide Split, Strip, Crlf;
    if LF !in s {
      CrlfKeeps(s);
    } else {
      var k := First(s, LF);
      var line, rest := s[..k], s[k + 1..];
      assert s == line + ([LF] + rest);
      SplitAt(s, LF, k);
      CrlfLines(rest);
      CrlfBreak(line, rest);
      var t := Crlf(s);
      assert t == (line + [CR]) + [LF] + Crlf(rest);
      SplitJoin(line + [CR], Crlf(rest), LF);
      SplitNone(line + [CR], LF);
      StripReturn(line);
      var a, b := Split(rest, LF), Split(Crlf(rest), LF);
      assert forall i :: 0 <= i < |a| ==> ([line] + a)[i + 1] == a[i] && ([line + [CR]] + b)[i + 1] == b[i];
      SameCons(line, line + [CR], a, b);
    }
  }

  lemma SameCons(x: seq<byte>, y: seq<byte>, a: seq<seq<byte>>, b: seq<seq<byte>>)
    requires Strip(x) == Strip(y) && SameLines(a, b)
    ensures SameLines([x] + a, [y] + b)
  {
    hide Strip;
  }

  lemma CrlfBreak(line: seq<byte>, rest: seq<byte>)
    requires LF !in line
    ensures Crlf(line + ([LF] + rest)) == (line + [CR]) + [LF] + Crlf(rest)
  {
    CrlfConcat(line, [LF] + rest);
    CrlfKeeps(line);
    assert ([LF] + rest)[1..] == rest;
  }

  /** Turning every LF of a CR-free text into CRLF changes nothing. */
  lemma LineEndingsAgree(text: seq<byte>)
    requires CR !in text && |Crlf(text)| <= MAX_BYTES
    ensures Meaning(Crlf(text)) == Meaning(text)
  {
    hide Fold, Split;
    CrlfSize(text);
    CrlfLines(text);
    SameFold(START, Split(text, LF), Split(Crlf(text), LF));
  }

  lemma {:induction false} CrlfSize(s: seq<byte>)
    ensures |s| <= |Crlf(s)| <= 2 * |s|
  {
    if s != [] { CrlfSize(s[1..]); }
  }

  // ---- The printer

  /** Decimal digits without leading zeros. */
  function Decimal(n: nat): (s: seq<byte>)
    ensures |s| > 0
  {
    if n < 10 then [48 + n] else Decimal(n / 10) + [48 + n % 10]
  }

  lemma {:induction false} DecimalReads(n: nat)
    ensures Digits(Decimal(n)) && Number(Decimal(n)) == n
  {
    if n < 10 {
      assert [48 + n][..0] == [];
    } else {
      DecimalReads(n / 10);
      var s := Decimal(n / 10);
      assert Decimal(n)[..|s|] == s;
    }
  }

  function Pow10(k: nat): (p: nat) {
    if k == 0 then 1 else 10 * Pow10(k - 1)
  }

  lemma {:induction false} DecimalLength(n: nat, k: nat)
    requires k > 0 && n < Pow10(k)
    ensures |Decimal(n)| <= k
  {
    if n >= 10 {
      DecimalLength(n / 10, k - 1);
    }
  }

  /** One `key=value` line. */
  function Pair(key: seq<byte>, value: seq<byte>): (line: seq<byte>) {
    key + [EQUALS] + value
  }

  function ModuleLines(modules: seq<seq<byte>>): (lines: seq<seq<byte>>)
    ensures |lines| == |modules|
  {
    if modules == [] then [] else ModuleLines(modules[..|modules| - 1]) + [Pair(MODULE, modules[|modules| - 1])]
  }

  predicate Printed(e: Entry) {
    e.priority.Some? && e.protocol.Some? && e.image.Some? && e.kernel.Some?
  }

  function HeadLines(e: Entry): (lines: seq<seq<byte>>)
    requires Printed(e)
  {
    [VERSION, ENTRY + e.id, Pair(PRIORITY, Decimal(e.priority.value)), Pair(PROTOCOL, e.protocol.value),
     Pair(IMAGE, e.image.value), Pair(KERNEL, e.kernel.value)]
  }

  function OptionLines(e: Entry): (lines: seq<seq<byte>>) {
    (if e.command.Some? then [Pair(CMDLINE, e.command.value)] else []) +
      (if e.init.Some? then [Pair(INIT_IMAGE, e.init.value)] else [])
  }

  /** The lines of a single-entry configuration. */
  function Lines(e: Entry): (lines: seq<seq<byte>>)
    requires Printed(e)
  {
    HeadLines(e) + OptionLines(e) + ModuleLines(e.modules) + [END]
  }

  /** Every line ended by a line feed. */
  function Unlines(lines: seq<seq<byte>>): (text: seq<byte>) {
    if lines == [] then [] else Unlines(lines[..|lines| - 1]) + lines[|lines| - 1] + [LF]
  }

  /** Write a configuration with one entry. */
  method Print(e: Entry) returns (text: seq<byte>)
    requires Printed(e)
    ensures text == Unlines(Lines(e))
  {
    hide ModuleLines, Unlines;
    NoLines();
    var lines := HeadLines(e);
    if e.command.Some? {
      lines := lines + [Pair(CMDLINE, e.command.value)];
    }
    if e.init.Some? {
      lines := lines + [Pair(INIT_IMAGE, e.init.value)];
    }
    assert lines == HeadLines(e) + OptionLines(e);
    ghost var head := lines;
    assert head + [] == head;
    for i := 0 to |e.modules|
      invariant lines == head + ModuleLines(e.modules[..i])
    {
      ModuleLinesNext(e.modules, i);
      lines := lines + [Pair(MODULE, e.modules[i])];
    }
    assert e.modules[..|e.modules|] == e.modules;
    lines := lines + [END];
    text := [];
    for i := 0 to |lines|
      invariant text == Unlines(lines[..i])
    {
      UnlinesNext(lines[..i], lines[i]);
      assert lines[..i + 1] == lines[..i] + [lines[i]];
      text := text + lines[i] + [LF];
    }
    assert lines[..|lines|] == lines;
  }

  lemma NoLines()
    ensures ModuleLines([]) == [] && Unlines([]) == []
  {
  }

  lemma ModuleLinesNext(modules: seq<seq<byte>>, i: nat)
    requires i < |modules|
    ensures ModuleLines(modules[..i + 1]) == ModuleLines(modules[..i]) + [Pair(MODULE, modules[i])]
  {
    assert modules[..i + 1][..i] == modules[..i];
  }

  lemma UnlinesNext(lines: seq<seq<byte>>, line: seq<byte>)
    ensures Unlines(lines + [line]) == Unlines(lines) + line + [LF]
  {
    assert (lines + [line])[..|lines|] == lines;
  }

  // ---- The round trip

  ghost predicate NoBreaks(lines: seq<seq<byte>>) {
    forall i :: 0 <= i < |lines| ==> LF !in lines[i]
  }

  lemma {:induction false} SplitUnlines(lines: seq<seq<byte>>)
    requires NoBreaks(lines)
    ensures Split(Unlines(lines), LF) == lines + [[]]
  {
    hide Split;
    if lines == [] {
      SplitNone([], LF);
    } else {
      var n := |lines| - 1;
      var head, line := lines[..n], lines[n];
      SplitUnlines(head);
      SplitNone([], LF);
      SplitNone(line, LF);
      var text := Unlines(head);
      if head == [] {
        assert text + line + [LF] == line + [LF] + [];
      } else {
        var m := |head| - 1;
        var body := Unlines(head[..m]) + head[m];
        assert text == body + [LF] && text + [] == text;
        assert text + line + [LF] == body + [LF] + (line + [LF] + []);
        SplitJoin(body, line + [LF] + [], LF);
        assert text == body + [LF] + [];
        SplitJoin(body, [], LF);
        assert Split(body, LF) + [[]] == head + [[]];
        assert Split(body, LF) == head by {
          assert (Split(body, LF) + [[]])[..|Split(body, LF)|] == Split(body, LF) && (head + [[]])[..|head|] == head;
        }
      }
      SplitJoin(line, [], LF);
      assert lines + [[]] == head + ([line] + [[]]);
    }
  }

  /** A key that cannot be mistaken for a comment, an entry line or an end line. */
  predicate PlainKey(key: seq<byte>) {
    key != [] && Printable(key) && EQUALS !in key && key[0] != HASH && key[0] != ENTRY[0]
  }

  lemma PairParts(key: seq<byte>, value: seq<byte>)
    requires PlainKey(key) && Printable(value) && value != []
    ensures var line := Pair(key, value);
      && !Skipped(line) && Strip(line) == line && Printable(line) && !(ENTRY <= line) && line != END
      && First(line, EQUALS) == |key| && line[..|key|] == key && line[|key| + 1..] == value
  {
    var line := Pair(key, value);
    assert line[0] == key[0] && line[|line| - 1] == value[|value| - 1];
    assert line[..|key|] == key;
    FirstIs(line, EQUALS, |key|);
  }

  lemma StepPair(s: State, key: seq<byte>, value: seq<byte>)
    requires s.version && s.active.Some? && PlainKey(key) && Printable(value) && value != []
    ensures var r := Apply(s.active.value, key, value);
      Step(s, Pair(key, value)) == if r.Done? then Done(s.(active := Some(r.value))) else Refused(r.status)
  {
    hide Apply, First, Printable, Skipped, Strip;
    PairParts(key, value);
  }

  lemma Keys()
    ensures PlainKey(PRIORITY) && PlainKey(PROTOCOL) && PlainKey(IMAGE) && PlainKey(KERNEL)
    ensures PlainKey(CMDLINE) && PlainKey(INIT_IMAGE) && PlainKey(MODULE)
    ensures FieldOf(PRIORITY) == PriorityField && FieldOf(PROTOCOL) == ProtocolField && FieldOf(IMAGE) == ImageField
    ensures FieldOf(KERNEL) == KernelField && FieldOf(CMDLINE) == CommandField && FieldOf(INIT_IMAGE) == InitField
      && FieldOf(MODULE) == ModuleField
  {
  }

  /** A line whose key the active entry accepts moves the fold on. */
  lemma FoldPair(s: State, key: seq<byte>, value: seq<byte>, e: Entry, rest: seq<seq<byte>>)
    requires s.version && s.active.Some? && PlainKey(key) && Printable(value) && value != []
    requires Apply(s.active.value, key, value) == Done(e)
    ensures Fold(s, [Pair(key, value)] + rest) == Fold(s.(active := Some(e)), rest)
  {
    hide Apply, Fold, Step, Printable, PlainKey;
    StepPair(s, key, value);
    FoldCons(s, Pair(key, value), rest);
  }

  lemma DecimalIs(n: nat)
    requires n <= U32_MAX
    ensures Printable(Decimal(n)) && Priority(Decimal(n)) == Some(n) && |Decimal(n)| <= 10
  {
    hide Decimal, Number, Pow10;
    DecimalReads(n);
    assert forall i :: 0 <= i < |Decimal(n)| ==> IsDigit(Decimal(n)[i]);
    Power();
    DecimalLength(n, 10);
  }

  lemma Power()
    ensures Pow10(10) == 10_000_000_000
  {
    assert Pow10(4) == 10_000;
    assert Pow10(7) == 10_000_000;
  }

  lemma StepVersion()
    ensures Step(START, VERSION) == Done(State(true, [], None))
  {
    assert Strip(VERSION) == VERSION && Printable(VERSION) && !Skipped(VERSION);
  }

  lemma StepBegin(id: seq<byte>)
    requires Identifier(id)
    ensures Step(State(true, [], None), ENTRY + id) == Done(State(true, [], Some(Blank(id))))
  {
    var line := ENTRY + id;
    assert line[|line| - 1] == id[|id| - 1] && line[0] == ENTRY[0] && line[|ENTRY|..] == id;
    assert Strip(line) == line && !Skipped(line) && Printable(line) && ENTRY <= line;
  }

  lemma StepEnd(s: State)
    requires s.version && s.active.Some? && Complete(s.active.value)
    ensures Step(s, END) == Done(s.(entries := s.entries + [s.active.value], active := None))
  {
    hide Complete;
    assert Strip(END) == END && Printable(END) && !Skipped(END);
  }

  /** The head of a printed entry leaves its required fields in the active entry. */
  lemma HeadFold(e: Entry, rest: seq<seq<byte>>)
    requires Complete(e) && Formed(e)
    ensures Fold(START, HeadLines(e) + rest) ==
      Fold(State(true, [],
        Some(Blank(e.id).(priority := e.priority, protocol := e.protocol, image := e.image, kernel := e.kernel))), rest)
  {
    hide Fold, Step, PlainKey, CanonicalPath, FieldOf, Priority, Decimal, IdentifierByte, Pair, AllPaths;
    var p1, p2, p3, p4 := Pair(PRIORITY, Decimal(e.priority.value)), Pair(PROTOCOL, e.protocol.value),
      Pair(IMAGE, e.image.value), Pair(KERNEL, e.kernel.value);
    assert HeadLines(e) + rest == [VERSION] + ([ENTRY + e.id] + ([p1] + ([p2] + ([p3] + ([p4] + rest)))));
    Keys();
    DecimalIs(e.priority.value);
    StepVersion();
    FoldCons(START, VERSION, [ENTRY + e.id] + ([p1] + ([p2] + ([p3] + ([p4] + rest)))));
    StepBegin(e.id);
    FoldCons(State(true, [], None), ENTRY + e.id, [p1] + ([p2] + ([p3] + ([p4] + rest))));
    var e0 := Blank(e.id);
    var e1 := e0.(priority := e.priority);
    var e2 := e1.(protocol := e.protocol);
    var e3 := e2.(image := e.image);
    var e4 := e3.(kernel := e.kernel);
    FoldPair(State(true, [], Some(e0)), PRIORITY, Decimal(e.priority.value), e1, [p2] + ([p3] + ([p4] + rest)));
    FoldPair(State(true, [], Some(e1)), PROTOCOL, e.protocol.value, e2, [p3] + ([p4] + rest));
    FoldPair(State(true, [], Some(e2)), IMAGE, e.image.value, e3, [p4] + rest);
    FoldPair(State(true, [], Some(e3)), KERNEL, e.kernel.value, e4, rest);
  }

  lemma OptionFold(b: Entry, e: Entry, rest: seq<seq<byte>>)
    requires Formed(e) && b.command.None? && b.init.None? && b.modules == []
    ensures Fold(State(true, [], Some(b)), OptionLines(e) + rest) ==
      Fold(State(true, [], Some(b.(command := e.command, init := e.init))), rest)
  {
    hide Fold, Step, PlainKey, CanonicalPath, FieldOf, Pair, AllPaths, Identifier;
    Keys();
    var c := b.(command := e.command);
    var tail := (if e.init.Some? then [Pair(INIT_IMAGE, e.init.value)] else []) + rest;
    if e.command.Some? {
      assert OptionLines(e) + rest == [Pair(CMDLINE, e.command.value)] + tail;
      FoldPair(State(true, [], Some(b)), CMDLINE, e.command.value, c, tail);
    } else {
      assert OptionLines(e) + rest == tail;
    }
    if e.init.Some? {
      FoldPair(State(true, [], Some(c)), INIT_IMAGE, e.init.value, c.(init := e.init), rest);
    } else {
      assert tail == rest;
    }
  }

  lemma {:induction false} ModuleFold(b: Entry, modules: seq<seq<byte>>, rest: seq<seq<byte>>)
    requires AllPaths(modules) && b.modules == [] && |modules| + Used(b) <= MAX_MODULES
    ensures Fold(State(true, [], Some(b)), ModuleLines(modules) + rest) ==
            Fold(State(true, [], Some(b.(modules := modules))), rest)
    decreases |modules|
  {
    hide Fold, Step, PlainKey, CanonicalPath, FieldOf, Pair;
    if modules == [] {
      assert ModuleLines(modules) + rest == rest;
    } else {
      var n := |modules| - 1;
      var head, last := modules[..n], modules[n];
      ModuleFold(b, head, [Pair(MODULE, last)] + rest);
      assert ModuleLines(modules) + rest == ModuleLines(head) + ([Pair(MODULE, last)] + rest);
      Keys();
      assert modules == head + [last];
      FoldPair(State(true, [], Some(b.(modules := head))), MODULE, last, b.(modules := modules), rest);
    }
  }

  /** Reading back the printed lines gives exactly the printed entry. */
  lemma LinesFold(e: Entry)
    requires Complete(e) && Formed(e)
    ensures Fold(START, Lines(e) + [[]]) == Done(State(true, [e], None))
  {
    hide Fold, Step, Complete, HeadLines, OptionLines, ModuleLines;
    var b := Blank(e.id).(priority := e.priority, protocol := e.protocol, image := e.image, kernel := e.kernel);
    var c := b.(command := e.command, init := e.init);
    var tail := [END] + [[]];
    assert Printed(e) by { IsPrinted(e); }
    assert Lines(e) + [[]] == HeadLines(e) + (OptionLines(e) + (ModuleLines(e.modules) + tail));
    HeadFold(e, OptionLines(e) + (ModuleLines(e.modules) + tail));
    OptionFold(b, e, ModuleLines(e.modules) + tail);
    ModuleFold(c, e.modules, tail);
    assert c.(modules := e.modules) == e;
    var s := State(true, [], Some(e));
    StepEnd(s);
    FoldCons(s, END, [[]]);
    var t := State(true, [e], None);
    var blank: seq<seq<byte>> := [[]];
    assert blank == [[]] + [] && [] + [e] == [e];
    FoldCons(t, [], []);
    FoldDone(t);
  }

  lemma IsPrinted(e: Entry)
    requires Complete(e)
    ensures Printed(e)
  {
  }

  lemma FoldDone(s: State)
    ensures Fold(s, []) == Done(s) && Step(s, []) == Done(s)
  {
  }

  // ---- Size

  ghost predicate ShortLines(lines: seq<seq<byte>>) {
    forall i :: 0 <= i < |lines| ==> |lines[i]| < 300 && LF !in lines[i]
  }

  lemma {:induction false} UnlinesSize(lines: seq<seq<byte>>)
    requires ShortLines(lines)
    ensures |lines| <= |Unlines(lines)| <= 300 * |lines|
  {
    if lines != [] {
      UnlinesSize(lines[..|lines| - 1]);
    }
  }

  lemma PairShort(key: seq<byte>, value: seq<byte>)
    requires |key| <= 10 && |value| < 256 && Printable(key) && Printable(value)
    ensures |Pair(key, value)| < 300 && LF !in Pair(key, value)
  {
  }

  lemma {:induction false} ModuleLinesShort(modules: seq<seq<byte>>)
    requires AllPaths(modules)
    ensures ShortLines(ModuleLines(modules))
  {
    hide CanonicalPath, Pair;
    if modules != [] {
      var n := |modules| - 1;
      ModuleLinesShort(modules[..n]);
      PairShort(MODULE, modules[n]);
    }
  }

  lemma ShortConcat(a: seq<seq<byte>>, b: seq<seq<byte>>)
    requires ShortLines(a) && ShortLines(b)
    ensures ShortLines(a + b)
  {
  }

  lemma LinesShort(e: Entry)
    requires Complete(e) && Formed(e)
    ensures ShortLines(Lines(e)) && |Lines(e)| <= 16
  {
    hide CanonicalPath, Pair, ModuleLines, Decimal, IdentifierByte, Priority, AllPaths;
    DecimalIs(e.priority.value);
    PairShort(PRIORITY, Decimal(e.priority.value));
    PairShort(PROTOCOL, e.protocol.value);
    PairShort(IMAGE, e.image.value);
    PairShort(KERNEL, e.kernel.value);
    if e.command.Some? { PairShort(CMDLINE, e.command.value); }
    if e.init.Some? { PairShort(INIT_IMAGE, e.init.value); }
    ModuleLinesShort(e.modules);
    assert ShortLines(HeadLines(e)) && ShortLines(OptionLines(e)) && ShortLines([END]);
    hide HeadLines, OptionLines, ShortLines;
    ShortConcat(HeadLines(e), OptionLines(e));
    ShortConcat(HeadLines(e) + OptionLines(e), ModuleLines(e.modules));
    ShortConcat(HeadLines(e) + OptionLines(e) + ModuleLines(e.modules), [END]);
  }

  /** Parsing the printed text of any well-formed entry yields exactly that entry. */
  lemma RoundTrip(e: Entry)
    requires Complete(e) && Formed(e)
    ensures Meaning(Unlines(Lines(e))) == Done([e])
  {
    hide Fold, Split, Complete, Formed, Lines, Unlines;
    IsPrinted(e);
    LinesShort(e);
    UnlinesSize(Lines(e));
    LinesFold(e);
    SplitUnlines(Lines(e));
    SomeLines(e);
  }

  lemma SomeLines(e: Entry)
    requires Printed(e)
    ensures |Lines(e)| > 0
  {
  }
}

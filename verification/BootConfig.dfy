/**
 The boot configuration: a line grammar, its bounded parser, the selection of an entry
 and the printer that writes a single-entry configuration.
 */
module BootConfig {
  import opened Bytes

  const MAX_ENTRIES: nat := 4
  const MAX_MODULES: nat := 8
  const MAX_BYTES: nat := 8192
  const NAME_CAPACITY: nat := 33
  const PATH_CAPACITY: nat := 128
  const COMMAND_CAPACITY: nat := 256

  // ASCII
  const LF: byte := 10
  const CR: byte := 13
  const HASH: byte := 35
  const DOT: byte := 46
  const SLASH: byte := 47
  const EQUALS: byte := 61
  const BACKSLASH: byte := 92

  // The words of the grammar, in ASCII: version=1, entry=, end, and the seven keys.
  const VERSION: seq<byte> := [118, 101, 114, 115, 105, 111, 110, 61, 49]
  const ENTRY: seq<byte> := [101, 110, 116, 114, 121, 61]
  const END: seq<byte> := [101, 110, 100]
  const PRIORITY: seq<byte> := [112, 114, 105, 111, 114, 105, 116, 121]
  const PROTOCOL: seq<byte> := [112, 114, 111, 116, 111, 99, 111, 108]
  const IMAGE: seq<byte> := [105, 109, 97, 103, 101]
  const KERNEL: seq<byte> := [107, 101, 114, 110, 101, 108]
  const CMDLINE: seq<byte> := [99, 109, 100, 108, 105, 110, 101]
  const INIT_IMAGE: seq<byte> := [105, 110, 105, 116, 95, 105, 109, 97, 103, 101]
  const MODULE: seq<byte> := [109, 111, 100, 117, 108, 101]

  datatype Status =
    | OK | BAD_ARGUMENT | SYNTAX | UNKNOWN_KEY | DUPLICATE_KEY | OUT_OF_CAPACITY
    | BAD_PATH | INCOMPLETE_ENTRY | AMBIGUOUS

  /** A candidate under construction; a required field is absent until its key is seen. */
  datatype Entry = Entry(
    id: seq<byte>, priority: Option<nat>, protocol: Option<seq<byte>>, image: Option<seq<byte>>,
      kernel: Option<seq<byte>>,
    command: Option<seq<byte>>, init: Option<seq<byte>>, modules: seq<seq<byte>>)

  // ---- Splitting

  /** Index of the first occurrence, or the length. */
  function First(s: seq<byte>, c: byte): (k: nat)
    ensures k <= |s| && (k < |s| ==> s[k] == c) && forall i :: 0 <= i < k ==> s[i] != c
  {
    if s == [] || s[0] == c then 0 else 1 + First(s[1..], c)
  }

  /** The pieces between separators; always at least one. */
  function Split(s: seq<byte>, c: byte): (pieces: seq<seq<byte>>)
    ensures |pieces| >= 1
    decreases |s|
  {
    var k := First(s, c);
    if k == |s| then [s] else [s[..k]] + Split(s[k + 1..], c)
  }

  lemma FirstIs(s: seq<byte>, c: byte, k: nat)
    requires k <= |s| && (k < |s| ==> s[k] == c) && c !in s[..k]
    ensures First(s, c) == k
  {
  }

  lemma SplitNone(s: seq<byte>, c: byte)
    requires c !in s
    ensures Split(s, c) == [s]
  {
    assert s[..|s|] == s;
    FirstIs(s, c, |s|);
  }

  lemma SplitAt(s: seq<byte>, c: byte, k: nat)
    requires k < |s| && s[k] == c && c !in s[..k]
    ensures Split(s, c) == [s[..k]] + Split(s[k + 1..], c)
  {
    FirstIs(s, c, k);
  }

  /** Splitting distributes over a separator. */
  lemma {:induction false} SplitJoin(x: seq<byte>, y: seq<byte>, c: byte)
    ensures Split(x + [c] + y, c) == Split(x, c) + Split(y, c)
    decreases |x|
  {
    hide Split;
    var s := x + [c] + y;
    if c in x {
      var k := First(x, c);
      assert s[..k] == x[..k] && c !in x[..k];
      SplitAt(x, c, k);
      SplitAt(s, c, k);
      var rest := x[k + 1..];
      assert s[k + 1..] == rest + [c] + y;
      SplitJoin(rest, y, c);
      assert [x[..k]] + (Split(rest, c) + Split(y, c)) == ([x[..k]] + Split(rest, c)) + Split(y, c);
    } else {
      SplitNone(x, c);
      assert s[..|x|] == x && s[|x| + 1..] == y;
      SplitAt(s, c, |x|);
    }
  }

  // ---- Lexical rules

  predicate IsPrintable(b: byte) {
    0x20 <= b <= 0x7e
  }

  predicate Printable(s: seq<byte>) {
    forall i :: 0 <= i < |s| ==> IsPrintable(s[i])
  }

  predicate IdentifierByte(b: byte) {
    97 <= b <= 122 || 65 <= b <= 90 || 48 <= b <= 57 || b == 45 || b == 95 || b == DOT
  }

  /** Text that fits its storage with a terminator. */
  predicate Text(s: seq<byte>, capacity: nat) {
    0 < |s| < capacity && Printable(s)
  }

  predicate Identifier(s: seq<byte>) {
    Text(s, NAME_CAPACITY) && forall i :: 0 <= i < |s| ==> IdentifierByte(s[i])
  }

  predicate PathByte(b: byte) {
    0x21 <= b <= 0x7e && b != BACKSLASH && b != SLASH
  }

  /** A name of 1 to 63 bytes that does not consist of dots alone. */
  predicate Component(s: seq<byte>) {
    && 0 < |s| < 64 && (forall i :: 0 <= i < |s| ==> PathByte(s[i]))
    && exists i :: 0 <= i < |s| && s[i] != DOT
  }

  predicate Components(pieces: seq<seq<byte>>) {
    forall i :: 0 <= i < |pieces| ==> Component(pieces[i])
  }

  lemma ComponentsCons(piece: seq<byte>, rest: seq<seq<byte>>)
    ensures Components([piece] + rest) <==> Component(piece) && Components(rest)
  {
    hide Component;
    var all := [piece] + rest;
    assert all[0] == piece && forall i :: 0 <= i < |rest| ==> all[i + 1] == rest[i];
    if Components(all) {
      forall i | 0 <= i < |rest| ensures Component(rest[i]) { assert Component(all[i + 1]); }
    }
  }

  /** An absolute path of 1 to 8 components. */
  predicate CanonicalPath(path: seq<byte>) {
    && |path| > 1 && path[0] == SLASH
    && var pieces := Split(path[1..], SLASH);
       |pieces| <= MAX_MODULES && Components(pieces)
  }

  predicate Path(s: seq<byte>) {
    Text(s, PATH_CAPACITY) && CanonicalPath(s)
  }

  predicate IsDigit(b: byte) {
    48 <= b <= 57
  }

  function Digit(b: byte): (d: nat)
    requires IsDigit(b)
  {
    b as int - 48
  }

  /** Value of a decimal string. */
  function Number(s: seq<byte>): (n: nat)
    requires forall i :: 0 <= i < |s| ==> IsDigit(s[i])
  {
    if s == [] then 0 else 10 * Number(s[..|s| - 1]) + Digit(s[|s| - 1])
  }

  function Priority(s: seq<byte>): (n: Option<nat>) {
    if |s| > 0 && (forall i :: 0 <= i < |s| ==> IsDigit(s[i])) && Number(s) <= U32_MAX then Some(Number(s)) else None
  }

  // ---- The grammar

  datatype Outcome<T> = Done(value: T) | Refused(status: Status)

  predicate Complete(e: Entry) {
    && e.priority.Some? && e.protocol.Some? && e.image.Some? && e.kernel.Some?
    && e.id != [] && e.protocol.value != [] && e.image.value != [] && e.kernel.value != []
       && CanonicalPath(e.kernel.value)
  }

  function Used(e: Entry): (n: nat) {
    |e.modules| + if e.init.Some? then 1 else 0
  }

  datatype Field =
    | PriorityField | ProtocolField | ImageField | KernelField | CommandField | InitField | ModuleField | NoField

  function FieldOf(key: seq<byte>): (f: Field) {
    if key == PRIORITY then PriorityField
    else if key == PROTOCOL then ProtocolField
    else if key == IMAGE then ImageField
    else if key == KERNEL then KernelField
    else if key == CMDLINE then CommandField
    else if key == INIT_IMAGE then InitField
    else if key == MODULE then ModuleField
    else NoField
  }

  /** One key of an entry. */
  function Apply(e: Entry, key: seq<byte>, value: seq<byte>): (r: Outcome<Entry>) {
    match FieldOf(key)
    case PriorityField =>
      if e.priority.Some? || Priority(value).None? then Refused(DUPLICATE_KEY)
      else Done(e.(priority := Priority(value)))
    case ProtocolField =>
      if e.protocol.Some? then Refused(DUPLICATE_KEY)
      else if Identifier(value) then Done(e.(protocol := Some(value)))
      else Refused(SYNTAX)
    case ImageField =>
      if e.image.Some? then Refused(DUPLICATE_KEY)
      else if Identifier(value) then Done(e.(image := Some(value)))
      else Refused(SYNTAX)
    case KernelField =>
      if e.kernel.Some? then Refused(DUPLICATE_KEY) else if !Text(value, PATH_CAPACITY) then Refused(SYNTAX)
      else if CanonicalPath(value) then Done(e.(kernel := Some(value))) else Refused(BAD_PATH)
    case CommandField =>
      if e.command.Some? || !Text(value, COMMAND_CAPACITY) then Refused(DUPLICATE_KEY)
      else Done(e.(command := Some(value)))
    case InitField =>
      if e.init.Some? then Refused(DUPLICATE_KEY)
      else if |e.modules| == MAX_MODULES || !Path(value) then Refused(BAD_PATH) else Done(e.(init := Some(value)))
    case ModuleField =>
      if Used(e) == MAX_MODULES then Refused(OUT_OF_CAPACITY)
      else if Path(value) then Done(e.(modules := e.modules + [value])) else Refused(BAD_PATH)
    case NoField => Refused(UNKNOWN_KEY)
  }

  datatype State = State(version: bool, entries: seq<Entry>, active: Option<Entry>)

  const START := State(false, [], None)

  function Blank(id: seq<byte>): (e: Entry) {
    Entry(id, None, None, None, None, None, None, [])
  }

  ghost predicate HasId(entries: seq<Entry>, id: seq<byte>) {
    exists i :: 0 <= i < |entries| && entries[i].id == id
  }

  /** A line without its carriage return. */
  function Strip(raw: seq<byte>): (line: seq<byte>) {
    if raw != [] && raw[|raw| - 1] == CR then raw[..|raw| - 1] else raw
  }

  predicate Skipped(raw: seq<byte>) {
    Strip(raw) == [] || Strip(raw)[0] == HASH
  }

  ghost function Key(s: State, line: seq<byte>): (r: Outcome<State>) {
    var k := First(line, EQUALS);
    if k == 0 || k + 1 >= |line| || s.active.None? then Refused(SYNTAX)
    else var r := Apply(s.active.value, line[..k], line[k + 1..]);
      if r.Done? then Done(s.(active := Some(r.value))) else Refused(r.status)
  }

  ghost function Begin(s: State, id: seq<byte>): (r: Outcome<State>) {
    if s.active.Some? || |s.entries| == MAX_ENTRIES || !Identifier(id) then Refused(OUT_OF_CAPACITY)
    else if HasId(s.entries, id) then Refused(DUPLICATE_KEY)
    else Done(s.(active := Some(Blank(id))))
  }

  function Close(s: State): (r: Outcome<State>) {
    if s.active.None? || !Complete(s.active.value) then Refused(INCOMPLETE_ENTRY)
    else Done(s.(entries := s.entries + [s.active.value], active := None))
  }

  /** The effect of one line. */
  ghost function Step(s: State, raw: seq<byte>): (r: Outcome<State>) {
    var line := Strip(raw);
    if Skipped(raw) then Done(s)
    else if !Printable(line) then Refused(SYNTAX)
    else if !s.version then if line == VERSION then Done(s.(version := true)) else Refused(SYNTAX)
    else if ENTRY <= line then Begin(s, line[|ENTRY|..])
    else if line == END then Close(s)
    else Key(s, line)
  }

  ghost function Fold(s: State, lines: seq<seq<byte>>): (r: Outcome<State>)
    decreases |lines|, 0
  {
    if lines == [] then Done(s) else Continue(Step(s, lines[0]), lines[1..])
  }

  ghost function Continue(r: Outcome<State>, lines: seq<seq<byte>>): (q: Outcome<State>)
    decreases |lines|, 1
  {
    if r.Done? then Fold(r.value, lines) else r
  }

  function Finish(s: State): (r: Outcome<seq<Entry>>) {
    if !s.version || s.active.Some? || s.entries == [] then Refused(INCOMPLETE_ENTRY) else Done(s.entries)
  }

  /** What a text means: its entries, or why it is refused. */
  ghost function Meaning(text: seq<byte>): (r: Outcome<seq<Entry>>) {
    if |text| == 0 || |text| > MAX_BYTES then Refused(BAD_ARGUMENT)
    else var r := Fold(START, Split(text, LF));
      if r.Done? then Finish(r.value) else Refused(r.status)
  }
}

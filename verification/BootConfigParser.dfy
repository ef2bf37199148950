/** The bounded parser of the boot configuration and the selection of an entry. */
module BootConfigParser {
  import opened Bytes
  import opened BootConfig

  // ---- Scalars

  predicate Digits(s: seq<byte>) {
    forall i :: 0 <= i < |s| ==> IsDigit(s[i])
  }

  lemma {:induction false} NumberGrows(s: seq<byte>, i: nat)
    requires Digits(s) && i <= |s|
    ensures Number(s[..i]) <= Number(s)
  {
    if i < |s| {
      var t := s[..|s| - 1];
      NumberGrows(t, i);
      assert t[..i] == s[..i];
    } else {
      assert s[..i] == s;
    }
  }

  /** Decimal value, refused at the first digit that leaves 32 bits. */
  method ParsePriority(value: seq<byte>) returns (r: Option<nat>)
    ensures r == Priority(value)
  {
    hide Number;
    if |value| == 0 {
      return None;
    }
    var result: nat := 0;
    NumberEmpty();
    for i := 0 to |value|
      invariant Digits(value[..i]) && result == Number(value[..i]) <= U32_MAX
    {
      if !IsDigit(value[i]) {
        return None;
      }
      NumberNext(value, i);
      result := 10 * result + Digit(value[i]);
      if result > U32_MAX {
        if Digits(value) { NumberGrows(value, i + 1); }
        return None;
      }
    }
    assert value[..|value|] == value;
    return Some(result);
  }

  lemma NumberEmpty()
    ensures Number([]) == 0
  {
  }

  lemma NumberNext(s: seq<byte>, i: nat)
    requires i < |s| && Digits(s[..i]) && IsDigit(s[i])
    ensures Digits(s[..i + 1]) && Number(s[..i + 1]) == 10 * Number(s[..i]) + Digit(s[i])
  {
    assert s[..i + 1][..i] == s[..i];
  }

  method FindEquals(line: seq<byte>) returns (k: nat)
    ensures k == First(line, EQUALS)
  {
    for i := 0 to |line|
      invariant EQUALS !in line[..i]
    {
      if line[i] == EQUALS {
        FirstIs(line, EQUALS, i);
        return i;
      }
    }
    FirstIs(line, EQUALS, |line|);
    return |line|;
  }

  // ---- Paths

  function Dots(s: seq<byte>): (n: nat)
    ensures n <= |s|
  {
    if s == [] then 0 else Dots(s[..|s| - 1]) + if s[|s| - 1] == DOT then 1 else 0
  }

  lemma {:induction false} DotsAll(s: seq<byte>)
    ensures Dots(s) == |s| <==> forall i :: 0 <= i < |s| ==> s[i] == DOT
  {
    if s != [] {
      DotsAll(s[..|s| - 1]);
    }
  }

  /** The pieces from `start` on, behind `done` good ones, make a canonical path. */
  ghost predicate RestOk(path: seq<byte>, start: nat, done: nat)
    requires start <= |path|
  {
    var pieces := Split(path[start..], SLASH);
    done + |pieces| <= MAX_MODULES && Components(pieces)
  }

  /** Settle the piece that ends at `index`. */
  lemma RestStep(path: seq<byte>, start: nat, index: nat, done: nat)
    requires start <= index <= |path| && SLASH !in path[start..index] && (index < |path| ==> path[index] == SLASH)
    ensures index == |path| ==>
      (RestOk(path, start, done) <==> done + 1 <= MAX_MODULES && Component(path[start..index]))
    ensures index < |path| ==>
      (RestOk(path, start, done) <==> Component(path[start..index]) && RestOk(path, index + 1, done + 1))
    ensures index < |path| && done + 1 > MAX_MODULES ==> !RestOk(path, start, done)
  {
    hide Split, Components;
    var s, k := path[start..], index - start;
    var piece := path[start..index];
    assert s[..k] == piece;
    if index == |path| {
      assert s == piece && [piece] == [piece] + [];
      SplitNone(s, SLASH);
      ComponentsCons(piece, []);
      NoComponents();
    } else {
      SplitAt(s, SLASH, k);
      assert s[k + 1..] == path[index + 1..];
      ComponentsCons(piece, Split(path[index + 1..], SLASH));
    }
  }

  lemma NoComponents()
    ensures Components([])
  {
  }

  /** A byte that no component may hold, or a component that is too long, spoils the path. */
  lemma RestSpoiled(path: seq<byte>, start: nat, index: nat, done: nat)
    requires start <= index < |path| && SLASH !in path[start..index] && path[index] != SLASH
    requires !PathByte(path[index]) || index + 1 - start >= 64
    ensures !RestOk(path, start, done)
  {
    hide Split;
    var s, x := path[start..], index - start;
    var k := First(s, SLASH);
    assert forall i :: 0 <= i < x ==> s[i] == path[start..index][i];
    assert k > x;
    RestStep(path, start, start + k, done);
    var piece := path[start..start + k];
    assert piece[x] == path[index];
    assert SLASH !in piece by {
      assert piece == s[..k];
    }
    assert !Component(piece);
  }

  /** Walk the path once, counting bytes and dots of the current component. */
  method PathIsValid(path: seq<byte>) returns (ok: bool)
    ensures ok <==> CanonicalPath(path)
  {
    hide Split, Dots, PathByte, Components;
    if |path| < 2 || path[0] != SLASH {
      return false;
    }
    var bytes, components, dots := 0, 0, 0;
    var index := 1;
    assert CanonicalPath(path) <==> RestOk(path, 1, 0);
    DotsEmpty();
    assert path[1..1] == [];
    while true
      invariant 1 <= index <= |path| && 0 <= bytes <= index - 1 && bytes < 64 && 0 <= components
      invariant var piece := path[index - bytes..index];
        dots == Dots(piece) && forall i :: 0 <= i < |piece| ==> PathByte(piece[i])
      invariant CanonicalPath(path) <==> RestOk(path, index - bytes, components)
      decreases |path| - index
    {
      ghost var piece := path[index - bytes..index];
      PieceHasNoSlash(piece);
      if index == |path| || path[index] == SLASH {
        RestStep(path, index - bytes, index, components);
        PieceIs(piece);
        if bytes == 0 || dots == bytes {
          return false;
        }
        components := components + 1;
        if components > MAX_MODULES {
          return false;
        }
        if index == |path| {
          return true;
        }
        bytes, dots, index := 0, 0, index + 1;
        assert path[index..index] == [];
      } else {
        bytes := bytes + 1;
        if !PathByte(path[index]) || bytes >= 64 {
          RestSpoiled(path, index + 1 - bytes, index, components);
          return false;
        }
        DotsNext(piece, path[index]);
        assert path[index + 1 - bytes..index + 1] == piece + [path[index]];
        if path[index] == DOT {
          dots := dots + 1;
        }
        index := index + 1;
      }
    }
  }

  lemma DotsEmpty()
    ensures Dots([]) == 0
  {
  }

  lemma DotsNext(s: seq<byte>, b: byte)
    ensures Dots(s + [b]) == Dots(s) + if b == DOT then 1 else 0
  {
    assert (s + [b])[..|s|] == s;
  }

  lemma PieceHasNoSlash(s: seq<byte>)
    requires forall i :: 0 <= i < |s| ==> PathByte(s[i])
    ensures SLASH !in s
  {
  }

  lemma PieceIs(s: seq<byte>)
    requires |s| < 64 && forall i :: 0 <= i < |s| ==> PathByte(s[i])
    ensures Component(s) <==> |s| != 0 && Dots(s) != |s|
  {
    DotsAll(s);
  }

  // ---- Keys and lines

  /** Whether a value may be copied into storage of the given capacity. */
  method CopyFits(value: seq<byte>, capacity: nat, identifier: bool) returns (ok: bool)
    ensures ok <==> Text(value, capacity) && (identifier ==> forall i :: 0 <= i < |value| ==> IdentifierByte(value[i]))
  {
    if |value| == 0 || |value| >= capacity {
      return false;
    }
    for i := 0 to |value|
      invariant forall k :: 0 <= k < i ==> IsPrintable(value[k]) && (identifier ==> IdentifierByte(value[k]))
    {
      if !IsPrintable(value[i]) || (identifier && !IdentifierByte(value[i])) {
        return false;
      }
    }
    return true;
  }

  method PathFits(value: seq<byte>) returns (ok: bool)
    ensures ok <==> Path(value)
  {
    hide Text, CanonicalPath;
    ok := CopyFits(value, PATH_CAPACITY, false);
    if ok {
      ok := PathIsValid(value);
    }
  }

  /** Apply one key to the active entry. */
  method ApplyKey(e: Entry, key: seq<byte>, value: seq<byte>) returns (r: Outcome<Entry>)
    ensures r == Apply(e, key, value)
  {
    hide Text, CanonicalPath, Path, Priority;
    if key == PRIORITY {
      var number := ParsePriority(value);
      return if e.priority.Some? || number.None? then Refused(DUPLICATE_KEY) else Done(e.(priority := number));
    }
    if key == CMDLINE {
      var fits := CopyFits(value, COMMAND_CAPACITY, false);
      return if e.command.Some? || !fits then Refused(DUPLICATE_KEY) else Done(e.(command := Some(value)));
    }
    if key == INIT_IMAGE {
      if e.init.Some? {
        return Refused(DUPLICATE_KEY);
      }
      var fits := PathFits(value);
      return if |e.modules| == MAX_MODULES || !fits then Refused(BAD_PATH) else Done(e.(init := Some(value)));
    }
    if key == MODULE {
      if Used(e) == MAX_MODULES {
        return Refused(OUT_OF_CAPACITY);
      }
      var fits := PathFits(value);
      return if fits then Done(e.(modules := e.modules + [value])) else Refused(BAD_PATH);
    }
    r := ApplyRequired(e, key, value);
  }

  /** The three required text fields share one path. */
  method ApplyRequired(e: Entry, key: seq<byte>, value: seq<byte>) returns (r: Outcome<Entry>)
    requires key != PRIORITY && key != CMDLINE && key != INIT_IMAGE && key != MODULE
    ensures r == Apply(e, key, value)
  {
    hide Text, CanonicalPath, Path, Priority;
    if key != PROTOCOL && key != IMAGE && key != KERNEL {
      return Refused(UNKNOWN_KEY);
    }
    if (key == PROTOCOL && e.protocol.Some?) || (key == IMAGE && e.image.Some?) || (key == KERNEL && e.kernel.Some?) {
      return Refused(DUPLICATE_KEY);
    }
    var fits := CopyFits(value, if key == KERNEL then PATH_CAPACITY else NAME_CAPACITY, key != KERNEL);
    if !fits {
      return Refused(SYNTAX);
    }
    if key == KERNEL {
      var valid := PathIsValid(value);
      return if valid then Done(e.(kernel := Some(value))) else Refused(BAD_PATH);
    }
    return Done(if key == PROTOCOL then e.(protocol := Some(value)) else e.(image := Some(value)));
  }

  /** Whether an earlier entry already has the id. */
  method IsTaken(entries: seq<Entry>, id: seq<byte>) returns (taken: bool)
    ensures taken <==> HasId(entries, id)
  {
    for i := 0 to |entries|
      invariant forall k :: 0 <= k < i ==> entries[k].id != id
    {
      if entries[i].id == id {
        return true;
      }
    }
    return false;
  }

  /** The effect of one line on the parser's state. */
  method ApplyLine(s: State, raw: seq<byte>) returns (r: Outcome<State>)
    ensures r == Step(s, raw)
  {
    hide Apply, Complete, Text, HasId;
    var line := Strip(raw);
    if line == [] || line[0] == HASH {
      return Done(s);
    }
    for i := 0 to |line|
      invariant forall k :: 0 <= k < i ==> IsPrintable(line[k])
    {
      if !IsPrintable(line[i]) {
        return Refused(SYNTAX);
      }
    }
    if !s.version {
      return if line == VERSION then Done(s.(version := true)) else Refused(SYNTAX);
    }
    if |line| >= |ENTRY| && line[..|ENTRY|] == ENTRY {
      var id := line[|ENTRY|..];
      var fits := CopyFits(id, NAME_CAPACITY, true);
      if s.active.Some? || |s.entries| == MAX_ENTRIES || !fits {
        return Refused(OUT_OF_CAPACITY);
      }
      var taken := IsTaken(s.entries, id);
      return if taken then Refused(DUPLICATE_KEY) else Done(s.(active := Some(Blank(id))));
    }
    if line == END {
      return if s.active.None? || !Complete(s.active.value) then Refused(INCOMPLETE_ENTRY)
             else Done(s.(entries := s.entries + [s.active.value], active := None));
    }
    var k := FindEquals(line);
    if k == 0 || k + 1 >= |line| || s.active.None? {
      return Refused(SYNTAX);
    }
    var applied := ApplyKey(s.active.value, line[..k], line[k + 1..]);
    return if applied.Done? then Done(s.(active := Some(applied.value))) else Refused(applied.status);
  }

  /** Parse a text line by line; the input is read once and nothing of it is kept. */
  method Parse(input: seq<byte>) returns (r: Outcome<seq<Entry>>)
    ensures r == Meaning(input)
  {
    hide Step, Split, Finish;
    if |input| == 0 || |input| > MAX_BYTES {
      return Refused(BAD_ARGUMENT);
    }
    var s, start, index := START, 0, 0;
    assert input[0..] == input;
    while index <= |input|
      invariant 0 <= start <= |input| && start <= index <= |input|
      invariant LF !in input[start..index]
      invariant Fold(s, Split(input[start..], LF)) == Fold(START, Split(input, LF))
      decreases |input| - index
    {
      if index < |input| && input[index] != LF {
        assert input[start..index + 1] == input[start..index] + [input[index]];
        index := index + 1;
        continue;
      }
      LineEnds(s, input, start, index);
      var applied := ApplyLine(s, input[start..index]);
      if applied.Refused? {
        return Refused(applied.status);
      }
      s := applied.value;
      if index == |input| {
        break;
      }
      start, index := index + 1, index + 1;
      assert input[start..index] == [];
    }
    return Finish(s);
  }

  /** At the end of a line the rest of the fold is that line's step and the remaining text. */
  lemma LineEnds(s: State, input: seq<byte>, start: nat, index: nat)
    requires start <= index <= |input| && LF !in input[start..index] && (index < |input| ==> input[index] == LF)
    ensures var r := Step(s, input[start..index]);
      Fold(s, Split(input[start..], LF)) == if index < |input| then Continue(r, Split(input[index + 1..], LF)) else r
  {
    hide Step, Split;
    var rest, k, line := input[start..], index - start, input[start..index];
    assert rest[..k] == line;
    if index < |input| {
      SplitAt(rest, LF, k);
      assert rest[k + 1..] == input[index + 1..];
      FoldCons(s, line, Split(input[index + 1..], LF));
    } else {
      assert rest == line;
      SplitNone(rest, LF);
      FoldCons(s, line, []);
      assert [line] == [line] + [];
    }
  }

  lemma FoldCons(s: State, line: seq<byte>, rest: seq<seq<byte>>)
    ensures Fold(s, [line] + rest) == Continue(Step(s, line), rest)
  {
    hide Step;
    assert ([line] + rest)[1..] == rest;
  }
}

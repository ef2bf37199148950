/** Selection of the entry with the highest priority, and exactly when it is called ambiguous. */
module BootConfigSelect {
  import opened Bytes
  import opened BootConfig
  import opened BootConfigLaws
  import opened BootConfigParser

  /** Greatest of a non-empty list. */
  function Maximum(p: seq<nat>): (m: nat)
    requires |p| > 0
    ensures (forall i :: 0 <= i < |p| ==> p[i] <= m) && m in p
  {
    if |p| == 1 then p[0]
    else var m := Maximum(p[..|p| - 1]); if p[|p| - 1] > m then p[|p| - 1] else m
  }

  /** The element at `i` equals the greatest before it. */
  predicate TieAt(p: seq<nat>, i: nat)
    requires i < |p|
  {
    i > 0 && p[i] == Maximum(p[..i])
  }

  ghost predicate NoTie(p: seq<nat>) {
    forall i :: 0 <= i < |p| ==> !TieAt(p, i)
  }

  predicate StrictMaximum(p: seq<nat>, m: nat) {
    m < |p| && forall i :: 0 <= i < |p| && i != m ==> p[i] < p[m]
  }

  function Priorities(entries: seq<Entry>): (p: seq<nat>)
    ensures |p| == |entries|
  {
    seq(|entries|, i requires 0 <= i < |entries| => if entries[i].priority.Some? then entries[i].priority.value else 0)
  }

  ghost predicate AllComplete(entries: seq<Entry>) {
    forall i :: 0 <= i < |entries| ==> Complete(entries[i])
  }

  /** Scan for the highest priority; a tie with the best so far is ambiguous at once. */
  method Select(entries: seq<Entry>) returns (r: Outcome<nat>)
    ensures r == Refused(BAD_ARGUMENT) <==> |entries| == 0 || |entries| > MAX_ENTRIES
    ensures r.Done? <==> 0 < |entries| <= MAX_ENTRIES && AllComplete(entries) && NoTie(Priorities(entries))
    ensures r.Done? ==> StrictMaximum(Priorities(entries), r.value)
    ensures 0 < |entries| <= MAX_ENTRIES && AllComplete(entries) && !NoTie(Priorities(entries)) ==>
      r == Refused(AMBIGUOUS)
  {
    hide Complete, TieAt;
    if |entries| == 0 || |entries| > MAX_ENTRIES {
      return Refused(BAD_ARGUMENT);
    }
    ghost var p := Priorities(entries);
    var selected := 0;
    if !Complete(entries[0]) {
      return Refused(INCOMPLETE_ENTRY);
    }
    FirstIsNoTie(p);
    for index := 1 to |entries|
      invariant selected < index && AllComplete(entries[..index]) && NoTie(p[..index])
        && StrictMaximum(p[..index], selected)
    {
      if !Complete(entries[index]) {
        return Refused(INCOMPLETE_ENTRY);
      }
      Priority(entries, index);
      Priority(entries, selected);
      TieMeans(p, index, selected);
      if entries[index].priority.value > entries[selected].priority.value {
        selected := index;
      } else if entries[index].priority.value == entries[selected].priority.value {
        return Refused(AMBIGUOUS);
      }
    }
    assert p[..|p|] == p && entries[..|entries|] == entries;
    return Done(selected);
  }

  lemma Priority(entries: seq<Entry>, i: nat)
    requires i < |entries| && Complete(entries[i])
    ensures entries[i].priority.Some? && Priorities(entries)[i] == entries[i].priority.value
  {
  }

  lemma FirstIsNoTie(p: seq<nat>)
    requires |p| > 0
    ensures NoTie(p[..1]) && StrictMaximum(p[..1], 0)
  {
  }

  /** One more element: whether it ties, and what the strict maximum then is. */
  lemma TieMeans(p: seq<nat>, i: nat, m: nat)
    requires 0 < i < |p| && NoTie(p[..i]) && StrictMaximum(p[..i], m)
    ensures TieAt(p, i) <==> p[i] == p[m]
    ensures NoTie(p[..i + 1]) <==> p[i] != p[m]
    ensures NoTie(p) ==> NoTie(p[..i + 1])
    ensures p[i] > p[m] ==> StrictMaximum(p[..i + 1], i)
    ensures p[i] < p[m] ==> StrictMaximum(p[..i + 1], m)
  {
    var q := p[..i + 1];
    assert forall k :: 0 <= k < i ==> p[..i][k] == p[k] == q[k];
    assert p[..i][m] == p[m];
    forall k | 0 <= k <= i ensures TieAt(q, k) <==> TieAt(p, k) {
      assert q[..k] == p[..k];
    }
    forall k | 0 <= k < i ensures !TieAt(p, k) {
      assert !TieAt(p[..i], k);
      assert p[..i][..k] == p[..k];
    }
  }

  // ---- What AMBIGUOUS means

  /** Success is exactly a strict maximum with no tie among the entries in front of it. */
  lemma SelectExact(p: seq<nat>)
    requires |p| > 0
    ensures NoTie(p) <==> exists m: nat :: StrictMaximum(p, m) && NoTie(p[..m])
  {
    hide TieAt;
    if NoTie(p) {
      var m := StrictOf(p, |p|);
      PrefixNoTie(p, m);
    }
    if exists m: nat :: StrictMaximum(p, m) && NoTie(p[..m]) {
      var m: nat :| StrictMaximum(p, m) && NoTie(p[..m]);
      forall i | 0 <= i < |p| ensures !TieAt(p, i) {
        NotTie(p, m, i);
      }
    }
  }

  lemma PrefixNoTie(p: seq<nat>, m: nat)
    requires NoTie(p) && m <= |p|
    ensures NoTie(p[..m])
  {
    forall i | 0 <= i < m ensures !TieAt(p[..m], i) {
      assert p[..m][..i] == p[..i] && !TieAt(p, i);
    }
  }

  lemma NotTie(p: seq<nat>, m: nat, i: nat)
    requires StrictMaximum(p, m) && NoTie(p[..m]) && i < |p|
    ensures !TieAt(p, i)
  {
    if i < m {
      assert p[..m][..i] == p[..i] && !TieAt(p[..m], i);
    } else if i == m {
      assert i > 0 ==> forall k :: 0 <= k < i ==> p[..i][k] < p[m];
    } else {
      assert p[..i][m] == p[m];
    }
  }

  lemma {:induction false} StrictOf(p: seq<nat>, n: nat) returns (m: nat)
    requires 0 < n <= |p| && NoTie(p)
    ensures m < n && StrictMaximum(p[..n], m)
    ensures n == |p| ==> StrictMaximum(p, m)
  {
    if n == 1 {
      m := 0;
    } else {
      var k := StrictOf(p, n - 1);
      PrefixNoTie(p, n - 1);
      PrefixNoTie(p, n);
      TieMeans(p, n - 1, k);
      m := if p[n - 1] > p[k] then n - 1 else k;
    }
    assert n == |p| ==> p[..n] == p;
  }

  /** The order of the entries matters: a tie below the maximum is reported only when it comes first. */
  lemma OrderMatters()
    ensures StrictMaximum([1, 1, 5], 2) && !NoTie([1, 1, 5])
    ensures StrictMaximum([5, 1, 1], 0) && NoTie([5, 1, 1])
  {
    assert TieAt([1, 1, 5], 1) by { assert [1, 1, 5][..1] == [1]; }
    var p: seq<nat> := [5, 1, 1];
    NoTieOne(p);
  }

  lemma NoTieOne(p: seq<nat>)
    requires p == [5, 1, 1]
    ensures NoTie(p)
  {
    assert p[..1] == [5] && p[..2] == [5, 1] && [5, 1][..1] == [5];
  }

  /** Parse a text and select from it: among accepted texts only a tie is refused. */
  method SelectParsed(text: seq<byte>) returns (parsed: Outcome<seq<Entry>>, r: Outcome<nat>)
    ensures parsed == Meaning(text)
    ensures parsed.Refused? ==> r == Refused(parsed.status)
    ensures parsed.Done? ==> (r.Done? <==> NoTie(Priorities(parsed.value))) && (r.Refused? ==> r == Refused(AMBIGUOUS))
    ensures r.Done? ==> StrictMaximum(Priorities(parsed.value), r.value)
  {
    hide NoTie, StrictMaximum, Meaning;
    parsed := Parse(text);
    if parsed.Refused? {
      return parsed, Refused(parsed.status);
    }
    ParsedIsSound(text);
    r := Select(parsed.value);
  }

  /** Print an entry, parse the text and select: the entry comes back and is the one selected. */
  method PrintedIsSelected(e: Entry) returns (parsed: Outcome<seq<Entry>>, r: Outcome<nat>)
    requires Complete(e) && Formed(e)
    ensures parsed == Done([e]) && r == Done(0)
  {
    hide Meaning;
    IsPrinted(e);
    RoundTrip(e);
    var text := Print(e);
    parsed, r := SelectParsed(text);
    assert [e][0] == e;
  }
}

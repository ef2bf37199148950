/** Capability resolution, edge construction and the verdict of the registry's graph checks. */
module PluginRegistry {
  import opened Bytes
  import opened PluginGraph

  datatype Plugin = Plugin(kind: nat, id: string, phase: nat, offers: nat, needs: nat)

  datatype Selection = Selection(kind: nat, id: string)

  datatype Product = Product(selections: seq<Selection>, required: nat)

  datatype Status =
    | OK | MISSING_CAPABILITY | DUPLICATE_PROVIDER | AMBIGUOUS_SELECTION | DEPENDENCY_CYCLE | PHASE_INVERSION

  /** Architecture, firmware personality and firmware service directory have one authority. */
  predicate IsAuthority(bit: nat) {
    bit in {16, 24, 25}
  }

  /** Capabilities the immutable service directory may supply instead of a plugin. */
  predicate IsService(bit: nat) {
    bit <= 12 || bit in {23, 27, 29}
  }

  predicate Provides(plugin: Plugin, bit: nat) {
    Bit(plugin.offers, bit)
  }

  predicate Selects(product: Product, plugin: Plugin, bit: nat) {
    Provides(plugin, bit) && Selection(plugin.kind, plugin.id) in product.selections
  }

  /** Whether the product names this plugin as provider of the capability. */
  method IsSelectedProvider(product: Product, plugin: Plugin, bit: nat) returns (r: bool)
    ensures r <==> Selects(product, plugin, bit)
  {
    for i := 0 to |product.selections|
      invariant Provides(plugin, bit) ==> Selection(plugin.kind, plugin.id) !in product.selections[..i]
    {
      if product.selections[i].kind == plugin.kind && product.selections[i].id == plugin.id && Provides(plugin, bit) {
        return true;
      }
    }
    return false;
  }

  // ---- Resolution

  datatype Resolved = Provider(index: nat) | Unresolved(status: Status)

  /** Indices below `n` of the plugins that provide a capability. */
  function Providers(plugins: seq<Plugin>, bit: nat, n: nat): (s: seq<nat>)
    requires n <= |plugins|
  {
    if n == 0 then []
    else Providers(plugins, bit, n - 1) + (if Provides(plugins[n - 1], bit) then [n - 1] else [])
  }

  /** Indices below `n` of the plugins the product selects for a capability. */
  function Selected(plugins: seq<Plugin>, product: Product, bit: nat, n: nat): (s: seq<nat>)
    requires n <= |plugins|
  {
    if n == 0 then []
    else Selected(plugins, product, bit, n - 1) + (if Selects(product, plugins[n - 1], bit) then [n - 1] else [])
  }

  function Resolution(plugins: seq<Plugin>, product: Product, bit: nat): (r: Resolved)
  {
    var p, s := Providers(plugins, bit, |plugins|), Selected(plugins, product, bit, |plugins|);
    if |s| > 1 then Unresolved(AMBIGUOUS_SELECTION)
    else if |p| == 0 then Unresolved(MISSING_CAPABILITY)
    else if IsAuthority(bit) then if |p| == 1 then Provider(p[0]) else Unresolved(DUPLICATE_PROVIDER)
    else if |s| == 1 then Provider(s[0])
    else if |p| == 1 then Provider(p[0])
    else Unresolved(AMBIGUOUS_SELECTION)
  }

  ghost predicate OnlyProvider(plugins: seq<Plugin>, bit: nat, i: nat) {
    i < |plugins| && forall j :: 0 <= j < |plugins| ==> (Provides(plugins[j], bit) <==> j == i)
  }

  ghost predicate OnlySelected(plugins: seq<Plugin>, product: Product, bit: nat, i: nat) {
    i < |plugins| && forall j :: 0 <= j < |plugins| ==> (Selects(product, plugins[j], bit) <==> j == i)
  }

  /** No two of the listed providers are the same, and each of them provides. */
  lemma {:induction false} ProvidersAre(plugins: seq<Plugin>, bit: nat, n: nat)
    requires n <= |plugins|
    ensures var s := Providers(plugins, bit, n);
      && (forall k :: 0 <= k < |s| ==> s[k] < n && Provides(plugins[s[k]], bit))
      && (|s| > 1 ==> s[0] < s[1])
    ensures forall i :: 0 <= i < n && Provides(plugins[i], bit) ==> i in Providers(plugins, bit, n)
  {
    hide Provides;
    if n > 0 {
      ProvidersAre(plugins, bit, n - 1);
    }
  }

  lemma {:induction false} SelectedAre(plugins: seq<Plugin>, product: Product, bit: nat, n: nat)
    requires n <= |plugins|
    ensures var s := Selected(plugins, product, bit, n);
      && (forall k :: 0 <= k < |s| ==> s[k] < n && Selects(product, plugins[s[k]], bit))
      && (|s| > 1 ==> s[0] < s[1])
    ensures forall i :: 0 <= i < n && Selects(product, plugins[i], bit) ==> i in Selected(plugins, product, bit, n)
  {
    hide Selects;
    if n > 0 {
      SelectedAre(plugins, product, bit, n - 1);
    }
  }

  /** The list has one element exactly when there is an only provider. */
  lemma OneProvider(plugins: seq<Plugin>, bit: nat, i: nat)
    ensures Providers(plugins, bit, |plugins|) == [i] <==> OnlyProvider(plugins, bit, i)
  {
    hide Provides, Providers;
    ProvidersAre(plugins, bit, |plugins|);
    var s := Providers(plugins, bit, |plugins|);
    if s == [i] {
      assert s[0] == i;
    }
    if OnlyProvider(plugins, bit, i) {
      assert i in s;
      assert s == [i];
    }
  }

  lemma OneSelected(plugins: seq<Plugin>, product: Product, bit: nat, i: nat)
    ensures Selected(plugins, product, bit, |plugins|) == [i] <==> OnlySelected(plugins, product, bit, i)
  {
    hide Selects, Selected;
    SelectedAre(plugins, product, bit, |plugins|);
    var s := Selected(plugins, product, bit, |plugins|);
    if s == [i] {
      assert s[0] == i;
    }
    if OnlySelected(plugins, product, bit, i) {
      assert i in s;
      assert s == [i];
    }
  }

  lemma SelectedProvides(plugins: seq<Plugin>, product: Product, bit: nat)
    ensures var p, s := Providers(plugins, bit, |plugins|), Selected(plugins, product, bit, |plugins|);
      && (forall k :: 0 <= k < |s| ==> s[k] in p)
      && (|s| > 1 ==> |p| > 1)
  {
    hide Providers, Selected, Bit;
    var p, s := Providers(plugins, bit, |plugins|), Selected(plugins, product, bit, |plugins|);
    ProvidersAre(plugins, bit, |plugins|);
    SelectedAre(plugins, product, bit, |plugins|);
    if |s| > 1 {
      assert s[0] in p && s[1] in p;
    }
  }

  /** A capability resolves to its only provider or, unless it needs an authority, to the only selected one. */
  lemma ResolutionMeaning(plugins: seq<Plugin>, product: Product, bit: nat, i: nat)
    ensures Resolution(plugins, product, bit) == Provider(i) <==>
      || OnlyProvider(plugins, bit, i)
      || (!IsAuthority(bit) && OnlySelected(plugins, product, bit, i))
  {
    hide Bit, Providers, Selected, OnlyProvider, OnlySelected, Selects;
    var p, s := Providers(plugins, bit, |plugins|), Selected(plugins, product, bit, |plugins|);
    OneProvider(plugins, bit, i);
    OneSelected(plugins, product, bit, i);
    SelectedProvides(plugins, product, bit);
    assert |p| == 1 && p[0] == i ==> p == [i];
    assert |s| == 1 && s[0] == i ==> s == [i];
    assert |s| == 1 ==> s[0] in p;
  }

  /** One pass over the registry that resolves a capability. */
  method FindProvider(plugins: seq<Plugin>, product: Product, bit: nat) returns (r: Resolved)
    ensures r == Resolution(plugins, product, bit)
  {
    hide Bit, Selects;
    var found: Option<nat>, selected: Option<nat>, count := None, None, 0;
    for i := 0 to |plugins|
      invariant count == |Providers(plugins, bit, i)|
      invariant if count == 0 then found.None? else found == Some(Providers(plugins, bit, i)[0])
      invariant if selected.None? then Selected(plugins, product, bit, i) == []
                else Selected(plugins, product, bit, i) == [selected.value]
    {
      if !Provides(plugins[i], bit) {
        NotSelected(product, plugins[i], bit);
        continue;
      }
      count := count + 1;
      var chosen := IsSelectedProvider(product, plugins[i], bit);
      if chosen {
        if selected.Some? {
          SelectedGrows(plugins, product, bit, i + 1, |plugins|);
          return Unresolved(AMBIGUOUS_SELECTION);
        }
        selected := Some(i);
      }
      if found.None? {
        found := Some(i);
      }
    }
    if count == 0 {
      return Unresolved(MISSING_CAPABILITY);
    }
    if IsAuthority(bit) {
      if count != 1 {
        return Unresolved(DUPLICATE_PROVIDER);
      }
      return Provider(found.value);
    }
    if selected.Some? {
      return Provider(selected.value);
    }
    if count != 1 {
      return Unresolved(AMBIGUOUS_SELECTION);
    }
    return Provider(found.value);
  }

  lemma NotSelected(product: Product, plugin: Plugin, bit: nat)
    requires !Provides(plugin, bit)
    ensures !Selects(product, plugin, bit)
  {
  }

  lemma {:induction false} SelectedGrows(plugins: seq<Plugin>, product: Product, bit: nat, i: nat, n: nat)
    requires i <= n <= |plugins|
    ensures |Selected(plugins, product, bit, i)| <= |Selected(plugins, product, bit, n)|
    decreases n - i
  {
    if i < n {
      SelectedGrows(plugins, product, bit, i, n - 1);
    }
  }

  // ---- Edges

  function Union(a: nat, b: nat): (r: nat) {
    if a == 0 then b else if b == 0 then a
    else Union(a / 2, b / 2) * 2 + (if a % 2 == 1 || b % 2 == 1 then 1 else 0)
  }

  lemma {:induction false} UnionIs(a: nat, b: nat, i: nat)
    ensures Bit(Union(a, b), i) <==> Bit(a, i) || Bit(b, i)
  {
    NoBits(i);
    if a != 0 && b != 0 && i > 0 {
      UnionIs(a / 2, b / 2, i - 1);
    }
  }

  ghost predicate Offered(plugins: seq<Plugin>, bit: nat) {
    exists i :: 0 <= i < |plugins| && Provides(plugins[i], bit)
  }

  /** The union of everything the registry provides. */
  method Aggregate(plugins: seq<Plugin>) returns (aggregate: nat)
    ensures forall bit: nat :: Bit(aggregate, bit) <==> Offered(plugins, bit)
  {
    hide Bit;
    aggregate := 0;
    forall bit: nat ensures !Bit(0, bit) { NoBits(bit); }
    for i := 0 to |plugins|
      invariant forall bit: nat :: Bit(aggregate, bit) <==> Offered(plugins[..i], bit)
    {
      forall bit: nat ensures Bit(Union(aggregate, plugins[i].offers), bit) <==> Offered(plugins[..i + 1], bit) {
        UnionIs(aggregate, plugins[i].offers, bit);
        OfferedNext(plugins, i, bit);
      }
      aggregate := Union(aggregate, plugins[i].offers);
    }
    assert plugins[..|plugins|] == plugins;
  }

  lemma OfferedNext(plugins: seq<Plugin>, i: nat, bit: nat)
    requires i < |plugins|
    ensures Offered(plugins[..i + 1], bit) <==> Offered(plugins[..i], bit) || Provides(plugins[i], bit)
  {
    hide Provides;
    var before, after := plugins[..i], plugins[..i + 1];
    assert after == before + [plugins[i]];
    if Offered(before, bit) {
      var k :| 0 <= k < |before| && Provides(before[k], bit);
      assert after[k] == before[k];
    }
    assert after[i] == plugins[i];
    if Offered(after, bit) && !Provides(plugins[i], bit) {
      var k :| 0 <= k < |after| && Provides(after[k], bit);
      assert before[k] == after[k];
    }
  }

  /** A capability that only the service directory supplies. */
  ghost predicate External(plugins: seq<Plugin>, bit: nat) {
    IsService(bit) && !Offered(plugins, bit)
  }

  /** Judgement on one capability that one plugin requires. */
  ghost function Verdict(plugins: seq<Plugin>, product: Product, c: nat, bit: nat): (s: Status)
    requires c < |plugins|
  {
    if !Bit(plugins[c].needs, bit) then OK
    else if External(plugins, bit) then if Bit(product.required, bit) then OK else MISSING_CAPABILITY
    else match Resolution(plugins, product, bit)
      case Unresolved(status) => status
      case Provider(p) =>
        if p == c then DEPENDENCY_CYCLE
        else if p < |plugins| && plugins[p].phase > plugins[c].phase then PHASE_INVERSION
        else OK
  }

  /** The plugin a capability stands for: its only provider or, unless it needs an authority, the only selected one. */
  ghost predicate Stands(plugins: seq<Plugin>, product: Product, bit: nat, p: nat) {
    OnlyProvider(plugins, bit, p) || (!IsAuthority(bit) && OnlySelected(plugins, product, bit, p))
  }

  ghost predicate TwoProvide(plugins: seq<Plugin>, bit: nat) {
    exists i, j :: 0 <= i < j < |plugins| && Provides(plugins[i], bit) && Provides(plugins[j], bit)
  }

  ghost predicate TwoSelected(plugins: seq<Plugin>, product: Product, bit: nat) {
    exists i, j :: 0 <= i < j < |plugins| && Selects(product, plugins[i], bit) && Selects(product, plugins[j], bit)
  }

  ghost predicate NoneSelected(plugins: seq<Plugin>, product: Product, bit: nat) {
    forall i :: 0 <= i < |plugins| ==> !Selects(product, plugins[i], bit)
  }

  /** A capability that `c` requires comes from another plugin of no later phase, or from a required service. */
  ghost predicate Supplied(plugins: seq<Plugin>, product: Product, c: nat, bit: nat)
    requires c < |plugins|
  {
    || (exists p ::
          0 <= p < |plugins| && p != c && Stands(plugins, product, bit, p) && plugins[p].phase <= plugins[c].phase)
    || (!Offered(plugins, bit) && IsService(bit) && Bit(product.required, bit))
  }

  /** What each status says about a capability that `c` requires. */
  ghost predicate Blamed(plugins: seq<Plugin>, product: Product, c: nat, bit: nat, status: Status)
    requires c < |plugins|
  {
    match status
    case OK => Supplied(plugins, product, c, bit)
    case MISSING_CAPABILITY => !Offered(plugins, bit) && (IsService(bit) ==> !Bit(product.required, bit))
    case DUPLICATE_PROVIDER => IsAuthority(bit) && TwoProvide(plugins, bit) && !TwoSelected(plugins, product, bit)
    case AMBIGUOUS_SELECTION =>
      || TwoSelected(plugins, product, bit)
      || (!IsAuthority(bit) && TwoProvide(plugins, bit) && NoneSelected(plugins, product, bit))
    case DEPENDENCY_CYCLE => Stands(plugins, product, bit, c)
    case PHASE_INVERSION =>
      exists p :: 0 <= p < |plugins| && Stands(plugins, product, bit, p) && plugins[p].phase > plugins[c].phase
  }

  /** The judgement in terms of who provides and who is selected; a capability `c` does not require is fine. */
  ghost predicate Judged(plugins: seq<Plugin>, product: Product, c: nat, bit: nat, status: Status)
    requires c < |plugins|
  {
    if Bit(plugins[c].needs, bit) then Blamed(plugins, product, c, bit, status) else status == OK
  }

  /** A list of providers is empty, has one element or has two, exactly as the plugins say. */
  lemma ProviderCounts(plugins: seq<Plugin>, bit: nat)
    ensures var p := Providers(plugins, bit, |plugins|);
      (|p| == 0 <==> !Offered(plugins, bit)) && (|p| > 1 <==> TwoProvide(plugins, bit))
  {
    hide Provides, Providers;
    var p := Providers(plugins, bit, |plugins|);
    ProvidersAre(plugins, bit, |plugins|);
    if |p| > 0 {
      assert Provides(plugins[p[0]], bit);
    }
    if |p| > 1 {
      assert p[0] < p[1] && Provides(plugins[p[1]], bit);
    }
    if TwoProvide(plugins, bit) {
      var i, j :| 0 <= i < j < |plugins| && Provides(plugins[i], bit) && Provides(plugins[j], bit);
      assert i in p && j in p;
    }
  }

  lemma SelectedCounts(plugins: seq<Plugin>, product: Product, bit: nat)
    ensures var s := Selected(plugins, product, bit, |plugins|);
      (|s| == 0 <==> NoneSelected(plugins, product, bit)) && (|s| > 1 <==> TwoSelected(plugins, product, bit))
  {
    hide Selects, Selected;
    var s := Selected(plugins, product, bit, |plugins|);
    SelectedAre(plugins, product, bit, |plugins|);
    if |s| > 0 {
      assert Selects(product, plugins[s[0]], bit);
    }
    if |s| > 1 {
      assert s[0] < s[1] && Selects(product, plugins[s[1]], bit);
    }
    if TwoSelected(plugins, product, bit) {
      var i, j :| 0 <= i < j < |plugins| && Selects(product, plugins[i], bit) && Selects(product, plugins[j], bit);
      assert i in s && j in s;
    }
  }

  /** At most one plugin stands for a capability, and then somebody offers it and no refusal applies. */
  lemma StandsAlone(plugins: seq<Plugin>, product: Product, bit: nat, p: nat)
    requires Stands(plugins, product, bit, p)
    ensures p < |plugins| && Resolution(plugins, product, bit) == Provider(p) && Offered(plugins, bit)
  {
    hide Resolution, Bit;
    ResolutionMeaning(plugins, product, bit, p);
    assert Provides(plugins[p], bit);
  }

  /** The resolution refuses exactly for the reasons its status gives. */
  lemma RefusalMeaning(plugins: seq<Plugin>, product: Product, bit: nat, status: Status)
    ensures Resolution(plugins, product, bit) == Unresolved(status) <==>
      match status
      case MISSING_CAPABILITY => !Offered(plugins, bit)
      case DUPLICATE_PROVIDER => IsAuthority(bit) && TwoProvide(plugins, bit) && !TwoSelected(plugins, product, bit)
      case AMBIGUOUS_SELECTION =>
        || TwoSelected(plugins, product, bit)
        || (!IsAuthority(bit) && TwoProvide(plugins, bit) && NoneSelected(plugins, product, bit))
      case _ => false
  {
    hide Providers, Selected, Offered, TwoProvide, TwoSelected, NoneSelected;
    ProviderCounts(plugins, bit);
    SelectedCounts(plugins, product, bit);
    SelectedProvides(plugins, product, bit);
  }

  /** The judgement of the code is the one the plugins and the product call for. */
  lemma VerdictMeans(plugins: seq<Plugin>, product: Product, c: nat, bit: nat, status: Status)
    requires c < |plugins|
    ensures Verdict(plugins, product, c, bit) == status <==> Judged(plugins, product, c, bit, status)
  {
    hide Resolution, Bit, Offered, Stands, TwoProvide, TwoSelected, NoneSelected;
    RefusalMeaning(plugins, product, bit, status);
    ProviderExists(plugins, product, bit);
    var r := Resolution(plugins, product, bit);
    if r.Provider? {
      ProviderStands(plugins, product, bit, r.index);
    }
    forall p: nat | Stands(plugins, product, bit, p) ensures p < |plugins| && r == Provider(p)
      && Offered(plugins, bit) {
      StandsAlone(plugins, product, bit, p);
    }
    MissingIsUnoffered(plugins, product, bit);
  }

  lemma ProviderStands(plugins: seq<Plugin>, product: Product, bit: nat, p: nat)
    requires Resolution(plugins, product, bit) == Provider(p)
    ensures Stands(plugins, product, bit, p)
  {
    hide Resolution, Bit, OnlyProvider, OnlySelected;
    ResolutionMeaning(plugins, product, bit, p);
  }

  lemma MissingIsUnoffered(plugins: seq<Plugin>, product: Product, bit: nat)
    ensures !Offered(plugins, bit) <==> Resolution(plugins, product, bit) == Unresolved(MISSING_CAPABILITY)
  {
    hide Resolution;
    RefusalMeaning(plugins, product, bit, MISSING_CAPABILITY);
  }

  /** `c` requires a capability that `p` stands for. */
  ghost predicate Needs(plugins: seq<Plugin>, product: Product, p: nat, c: nat, bit: nat)
    requires c < |plugins|
  {
    Bit(plugins[c].needs, bit) && Stands(plugins, product, bit, p)
  }

  /** Some capability below `bits` that `c` requires resolves to `p`. */
  ghost predicate Depends(plugins: seq<Plugin>, product: Product, p: nat, c: nat, bits: nat)
    requires c < |plugins|
  {
    exists bit :: 0 <= bit < bits && Needs(plugins, product, p, c, bit)
  }

  lemma DependsNext(plugins: seq<Plugin>, product: Product, p: nat, c: nat, bit: nat)
    requires c < |plugins|
    ensures Depends(plugins, product, p, c, bit + 1) <==>
      Depends(plugins, product, p, c, bit) || Needs(plugins, product, p, c, bit)
  {
    hide Needs;
  }

  ghost predicate Fine(plugins: seq<Plugin>, product: Product, c: nat, bits: nat)
    requires c < |plugins|
  {
    forall bit :: 0 <= bit < bits ==> Judged(plugins, product, c, bit, OK)
  }

  /** The first capability of consumer `c` that is judged badly, and how. */
  ghost predicate Fault(plugins: seq<Plugin>, product: Product, c: nat, status: Status)
    requires c < |plugins|
  {
    status != OK && exists bit ::
      0 <= bit < LIMIT && Judged(plugins, product, c, bit, status) && Fine(plugins, product, c, bit)
  }

  /** Every word fits in 64 bits. */
  predicate Words(deps: seq<nat>) {
    forall p :: 0 <= p < |deps| ==> deps[p] < Pow2(LIMIT)
  }

  /** Only column `c` of the adjacency may differ. */
  ghost predicate SameBut(was: seq<nat>, deps: seq<nat>, n: nat, c: nat) {
    n <= |was| && n <= |deps| && forall p: nat, x: nat :: p < n && x != c ==> (Bit(deps[p], x) <==> Bit(was[p], x))
  }

  /** The consumers of `c` below `bits` are recorded in its column and counted. */
  ghost predicate Column(plugins: seq<Plugin>, product: Product, deps: seq<nat>, degree: nat, c: nat, bits: nat)
    requires c < |plugins| <= |deps| && |plugins| <= LIMIT
  {
    && (forall p: nat :: p < |plugins| ==> (Bit(deps[p], c) <==> Depends(plugins, product, p, c, bits)))
    && degree == |Predecessors(deps, |plugins|, c)|
  }

  lemma AddEdge(was: seq<nat>, n: nat, p: nat, c: nat)
    requires n <= |was| && n <= LIMIT && p < n && c < n && Words(was)
    ensures var deps := was[p := SetBit(was[p], c)];
      && SameBut(was, deps, n, c) && Words(deps)
      && (forall q: nat :: q < n ==> (Bit(deps[q], c) <==> q == p || Bit(was[q], c)))
      && (!Bit(was[p], c) ==> |Predecessors(deps, n, c)| == |Predecessors(was, n, c)| + 1)
  {
    hide Bit, SetBit, Pow2;
    var deps := was[p := SetBit(was[p], c)];
    SetBitFits(was[p], c, LIMIT);
    forall x: nat ensures Bit(deps[p], x) <==> x == c || Bit(was[p], x) {
      SetBitIs(was[p], c, x);
    }
    assert Predecessors(deps, n, c) == Predecessors(was, n, c) + {p};
  }

  lemma OtherColumn(was: seq<nat>, deps: seq<nat>, n: nat, c: nat, x: nat)
    requires SameBut(was, deps, n, c) && n <= LIMIT && x != c
    ensures Predecessors(deps, n, x) == Predecessors(was, n, x)
  {
    hide Bit;
  }

  lemma ProviderExists(plugins: seq<Plugin>, product: Product, bit: nat)
    ensures var r := Resolution(plugins, product, bit);
      (r.Provider? ==> r.index < |plugins|) && (r.Unresolved? ==> r.status != OK)
  {
    hide Providers, Selected, Provides, Selects;
    ProvidersAre(plugins, bit, |plugins|);
    SelectedAre(plugins, product, bit, |plugins|);
  }

  /** Enter into the adjacency every provider one consumer depends on. */
  method LinkConsumer(plugins: seq<Plugin>, product: Product, aggregate: nat, c: nat, deps: array<nat>,
      indegree: array<nat>)
    returns (status: Status)
    requires c < |plugins| <= LIMIT && deps.Length == LIMIT == indegree.Length && deps != indegree && Words(deps[..])
    requires forall bit: nat :: Bit(aggregate, bit) <==> Offered(plugins, bit)
    requires Column(plugins, product, deps[..], indegree[c], c, 0)
    modifies deps, indegree
    ensures Words(deps[..])
    ensures status == OK ==> Fine(plugins, product, c, LIMIT)
    ensures status == OK ==> Column(plugins, product, deps[..], indegree[c], c, LIMIT)
    ensures status != OK ==> Fault(plugins, product, c, status)
    ensures SameBut(old(deps[..]), deps[..], |plugins|, c)
    ensures forall x :: 0 <= x < LIMIT && x != c ==> indegree[x] == old(indegree[x])
  {
    hide Bit, SetBit, Resolution, Column, Depends, SameBut, Words, Offered, Judged, Stands;
    ghost var was := deps[..];
    SameButSelf(was, |plugins|, c);
    for bit := 0 to LIMIT
      invariant Words(deps[..]) && Fine(plugins, product, c, bit)
      invariant Column(plugins, product, deps[..], indegree[c], c, bit)
      invariant SameBut(was, deps[..], |plugins|, c)
      invariant forall x :: 0 <= x < LIMIT && x != c ==> indegree[x] == old(indegree[x])
    {
      ghost var before := deps[..];
      VerdictMeans(plugins, product, c, bit, Verdict(plugins, product, c, bit));
      if !Bit(plugins[c].needs, bit) {
        ColumnSame(plugins, product, before, indegree[c], c, bit);
        continue;
      }
      if IsService(bit) && !Bit(aggregate, bit) {
        if !Bit(product.required, bit) {
          return MISSING_CAPABILITY;
        }
        ColumnSame(plugins, product, before, indegree[c], c, bit);
        continue;
      }
      var resolved := FindProvider(plugins, product, bit);
      ProviderExists(plugins, product, bit);
      if resolved.Unresolved? {
        return resolved.status;
      }
      var provider := resolved.index;
      ProviderStands(plugins, product, bit, provider);
      if provider == c {
        return DEPENDENCY_CYCLE;
      }
      if plugins[provider].phase > plugins[c].phase {
        return PHASE_INVERSION;
      }
      ColumnStep(plugins, product, before, indegree[c], c, bit, provider);
      if !Bit(deps[provider], c) {
        deps[provider] := SetBit(deps[provider], c);
        assert deps[..] == before[provider := SetBit(before[provider], c)];
        indegree[c] := indegree[c] + 1;
        SameButTwice(was, before, deps[..], |plugins|, c);
      }
    }
    return OK;
  }

  lemma SameButSelf(was: seq<nat>, n: nat, c: nat)
    requires n <= |was|
    ensures SameBut(was, was, n, c)
  {
  }

  lemma SameButTwice(was: seq<nat>, middle: seq<nat>, deps: seq<nat>, n: nat, c: nat)
    requires SameBut(was, middle, n, c) && SameBut(middle, deps, n, c)
    ensures SameBut(was, deps, n, c)
  {
    hide Bit;
  }

  lemma ColumnSame(plugins: seq<Plugin>, product: Product, deps: seq<nat>, degree: nat, c: nat, bit: nat)
    requires c < |plugins| <= |deps| && |plugins| <= LIMIT && Column(plugins, product, deps, degree, c, bit)
    requires Bit(plugins[c].needs, bit) ==> External(plugins, bit)
    ensures Column(plugins, product, deps, degree, c, bit + 1)
  {
    hide Bit, Depends, Predecessors, Offered, Stands, Resolution;
    forall p: nat | p < |plugins| ensures Bit(deps[p], c) <==> Depends(plugins, product, p, c, bit + 1) {
      DependsNext(plugins, product, p, c, bit);
      if Stands(plugins, product, bit, p) {
        StandsAlone(plugins, product, bit, p);
      }
    }
  }

  /** Recording the provider of one more capability keeps the column exact. */
  lemma ColumnStep(plugins: seq<Plugin>, product: Product, was: seq<nat>, degree: nat, c: nat, bit: nat, provider: nat)
    requires c < |plugins| <= |was| && |plugins| <= LIMIT && Column(plugins, product, was, degree, c, bit) && Words(was)
    requires provider < |plugins| && Needs(plugins, product, provider, c, bit)
    ensures var deps := was[provider := SetBit(was[provider], c)];
      if Bit(was[provider], c) then Column(plugins, product, was, degree, c, bit + 1)
      else Column(plugins, product, deps, degree + 1, c, bit + 1) && SameBut(was, deps, |plugins|, c) && Words(deps)
  {
    hide Bit, Depends, Predecessors, External, Resolution, SetBit, SameBut, Words, Stands;
    AddEdge(was, |plugins|, provider, c);
    StandsAlone(plugins, product, bit, provider);
    forall p: nat | p < |plugins|
      ensures Depends(plugins, product, p, c, bit + 1) <==> Depends(plugins, product, p, c, bit) || p == provider
    {
      DependsNext(plugins, product, p, c, bit);
      if Stands(plugins, product, bit, p) {
        StandsAlone(plugins, product, bit, p);
      }
    }
  }

  lemma ColumnKept(plugins: seq<Plugin>, product: Product, was: seq<nat>, deps: seq<nat>, c: nat, x: nat, degree: nat,
      bits: nat)
    requires x < |plugins| && |plugins| <= LIMIT && x != c && SameBut(was, deps, |plugins|, c)
    requires Column(plugins, product, was, degree, x, bits)
    ensures Column(plugins, product, deps, degree, x, bits)
  {
    hide Bit, Depends, Predecessors;
    OtherColumn(was, deps, |plugins|, c, x);
  }

  lemma EmptyColumn(plugins: seq<Plugin>, product: Product, deps: seq<nat>, c: nat)
    requires c < |plugins| <= |deps| && |plugins| <= LIMIT && forall p :: 0 <= p < |deps| ==> deps[p] == 0
    ensures Column(plugins, product, deps, 0, c, 0)
  {
    hide Bit;
    NoBits(c);
    assert Predecessors(deps, |plugins|, c) == {};
  }

  /** The first consumer, in registry order, with a fault decides the status. */
  ghost predicate FirstFault(plugins: seq<Plugin>, product: Product, status: Status) {
    exists c :: 0 <= c < |plugins| && Fault(plugins, product, c, status) &&
                forall x :: 0 <= x < c ==> Fine(plugins, product, x, LIMIT)
  }

  ghost predicate AllFine(plugins: seq<Plugin>, product: Product) {
    forall c :: 0 <= c < |plugins| ==> Fine(plugins, product, c, LIMIT)
  }

  /** The adjacency masks and indegrees describe exactly the resolved dependencies. */
  ghost predicate Describes(plugins: seq<Plugin>, product: Product, deps: seq<nat>, indegree: seq<nat>)
    requires |plugins| <= LIMIT && |plugins| <= |deps| && |plugins| <= |indegree|
  {
    && (forall p: nat, c: nat :: p < |plugins| && c < |plugins| ==>
          (Edge(deps, |plugins|, p, c) <==> Depends(plugins, product, p, c, LIMIT)))
    && Counted(deps, |plugins|, [], [], indegree, |plugins|)
  }

  lemma ColumnsDescribe(plugins: seq<Plugin>, product: Product, deps: seq<nat>, indegree: seq<nat>)
    requires |plugins| <= LIMIT && |plugins| <= |deps| && |plugins| <= |indegree|
    requires forall x :: 0 <= x < |plugins| ==> Column(plugins, product, deps, indegree[x], x, LIMIT)
    ensures Describes(plugins, product, deps, indegree)
  {
    hide Bit, Depends;
    forall c | 0 <= c < |plugins| ensures indegree[c] == |Pending(deps, |plugins|, c, Elements([]))| {
      assert Column(plugins, product, deps, indegree[c], c, LIMIT);
      assert Pending(deps, |plugins|, c, Elements([])) == Predecessors(deps, |plugins|, c);
    }
    forall p: nat, c: nat | p < |plugins| && c < |plugins|
      ensures Edge(deps, |plugins|, p, c) <==> Depends(plugins, product, p, c, LIMIT)
    {
      assert Column(plugins, product, deps, indegree[c], c, LIMIT);
    }
  }

  /** Build the provider-to-consumer graph, or report the first fault. */
  method BuildGraph(plugins: seq<Plugin>, product: Product, aggregate: nat, deps: array<nat>, indegree: array<nat>)
    returns (status: Status)
    requires |plugins| <= LIMIT && deps.Length == LIMIT == indegree.Length && deps != indegree
    requires forall bit: nat :: Bit(aggregate, bit) <==> Offered(plugins, bit)
    requires forall p :: 0 <= p < LIMIT ==> deps[p] == 0 == indegree[p]
    modifies deps, indegree
    ensures status == OK ==> AllFine(plugins, product) && Describes(plugins, product, deps[..], indegree[..])
    ensures status != OK ==> FirstFault(plugins, product, status)
    ensures Words(deps[..])
  {
    hide Bit, Column, Offered, SameBut, Fault, Fine, Describes;
    forall x | 0 <= x < |plugins| ensures Column(plugins, product, deps[..], indegree[x], x, 0) {
      EmptyColumn(plugins, product, deps[..], x);
    }
    for c := 0 to |plugins|
      invariant Words(deps[..])
      invariant forall x :: 0 <= x < c ==> Fine(plugins, product, x, LIMIT)
      invariant forall x :: 0 <= x < c ==> Column(plugins, product, deps[..], indegree[x], x, LIMIT)
      invariant forall x :: c <= x < |plugins| ==> Column(plugins, product, deps[..], indegree[x], x, 0)
    {
      ghost var was, degrees := deps[..], indegree[..];
      status := LinkConsumer(plugins, product, aggregate, c, deps, indegree);
      if status != OK {
        return;
      }
      forall x | 0 <= x < |plugins| && x != c
        ensures Column(plugins, product, deps[..], indegree[x], x, if x < c then LIMIT else 0)
      {
        ColumnKept(plugins, product, was, deps[..], c, x, degrees[x], if x < c then LIMIT else 0);
      }
    }
    ColumnsDescribe(plugins, product, deps[..], indegree[..]);
    return OK;
  }

  // ---- The verdict

  ghost predicate LinkedAt(plugins: seq<Plugin>, product: Product, s: seq<nat>, i: nat)
    requires i + 1 < |s|
  {
    s[i] < |plugins| && s[i + 1] < |plugins| && Depends(plugins, product, s[i], s[i + 1], LIMIT)
  }

  /** A chain of dependencies, each plugin required by the next. */
  ghost predicate DependencyChain(plugins: seq<Plugin>, product: Product, s: seq<nat>) {
    |s| >= 2 && forall i :: 0 <= i < |s| - 1 ==> LinkedAt(plugins, product, s, i)
  }

  ghost predicate DependencyCycle(plugins: seq<Plugin>, product: Product) {
    exists s :: DependencyChain(plugins, product, s) && s[0] == s[|s| - 1]
  }

  lemma CyclesAgree(plugins: seq<Plugin>, product: Product, deps: seq<nat>, indegree: seq<nat>)
    requires |plugins| <= LIMIT && |plugins| <= |deps| && |plugins| <= |indegree|
    requires Describes(plugins, product, deps, indegree)
    ensures Cyclic(deps, |plugins|) <==> DependencyCycle(plugins, product)
  {
    hide Depends, Counted, Bit;
    var n := |plugins|;
    if Cyclic(deps, n) {
      var s :| Path(deps, n, s) && s[0] == s[|s| - 1];
      forall i | 0 <= i < |s| - 1 ensures LinkedAt(plugins, product, s, i) {
        assert StepAt(deps, n, s, i);
      }
      assert DependencyChain(plugins, product, s);
    }
    if DependencyCycle(plugins, product) {
      var s :| DependencyChain(plugins, product, s) && s[0] == s[|s| - 1];
      forall i | 0 <= i < |s| - 1 ensures StepAt(deps, n, s, i) {
        assert LinkedAt(plugins, product, s, i);
      }
      assert Path(deps, n, s);
    }
  }

  /** Every plugin stands behind everything it depends on. */
  ghost predicate StartOrder(plugins: seq<Plugin>, product: Product, order: seq<nat>) {
    && Nodes(|plugins|, order) && |order| == |plugins|
    && forall k, p: nat :: 0 <= k < |order| && p < |plugins| && Depends(plugins, product, p, order[k], LIMIT) ==>
       p in order[..k]
  }

  lemma OrderStarts(plugins: seq<Plugin>, product: Product, deps: seq<nat>, indegree: seq<nat>, order: seq<nat>)
    requires |plugins| <= LIMIT && |plugins| <= |deps| && |plugins| <= |indegree|
    requires Describes(plugins, product, deps, indegree)
    requires Nodes(|plugins|, order) && |order| == |plugins| && Topological(deps, |plugins|, order)
    ensures StartOrder(plugins, product, order)
  {
    hide Depends, Counted, Bit;
    forall k, p: nat | 0 <= k < |order| && p < |plugins| && Depends(plugins, product, p, order[k], LIMIT)
      ensures p in order[..k]
    {
      assert Edge(deps, |plugins|, p, order[k]);
      assert p in Predecessors(deps, |plugins|, order[k]);
      ElementsOf(order[..k], p);
    }
  }

  /** The registry graph is accepted exactly when every requirement resolves in phase order without a cycle. */
  method ValidateGraph(plugins: seq<Plugin>, product: Product) returns (status: Status, ghost order: seq<nat>)
    requires |plugins| <= LIMIT
    ensures status == OK <==> AllFine(plugins, product) && !DependencyCycle(plugins, product)
    ensures status == OK ==> StartOrder(plugins, product, order)
    ensures !AllFine(plugins, product) ==> FirstFault(plugins, product, status)
    ensures AllFine(plugins, product) && status != OK ==> status == DEPENDENCY_CYCLE
  {
    hide Bit, Offered, Describes, DependencyCycle, Cyclic, Topological, StartOrder, Fine;
    order := [];
    var indegree, deps := new nat[LIMIT](_ => 0), new nat[LIMIT](_ => 0);
    var aggregate := Aggregate(plugins);
    status := BuildGraph(plugins, product, aggregate, deps, indegree);
    FaultIsNotFine(plugins, product, status);
    if status != OK {
      return;
    }
    assert Counted(deps[..], |plugins|, [], [], indegree[..], |plugins|) by {
      DescribesCounts(plugins, product, deps[..], indegree[..]);
    }
    CyclesAgree(plugins, product, deps[..], indegree[..]);
    ghost var degrees := indegree[..];
    var visited;
    visited, order := Traverse(deps[..], |plugins|, indegree);
    if visited == |plugins| {
      OrderStarts(plugins, product, deps[..], degrees, order);
      return OK, order;
    }
    return DEPENDENCY_CYCLE, order;
  }

  lemma DescribesCounts(plugins: seq<Plugin>, product: Product, deps: seq<nat>, indegree: seq<nat>)
    requires |plugins| <= LIMIT && |plugins| <= |deps| && |plugins| <= |indegree|
    requires Describes(plugins, product, deps, indegree)
    ensures Counted(deps, |plugins|, [], [], indegree, |plugins|)
  {
  }

  lemma FaultIsNotFine(plugins: seq<Plugin>, product: Product, status: Status)
    ensures FirstFault(plugins, product, status) ==> status != OK && !AllFine(plugins, product)
  {
    hide Verdict, Judged;
    if FirstFault(plugins, product, status) {
      var c :| 0 <= c < |plugins| && Fault(plugins, product, c, status);
      var bit :| 0 <= bit < LIMIT && Judged(plugins, product, c, bit, status);
      VerdictMeans(plugins, product, c, bit, status);
      VerdictMeans(plugins, product, c, bit, OK);
      assert !Fine(plugins, product, c, LIMIT);
    }
  }

  /** Along every chain of dependencies of an accepted registry the phases never decrease. */
  lemma {:induction false} PhasesAscend(plugins: seq<Plugin>, product: Product, s: seq<nat>, i: nat, j: nat)
    requires AllFine(plugins, product) && DependencyChain(plugins, product, s) && i <= j < |s|
    ensures s[i] < |plugins| && s[j] < |plugins| && plugins[s[i]].phase <= plugins[s[j]].phase
    decreases j - i
  {
    hide Bit, Resolution, Offered, Judged, Stands;
    if i < j {
      assert LinkedAt(plugins, product, s, j - 1);
      PhasesAscend(plugins, product, s, i, j - 1);
      var bit :| 0 <= bit < LIMIT && Needs(plugins, product, s[j - 1], s[j], bit);
      assert Fine(plugins, product, s[j], LIMIT);
      VerdictMeans(plugins, product, s[j], bit, OK);
      StandsAlone(plugins, product, bit, s[j - 1]);
    } else if i + 1 < |s| {
      assert LinkedAt(plugins, product, s, i);
    } else {
      assert LinkedAt(plugins, product, s, i - 1);
    }
  }
}

/**
 * src/registry.rs and src/profile_registry.rs: the merged tool catalogue, the profile's view
 * of it, and where tool calls and the pointers in their results go.
 */
module ToolRouting {
  import opened Wrappers
  import opened Json
  import opened ResourceUri
  import opened Prefix
  import opened ToolCallRewrite
  import opened ProfileRouting

  function Without(raws: seq<string>, hidden: set<string>): (r: seq<string>)
    ensures forall x :: x in r <==> x in raws && x !in hidden
  {
    if raws == [] then []
    else Without(raws[..|raws| - 1], hidden) + (if raws[|raws| - 1] in hidden then [] else [raws[|raws| - 1]])
  }

  function EnabledTools(e: Endpoint): seq<string> {
    if e.tools.None? then [] else Without(e.tools.value, e.disabledTools)
  }

  /** The relay-wide catalogue, before it is sorted. */
  function Catalog(reg: Registry): seq<Listed> {
    ListingOf(EnabledTools, Active(reg), |Active(reg)| <= 1)
  }

  /** `guard` and `lookup` are the two readings of the relay-wide catalogue the call makes. */
  function RouteToolCall(reg: Registry, allowed: set<string>, guard: ReverseLookup, lookup: ReverseLookup,
      name: string): Result<Dispatch, RouteError> {
    if name !in guard then Err(Unknown)
    else if guard[name].0 !in allowed then Err(NotInProfile)
    else if name !in lookup then Err(Unknown)
    else
      var (endpoint, tool) := lookup[name];
      match DispatchReadTo(reg, endpoint, tool)
      case Err(e) => Err(e)
      case Ok(d) =>
        var entry := Find(reg, endpoint).value;
        if tool in entry.disabledTools then Err(ToolDisabled) else Ok(d)
  }

  /** The profile's catalogue: tools the lookup gives to an allowed endpoint. */
  function ProfileCatalog(listing: seq<Listed>, lookup: ReverseLookup, allowed: set<string>): (r: seq<Listed>)
    ensures forall x :: x in r <==> x in listing && x.name in lookup && lookup[x.name].0 in allowed
  {
    if listing == [] then []
    else
      var x := listing[0];
      (if x.name in lookup && lookup[x.name].0 in allowed then [x] else [])
        + ProfileCatalog(listing[1..], lookup, allowed)
  }

  lemma ListedToolIsOwned(reg: Registry, x: Listed)
    requires IsRegistry(reg) && x in Catalog(reg)
    requires HaveSeparateHeads(Active(reg))
    ensures var lookup := LookupOf(Catalog(reg)); x.name in lookup && lookup[x.name] == (x.endpoint, x.raw)
    ensures Find(reg, x.endpoint).Some?
    ensures var e := Find(reg, x.endpoint).value; !e.disabled && x.raw !in e.disabledTools
  {
    var active := Active(reg);
    SeparateListingIsUnambiguous(EnabledTools, active);
    LookupReturnsOwnersExactly(Catalog(reg));
    ActiveIsEnabled(reg);
    NamesAreOwned(reg, EnabledTools, active, |active| <= 1, x);
  }

  /**
   * With separate heads the profile's catalogue is exactly the relay's tools whose owner
   * is allowed, and a call of any of them reaches that owner under the tool's own name.
   */
  lemma ListedToolRoutesToOwner(reg: Registry, allowed: set<string>, x: Listed)
    requires IsRegistry(reg) && x in Catalog(reg)
    requires HaveSeparateHeads(Active(reg))
    ensures var lookup := LookupOf(Catalog(reg));
            && Find(reg, x.endpoint).Some?
            && (x in ProfileCatalog(Catalog(reg), lookup, allowed) <==> x.endpoint in allowed)
            && RouteToolCall(reg, allowed, lookup, lookup, x.name) ==
                 if x.endpoint !in allowed then Err(NotInProfile)
                 else if Find(reg, x.endpoint).value.healthy then Ok(Dispatch(x.endpoint, x.raw))
                 else Err(Unhealthy)
  {
    ListedToolIsOwned(reg, x);
  }

  // Two readings of the catalogue

  /** The owner the routing reading names exists and takes the call. */
  predicate TakesCall(reg: Registry, target: (string, string)) {
    Find(reg, target.0).Some?
    && var e := Find(reg, target.0).value; !e.disabled && e.healthy && target.1 !in e.disabledTools
  }

  /**
   * A tool call leaves the profile exactly when the guard reads an owner inside it and the
   * routing reads one outside that takes the call.
   */
  lemma CallLeavesProfileExactly(reg: Registry, allowed: set<string>, guard: ReverseLookup, lookup: ReverseLookup,
      name: string)
    ensures var r := RouteToolCall(reg, allowed, guard, lookup, name);
            (r.Ok? && r.value.endpoint !in allowed) <==>
              && name in guard && guard[name].0 in allowed
              && name in lookup && lookup[name].0 !in allowed && TakesCall(reg, lookup[name])
  {
  }

  /** With one reading of the catalogue, stale or not, no tool call leaves the profile. */
  lemma ToolCallsStayInProfile(reg: Registry, allowed: set<string>, lookup: ReverseLookup, name: string)
    ensures RouteToolCall(reg, allowed, lookup, lookup, name).Ok? ==>
              var d := RouteToolCall(reg, allowed, lookup, lookup, name).value;
              && d.endpoint in allowed
              && TakesCall(reg, (d.endpoint, d.target))
  {
    var r := RouteToolCall(reg, allowed, lookup, lookup, name);
    if r.Ok? { FoundIsRegistered(reg, r.value.endpoint); }
  }

  /**
   * No endpoint of the second reading can take a name that another had in the first: their
   * heads cannot start one string. A reading with one active endpoint has no heads.
   */
  ghost predicate KeepsOwners(before: Registry, after: Registry) {
    forall d, e :: d in Active(before) && e in Active(after) && d.name != e.name ==>
      !MayShareName(Head(d, |Active(before)| <= 1), Head(e, |Active(after)| <= 1))
  }

  ghost predicate NoOwnerChanges(guard: ReverseLookup, lookup: ReverseLookup) {
    forall name :: name in guard && name in lookup ==> guard[name].0 == lookup[name].0
  }

  lemma CatalogOwner(reg: Registry, name: string) returns (e: Endpoint, raw: string)
    requires name in LookupOf(Catalog(reg))
    ensures e in Active(reg) && e.name == LookupOf(Catalog(reg))[name].0
    ensures name == Head(e, |Active(reg)| <= 1) + raw
  {
    LookupHoldsLastInsertion(Catalog(reg), name);
    var (endpoint, tool) := LookupOf(Catalog(reg))[name];
    ListedHasOwner(EnabledTools, Active(reg), |Active(reg)| <= 1, Listed(name, endpoint, tool));
    e :| e in Active(reg) && endpoint == e.name && name == FinalName(e, |Active(reg)| <= 1, tool);
    raw := tool;
    FinalNameHasHead(e, |Active(reg)| <= 1, raw);
  }

  lemma SeparateHeadsKeepOwners(before: Registry, after: Registry)
    requires KeepsOwners(before, after)
    ensures NoOwnerChanges(LookupOf(Catalog(before)), LookupOf(Catalog(after)))
  {
    var guard, lookup := LookupOf(Catalog(before)), LookupOf(Catalog(after));
    forall name | name in guard && name in lookup ensures guard[name].0 == lookup[name].0 {
      var d, t := CatalogOwner(before, name);
      var e, u := CatalogOwner(after, name);
      StartsOfOneString(Head(d, |Active(before)| <= 1), t, Head(e, |Active(after)| <= 1), u);
    }
  }

  /** The registry with all tools gone but one of one endpoint. */
  function OnlyTool(reg: Registry, owner: string, raw: string): (r: Registry)
    ensures |r| == |reg|
    ensures forall i :: 0 <= i < |reg| ==> r[i] == WithOnlyTool(reg[i], owner, raw)
  {
    seq(|reg|, i requires 0 <= i < |reg| => WithOnlyTool(reg[i], owner, raw))
  }

  function WithOnlyTool(e: Endpoint, owner: string, raw: string): Endpoint {
    e.(tools := if e.name == owner then Some([raw]) else None, disabledTools := {})
  }

  ghost predicate DifferOnlyInTools(a: Registry, b: Registry) {
    |a| == |b| && forall i :: 0 <= i < |a| ==> b[i] == a[i].(tools := b[i].tools, disabledTools := b[i].disabledTools)
  }

  lemma OnlyToolConcat(a: Registry, b: Registry, owner: string, raw: string)
    ensures OnlyTool(a + b, owner, raw) == OnlyTool(a, owner, raw) + OnlyTool(b, owner, raw)
  {
  }

  lemma {:induction false} ActiveOnlyTool(reg: Registry, allowed: set<string>, owner: string, raw: string)
    ensures ActiveIn(OnlyTool(reg, owner, raw), allowed) == OnlyTool(ActiveIn(reg, allowed), owner, raw)
  {
    if reg != [] {
      ActiveOnlyTool(reg[1..], allowed, owner, raw);
      assert OnlyTool(reg, owner, raw)[1..] == OnlyTool(reg[1..], owner, raw);
      var head := if IsActiveIn(reg[0], allowed) then [reg[0]] else [];
      OnlyToolConcat(head, ActiveIn(reg[1..], allowed), owner, raw);
      assert OnlyTool(head, owner, raw) ==
             if IsActiveIn(reg[0], allowed) then [WithOnlyTool(reg[0], owner, raw)] else [];
    }
  }

  /** The one tool is listed under its owner, and nothing else is. */
  lemma OnlyToolIsListed(reg: Registry, d: Endpoint, raw: string)
    requires d in Active(reg)
    ensures DifferOnlyInTools(reg, OnlyTool(reg, d.name, raw))
    ensures var lookup := LookupOf(Catalog(OnlyTool(reg, d.name, raw)));
            var name := Head(d, |Active(reg)| <= 1) + raw;
            name in lookup && lookup[name].0 == d.name
  {
    var r := OnlyTool(reg, d.name, raw);
    assert NamesOf(r) == NamesOf(reg);
    ActiveOnlyTool(reg, NamesOf(reg), d.name, raw);
    var i :| 0 <= i < |Active(reg)| && Active(reg)[i] == d;
    var owner := Active(r)[i];
    assert owner == WithOnlyTool(d, d.name, raw) && owner in Active(r);
    var skipPrefix := |Active(r)| <= 1;
    FinalNameHasHead(owner, skipPrefix, raw);
    var name := Head(d, skipPrefix) + raw;
    OneTool(owner, raw);
    ListedHasOwner(EnabledTools, Active(r), skipPrefix, Listed(name, d.name, raw));
    LookupHoldsLastInsertion(Catalog(r), name);
    assert Listed(name, d.name, raw) in Catalog(r);
    OnlyOwnerLists(reg, d.name, raw, Listed(name, LookupOf(Catalog(r))[name].0, LookupOf(Catalog(r))[name].1));
  }

  lemma OneTool(e: Endpoint, raw: string)
    requires e.tools == Some([raw]) && e.disabledTools == {}
    ensures raw in EnabledTools(e)
  {
    assert raw in [raw];
  }

  lemma OnlyOwnerLists(reg: Registry, owner: string, raw: string, x: Listed)
    requires x in Catalog(OnlyTool(reg, owner, raw))
    ensures x.endpoint == owner
  {
    var r := OnlyTool(reg, owner, raw);
    ListedHasOwner(EnabledTools, Active(r), |Active(r)| <= 1, x);
    var e :| e in Active(r) && x.endpoint == e.name && x.raw in EnabledTools(e);
    assert e in r;
    var i :| 0 <= i < |r| && r[i] == e;
    assert e == WithOnlyTool(reg[i], owner, raw);
  }

  /**
   * Two readings agree on the owner of every name, whatever tools the endpoints list, exactly
   * when the heads of different endpoints are separate.
   */
  lemma OwnersAreKeptExactly(before: Registry, after: Registry)
    ensures KeepsOwners(before, after) <==>
            forall b, a :: DifferOnlyInTools(before, b) && DifferOnlyInTools(after, a) ==>
              NoOwnerChanges(LookupOf(Catalog(b)), LookupOf(Catalog(a)))
  {
    if KeepsOwners(before, after) {
      forall b, a | DifferOnlyInTools(before, b) && DifferOnlyInTools(after, a)
        ensures NoOwnerChanges(LookupOf(Catalog(b)), LookupOf(Catalog(a)))
      {
        ToolsDoNotMatter(before, after, b, a);
        SeparateHeadsKeepOwners(b, a);
      }
    } else {
      var d, e :| d in Active(before) && e in Active(after) && d.name != e.name
        && MayShareName(Head(d, |Active(before)| <= 1), Head(e, |Active(after)| <= 1));
      OwnerCanChange(before, after, d, e);
    }
  }

  lemma OwnerCanChange(before: Registry, after: Registry, d: Endpoint, e: Endpoint)
    requires d in Active(before) && e in Active(after) && d.name != e.name
    requires MayShareName(Head(d, |Active(before)| <= 1), Head(e, |Active(after)| <= 1))
    ensures exists b, a :: DifferOnlyInTools(before, b) && DifferOnlyInTools(after, a)
              && !NoOwnerChanges(LookupOf(Catalog(b)), LookupOf(Catalog(a)))
  {
    var p, q := Head(d, |Active(before)| <= 1), Head(e, |Active(after)| <= 1);
    var t, u := if p <= q then q[|p|..] else "", if p <= q then "" else p[|q|..];
    assert p + t == q + u;
    OnlyToolIsListed(before, d, t);
    OnlyToolIsListed(after, e, u);
    var b, a := OnlyTool(before, d.name, t), OnlyTool(after, e.name, u);
    assert LookupOf(Catalog(b))[p + t].0 != LookupOf(Catalog(a))[p + t].0;
  }

  lemma {:induction false} ActiveWithOtherTools(a: Registry, b: Registry, allowed: set<string>)
    requires DifferOnlyInTools(a, b)
    ensures DifferOnlyInTools(ActiveIn(a, allowed), ActiveIn(b, allowed))
  {
    if a != [] {
      ActiveWithOtherTools(a[1..], b[1..], allowed);
    }
  }

  lemma OtherTools(a: Registry, b: Registry)
    requires DifferOnlyInTools(a, b)
    ensures DifferOnlyInTools(Active(a), Active(b))
  {
    assert NamesOf(a) == NamesOf(b);
    ActiveWithOtherTools(a, b, NamesOf(a));
  }

  /** An active endpoint's counterpart has its name and its head. */
  lemma Counterpart(a: Registry, b: Registry, e: Endpoint) returns (d: Endpoint)
    requires DifferOnlyInTools(a, b) && e in Active(b)
    ensures d in Active(a) && d.name == e.name && |Active(a)| == |Active(b)|
    ensures Head(d, |Active(a)| <= 1) == Head(e, |Active(b)| <= 1)
  {
    OtherTools(a, b);
    var i :| 0 <= i < |Active(b)| && Active(b)[i] == e;
    d := Active(a)[i];
  }

  lemma ToolsDoNotMatter(before: Registry, after: Registry, b: Registry, a: Registry)
    requires DifferOnlyInTools(before, b) && DifferOnlyInTools(after, a) && KeepsOwners(before, after)
    ensures KeepsOwners(b, a)
  {
    forall d, e | d in Active(b) && e in Active(a) && d.name != e.name
      ensures !MayShareName(Head(d, |Active(b)| <= 1), Head(e, |Active(a)| <= 1))
    {
      var d' := Counterpart(before, b, d);
      var e' := Counterpart(after, a, e);
    }
  }

  /** When no owner can change between the readings, no tool call leaves the profile. */
  lemma SeparateReadingsStayInProfile(reg: Registry, allowed: set<string>, before: Registry, after: Registry,
      name: string)
    requires KeepsOwners(before, after)
    ensures var r := RouteToolCall(reg, allowed, LookupOf(Catalog(before)), LookupOf(Catalog(after)), name);
            r.Ok? ==> r.value.endpoint in allowed
  {
    SeparateHeadsKeepOwners(before, after);
    CallLeavesProfileExactly(reg, allowed, LookupOf(Catalog(before)), LookupOf(Catalog(after)), name);
  }

  function Plainly(name: string, prefix: string, tool: string): Endpoint {
    Endpoint(name, false, true, Some(prefix), None, None, None, Some([tool]), {})
  }

  lemma {:induction false} AllActive(reg: Registry, allowed: set<string>)
    requires forall e :: e in reg ==> IsActiveIn(e, allowed)
    ensures ActiveIn(reg, allowed) == reg
  {
    if reg != [] {
      AllActive(reg[1..], allowed);
      assert reg == [reg[0]] + reg[1..];
    }
  }

  lemma PlainTools(name: string, prefix: string, tool: string)
    ensures forall raw :: raw in EnabledTools(Plainly(name, prefix, tool)) <==> raw == tool
  {
  }

  lemma SoleOwner(a: Endpoint, tool: string)
    requires a.prefix.Some? && a == Plainly(a.name, a.prefix.value, tool)
    ensures var guard := LookupOf(Catalog([a])); tool in guard && guard[tool].0 == a.name
  {
    AllActive([a], NamesOf([a]));
    PlainTools(a.name, a.prefix.value, tool);
    ListedHasOwner(EnabledTools, [a], true, Listed(tool, a.name, tool));
    LookupHoldsLastInsertion(Catalog([a]), tool);
    var (endpoint, raw) := LookupOf(Catalog([a]))[tool];
    ListedHasOwner(EnabledTools, [a], true, Listed(tool, endpoint, raw));
  }

  lemma SecondOwner(a: Endpoint, b: Endpoint, name: string)
    requires a.prefix.Some? && b.prefix.Some? && b.tools.Some? && |b.tools.value| == 1
    requires a == Plainly(a.name, a.prefix.value, name) && b == Plainly(b.name, b.prefix.value, b.tools.value[0])
    requires name == EncodeToolName(b.prefix.value, None, b.tools.value[0])
    ensures var lookup := LookupOf(Catalog([a, b])); name in lookup && lookup[name] == (b.name, b.tools.value[0])
  {
    var tool := b.tools.value[0];
    AllActive([a, b], NamesOf([a, b]));
    PlainTools(a.name, a.prefix.value, name);
    PlainTools(b.name, b.prefix.value, tool);
    ListedHasOwner(EnabledTools, [a, b], false, Listed(name, b.name, tool));
    LookupHoldsLastInsertion(Catalog([a, b]), name);
    var (endpoint, raw) := LookupOf(Catalog([a, b]))[name];
    ListedHasOwner(EnabledTools, [a, b], false, Listed(name, endpoint, raw));
    var e :| e in [a, b] && endpoint == e.name && raw in EnabledTools(e) && name == FinalName(e, false, raw);
    FinalNameHasHead(e, false, raw);
    assert e == a ==> |name| > |raw|;
  }

  /**
   * While one endpoint is active its tools have no prefix. If one is named as a second
   * endpoint's tool will be, and that endpoint becomes active between the readings, a call
   * the guard let through for the first is dispatched to the second.
   */
  lemma SecondEndpointTakesTheName(x: string, p: string, y: string, q: string, tool: string)
    requires x != y
    ensures var name := EncodeToolName(q, None, tool);
            var a, b := Plainly(x, p, name), Plainly(y, q, tool);
            RouteToolCall([a, b], {x}, LookupOf(Catalog([a])), LookupOf(Catalog([a, b])), name) == Ok(Dispatch(y, tool))
  {
    var name := EncodeToolName(q, None, tool);
    var a, b := Plainly(x, p, name), Plainly(y, q, tool);
    SoleOwner(a, name);
    SecondOwner(a, b, name);
    assert [a, b][1..] == [b] && Find([b], y) == Some(b) && Find([a, b], y) == Some(b);
  }

  // Pointers inside results

  /** A tool's result is wrapped by the relay-wide count, whatever the profile. */
  function ToolResult(reg: Registry, endpoint: string, value: Json): Json {
    if |Active(reg)| <= 1 then value else MapToolCall(WrapFor(endpoint), value)
  }

  lemma {:induction false} FewerActiveInProfile(reg: Registry, allowed: set<string>, all: set<string>)
    requires forall e :: e in reg ==> e.name in all
    ensures |ActiveIn(reg, allowed)| <= |ActiveIn(reg, all)|
  {
    if reg != [] {
      FewerActiveInProfile(reg[1..], allowed, all);
    }
  }

  /**
   * A resource pointer in a tool's result reads back through the profile to the endpoint
   * that served the call, also when only one endpoint of several is in the profile.
   */
  lemma ToolPointerReadsBack(reg: Registry, allowed: set<string>, e: Endpoint, value: Json, p: Path, original: string)
    requires IsRegistry(reg) && e in ActiveIn(reg, allowed) && e.healthy
    requires IsToolCallSlot(value, p) && StringAt(value, p) == Some(original)
    ensures var out := StringAt(ToolResult(reg, e.name, value), p);
            out.Some? && (RouteResourceRead(reg, allowed, out.value) == Ok(Dispatch(e.name, original)) <==>
              IsReadable(e.name, original, |Active(reg)| <= 1))
  {
    ToolCallChangesOnlySlots(WrapFor(e.name), value);
    assert ProbeAt(MapToolCall(WrapFor(e.name), value), p) == Scalar(JString(WrapFor(e.name)(original)));
    FewerActiveInProfile(reg, allowed, NamesOf(reg));
    ReadsBack(reg, allowed, e, original, |Active(reg)| <= 1);
  }
}

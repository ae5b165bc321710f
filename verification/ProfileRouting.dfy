/**
 * src/profile_registry.rs and src/registry.rs: what a profile lists, and where it sends
 * the resource reads and prompt requests that come back.
 */
module ProfileRouting {
  import opened Wrappers
  import opened Json
  import opened ResourceUri
  import opened Prefix
  import opened ToolCallRewrite
  import opened UriTemplate
  import Sequences

  /** A listing is `None` when the upstream refuses it. */
  datatype Endpoint = Endpoint(
    name: string, disabled: bool, healthy: bool, prefix: Option<string>,
    resources: Option<seq<Json>>, templates: Option<seq<Json>>, prompts: Option<seq<Json>>,
    tools: Option<seq<string>>, disabledTools: set<string>)

  /** The adapters in the order the registry's map happens to yield them. */
  type Registry = seq<Endpoint>

  /** Where a request goes, and the name or URI it carries there. */
  datatype Dispatch = Dispatch(endpoint: string, target: string)

  datatype RouteError =
    | NotInProfile
    | InvalidUri
    | NoActiveEndpoint
    | Unknown
    | NoAdapter
    | EndpointDisabled
    | Unhealthy
    | ToolDisabled

  ghost predicate IsRegistry(reg: Registry) {
    forall i, j :: 0 <= i < j < |reg| ==> reg[i].name != reg[j].name
  }

  predicate IsActiveIn(e: Endpoint, allowed: set<string>) {
    !e.disabled && e.name in allowed
  }

  function ActiveIn(reg: Registry, allowed: set<string>): (r: seq<Endpoint>)
    ensures forall e :: e in r <==> e in reg && IsActiveIn(e, allowed)
  {
    if reg == [] then []
    else (if IsActiveIn(reg[0], allowed) then [reg[0]] else []) + ActiveIn(reg[1..], allowed)
  }

  function NamesOf(reg: Registry): set<string> {
    set i | 0 <= i < |reg| :: reg[i].name
  }

  /** Relay-wide: every endpoint that is not disabled. */
  function Active(reg: Registry): seq<Endpoint> {
    ActiveIn(reg, NamesOf(reg))
  }

  lemma ActiveIsEnabled(reg: Registry)
    ensures forall e :: e in Active(reg) <==> e in reg && !e.disabled
  {
    forall e | e in reg ensures e.name in NamesOf(reg) {
      var i :| 0 <= i < |reg| && reg[i] == e;
    }
  }

  function Find(reg: Registry, name: string): Option<Endpoint> {
    if reg == [] then None else if reg[0].name == name then Some(reg[0]) else Find(reg[1..], name)
  }

  lemma {:induction false} FindsByName(reg: Registry, e: Endpoint)
    requires IsRegistry(reg) && e in reg
    ensures Find(reg, e.name) == Some(e)
  {
    if reg[0] != e {
      var i :| 0 <= i < |reg| && reg[i] == e;
      assert reg[0].name != reg[i].name;
      assert reg[1..][i - 1] == e;
      FindsByName(reg[1..], e);
    }
  }

  lemma {:induction false} FoundIsRegistered(reg: Registry, name: string)
    ensures Find(reg, name).Some? ==> Find(reg, name).value in reg && Find(reg, name).value.name == name
  {
    if reg != [] && reg[0].name != name {
      FoundIsRegistered(reg[1..], name);
    }
  }

  // Resources and resource templates; each has its own encode set

  function KeyOf(set_: EncodeSet): string {
    if set_ == Plain then "uri" else "uriTemplate"
  }

  function ItemsOf(set_: EncodeSet, e: Endpoint): Option<seq<Json>> {
    if set_ == Plain then e.resources else e.templates
  }

  /** Rewrites a string member; items without it pass unchanged. */
  function Renamed(key: string, f: string -> string, item: Json): Json {
    if AsStr(Get(item, key)).Some? then JObject(item.fields[key := JString(f(item.fields[key].s))]) else item
  }

  function MaybeWrapFor(set_: EncodeSet, endpoint: string, skipWrap: bool): string -> string {
    original => MaybeWrap(set_, endpoint, original, skipWrap)
  }

  /** What one endpoint adds to the listing. */
  function ListedBy(set_: EncodeSet, e: Endpoint, skipWrap: bool): seq<Json> {
    if ItemsOf(set_, e).None? then []
    else MapItems(item => Renamed(KeyOf(set_), MaybeWrapFor(set_, e.name, skipWrap), item), ItemsOf(set_, e).value)
  }

  /** The listings of `es`, one after the other. */
  function ListedByAll(set_: EncodeSet, es: seq<Endpoint>, skipWrap: bool): seq<Json> {
    if es == [] then []
    else ListedByAll(set_, es[..|es| - 1], skipWrap) + ListedBy(set_, es[|es| - 1], skipWrap)
  }

  function ListedIn(set_: EncodeSet, reg: Registry, allowed: set<string>): seq<Json> {
    ListedByAll(set_, ActiveIn(reg, allowed), |ActiveIn(reg, allowed)| <= 1)
  }

  lemma ActiveInSnoc(reg: Registry, allowed: set<string>, e: Endpoint)
    ensures ActiveIn(reg + [e], allowed) == ActiveIn(reg, allowed) + (if IsActiveIn(e, allowed) then [e] else [])
  {
    if reg == [] {
      assert reg + [e] == [e];
    } else {
      assert (reg + [e])[1..] == reg[1..] + [e];
      ActiveInSnoc(reg[1..], allowed, e);
    }
  }

  lemma ListedByAllSnoc(set_: EncodeSet, es: seq<Endpoint>, e: Endpoint, skipWrap: bool)
    ensures ListedByAll(set_, es + [e], skipWrap) == ListedByAll(set_, es, skipWrap) + ListedBy(set_, e, skipWrap)
  {
    assert (es + [e])[..|es|] == es;
  }

  method RenameItems(key: string, f: string -> string, items: seq<Json>) returns (out: seq<Json>)
    ensures out == MapItems(item => Renamed(key, f, item), items)
  {
    out := [];
    for i := 0 to |items|
      invariant |out| == i
      invariant forall j :: 0 <= j < i ==> out[j] == Renamed(key, f, items[j])
    {
      var item := items[i];
      if AsStr(Get(item, key)).Some? {
        item := JObject(item.fields[key := JString(f(item.fields[key].s))]);
      }
      out := out + [item];
    }
  }

  /** The listings of the active endpoints among the first `i`. */
  function ListedUpTo(set_: EncodeSet, reg: Registry, allowed: set<string>, skipWrap: bool, i: nat): seq<Json>
    requires i <= |reg|
  {
    ListedByAll(set_, ActiveIn(reg[..i], allowed), skipWrap)
  }

  lemma ListedUpToStep(set_: EncodeSet, reg: Registry, allowed: set<string>, skipWrap: bool, i: nat)
    requires i < |reg|
    ensures ListedUpTo(set_, reg, allowed, skipWrap, i + 1) ==
            if IsActiveIn(reg[i], allowed)
            then ListedUpTo(set_, reg, allowed, skipWrap, i) + ListedBy(set_, reg[i], skipWrap)
            else ListedUpTo(set_, reg, allowed, skipWrap, i)
  {
    assert reg[..i + 1] == reg[..i] + [reg[i]];
    ActiveInSnoc(reg[..i], allowed, reg[i]);
    var before := ActiveIn(reg[..i], allowed);
    if IsActiveIn(reg[i], allowed) {
      ListedByAllSnoc(set_, before, reg[i], skipWrap);
    } else {
      assert before + [] == before;
    }
  }

  lemma ListedUpToEnd(set_: EncodeSet, reg: Registry, allowed: set<string>, skipWrap: bool)
    ensures ListedUpTo(set_, reg, allowed, skipWrap, |reg|) == ListedByAll(set_, ActiveIn(reg, allowed), skipWrap)
  {
    assert reg[..|reg|] == reg;
  }

  method ListBy(set_: EncodeSet, e: Endpoint, skipWrap: bool) returns (items: seq<Json>)
    ensures items == ListedBy(set_, e, skipWrap)
  {
    items := [];
    if ItemsOf(set_, e).Some? {
      items := RenameItems(KeyOf(set_), MaybeWrapFor(set_, e.name, skipWrap), ItemsOf(set_, e).value);
    }
  }

  /** `list_resources_in` for the plain set, `list_resource_templates_in` for the template set. */
  method ListIn(set_: EncodeSet, reg: Registry, allowed: set<string>) returns (merged: seq<Json>)
    ensures merged == ListedIn(set_, reg, allowed)
  {
    var skipWrap := |ActiveIn(reg, allowed)| <= 1;
    merged := [];
    assert ActiveIn(reg[..0], allowed) == [];
    for i := 0 to |reg|
      invariant merged == ListedUpTo(set_, reg, allowed, skipWrap, i)
    {
      var entry := reg[i];
      ListedUpToStep(set_, reg, allowed, skipWrap, i);
      if entry.disabled || entry.name !in allowed {
        continue;
      }
      var items := ListBy(set_, entry, skipWrap);
      merged := merged + items;
    }
    ListedUpToEnd(set_, reg, allowed, skipWrap);
  }

  function DispatchReadTo(reg: Registry, endpoint: string, uri: string): Result<Dispatch, RouteError> {
    match Find(reg, endpoint)
    case None => Err(NoAdapter)
    case Some(e) =>
      if e.disabled then Err(EndpointDisabled)
      else if !e.healthy then Err(Unhealthy)
      else Ok(Dispatch(endpoint, uri))
  }

  function FindSingleActiveIn(reg: Registry, allowed: set<string>): Option<string> {
    var active := ActiveIn(reg, allowed);
    if |active| == 1 then Some(active[0].name) else None
  }

  /** A strict decode first; only what is not a wrapper goes to the sole active endpoint. */
  function RouteResourceRead(reg: Registry, allowed: set<string>, uri: string): Result<Dispatch, RouteError> {
    match DecodeResourceUri(uri)
    case Ok((endpoint, original)) =>
      if endpoint !in allowed then Err(NotInProfile) else DispatchReadTo(reg, endpoint, original)
    case Err(_) =>
      match FindSingleActiveIn(reg, allowed)
      case Some(endpoint) => DispatchReadTo(reg, endpoint, uri)
      case None => Err(NoActiveEndpoint)
  }

  /** Whatever string comes in, a read reaches only a healthy, enabled endpoint of the profile. */
  lemma ReadsStayInProfile(reg: Registry, allowed: set<string>, uri: string)
    ensures RouteResourceRead(reg, allowed, uri).Ok? ==>
              var d := RouteResourceRead(reg, allowed, uri).value;
              d.endpoint in allowed && exists e :: e in reg && e.name == d.endpoint && !e.disabled && e.healthy
  {
    var r := RouteResourceRead(reg, allowed, uri);
    if r.Ok? {
      FoundIsRegistered(reg, r.value.endpoint);
      var active := ActiveIn(reg, allowed);
      assert |active| == 1 ==> active[0] in active;
    }
  }

  lemma SoleActive(reg: Registry, allowed: set<string>, e: Endpoint)
    requires e in ActiveIn(reg, allowed) && |ActiveIn(reg, allowed)| <= 1
    ensures FindSingleActiveIn(reg, allowed) == Some(e.name)
  {
  }

  /** A URI handed out raw must not look like a wrapper; a wrapped one must carry a name the wrapper can carry. */
  predicate IsReadable(endpoint: string, original: string, skipWrap: bool) {
    if skipWrap then DecodeResourceUri(original).Err? else IsWrappableEndpoint(endpoint)
  }

  /** A wrapped URI under a name the wrapper cannot carry decodes to another name, if at all. */
  lemma UnwrappableNeverReadsBack(reg: Registry, allowed: set<string>, endpoint: string, original: string)
    requires !IsWrappableEndpoint(endpoint)
    ensures RouteResourceRead(reg, allowed, EncodeResourceUri(endpoint, original)) != Ok(Dispatch(endpoint, original))
  {
    var uri := EncodeResourceUri(endpoint, original);
    WrapLengthens(Plain, endpoint, original);
    if DecodeResourceUri(uri).Ok? {
      DecodedShape(uri);
    }
  }

  /**
   * A URI handed out for `original`, wrapped or raw, reads back to its owner exactly when it
   * is readable; an unhealthy owner of a readable URI is reported.
   */
  lemma ReadsBack(reg: Registry, allowed: set<string>, e: Endpoint, original: string, skipWrap: bool)
    requires IsRegistry(reg) && e in ActiveIn(reg, allowed)
    requires skipWrap ==> |ActiveIn(reg, allowed)| <= 1
    ensures var r := RouteResourceRead(reg, allowed, MaybeEncodeResourceUri(e.name, original, skipWrap));
            && (e.healthy ==> (r == Ok(Dispatch(e.name, original)) <==> IsReadable(e.name, original, skipWrap)))
            && (!e.healthy && IsReadable(e.name, original, skipWrap) ==> r == Err(Unhealthy))
  {
    FindsByName(reg, e);
    if skipWrap {
      SoleActive(reg, allowed, e);
      if DecodeResourceUri(original).Ok? {
        DecodeMakesProgress(original, e.name);
      }
    } else if IsWrappableEndpoint(e.name) {
      DecodeInvertsWrap(Plain, e.name, original);
    } else {
      UnwrappableNeverReadsBack(reg, allowed, e.name, original);
    }
  }

  /**
   * A slash in a name, which configuration accepts, sends a listed URI to whichever endpoint
   * bears the part before the slash.
   */
  lemma SlashInNameMisroutes(reg: Registry, allowed: set<string>, e: Endpoint, tail: string, original: string)
    requires IsRegistry(reg) && e in ActiveIn(reg, allowed) && e.healthy && IsWrappableEndpoint(e.name)
    requires IsAllUnreserved(tail)
    ensures RouteResourceRead(reg, allowed, EncodeResourceUri(e.name + "/" + tail, original)) ==
            Ok(Dispatch(e.name, tail + "/" + original))
  {
    FindsByName(reg, e);
    SlashInNameIsCut(Plain, e.name, tail, original);
  }

  ghost predicate Lists(set_: EncodeSet, e: Endpoint, original: string) {
    ItemsOf(set_, e).Some?
    && exists item :: item in ItemsOf(set_, e).value && AsStr(Get(item, KeyOf(set_))) == Some(original)
  }

  /** `out` is what the listing makes of an item of `e`. */
  ghost predicate IsHandedOut(set_: EncodeSet, e: Endpoint, original: string, skipWrap: bool, out: string) {
    Lists(set_, e, original) && out == MaybeWrap(set_, e.name, original, skipWrap)
  }

  lemma {:induction false} ListedComesFromOwner(set_: EncodeSet, es: seq<Endpoint>, skipWrap: bool, item: Json,
      out: string)
    requires item in ListedByAll(set_, es, skipWrap) && AsStr(Get(item, KeyOf(set_))) == Some(out)
    ensures exists e, original :: e in es && IsHandedOut(set_, e, original, skipWrap, out)
  {
    var last := es[|es| - 1];
    var here := ListedBy(set_, last, skipWrap);
    if item in here {
      var i :| 0 <= i < |here| && here[i] == item;
      var source := ItemsOf(set_, last).value[i];
      assert item == Renamed(KeyOf(set_), MaybeWrapFor(set_, last.name, skipWrap), source);
      assert source in ItemsOf(set_, last).value;
      var original := source.fields[KeyOf(set_)].s;
      assert IsHandedOut(set_, last, original, skipWrap, out);
    } else {
      ListedComesFromOwner(set_, es[..|es| - 1], skipWrap, item, out);
      var e, original :| e in es[..|es| - 1] && IsHandedOut(set_, e, original, skipWrap, out);
      assert e in es;
    }
  }

  /**
   * Every URI in a profile's resource listing belongs to one of its endpoints, and reading it
   * through the profile brings that endpoint its own original URI exactly when it is readable.
   */
  lemma ListedResourceReadsBack(reg: Registry, allowed: set<string>, item: Json, uri: string)
    requires IsRegistry(reg)
    requires item in ListedIn(Plain, reg, allowed) && AsStr(Get(item, "uri")) == Some(uri)
    ensures exists e, original ::
      var skipWrap := |ActiveIn(reg, allowed)| <= 1;
      && e in ActiveIn(reg, allowed) && IsHandedOut(Plain, e, original, skipWrap, uri)
      && (e.healthy ==> (RouteResourceRead(reg, allowed, uri) == Ok(Dispatch(e.name, original)) <==>
            IsReadable(e.name, original, skipWrap)))
  {
    var active := ActiveIn(reg, allowed);
    ListedComesFromOwner(Plain, active, |active| <= 1, item, uri);
    var e, original :| e in active && IsHandedOut(Plain, e, original, |active| <= 1, uri);
    ReadsBack(reg, allowed, e, original, |active| <= 1);
  }

  /** What makes an instance of a listed template readable; wrapped, the name too goes through expansion. */
  predicate IsInstanceReadable(env: map<string, string>, endpoint: string, template: string, skipWrap: bool)
    requires IsLevel1(template)
  {
    if skipWrap then DecodeResourceUri(Expand(env, template)).Err?
    else IsWrappableEndpoint(endpoint) && IsCopiedLiteral(endpoint) && IsCopiedVerbatim(env, template)
  }

  /**
   * Filling in a template that was handed out for `template`, and reading the result, brings its
   * owner the expansion of its own template exactly when that instance is readable.
   */
  lemma ExpandedTemplateReadsBack(reg: Registry, allowed: set<string>, e: Endpoint, template: string,
      env: map<string, string>)
    requires IsRegistry(reg) && e in ActiveIn(reg, allowed) && e.healthy && IsLevel1(template)
    requires IsLevel1(MaybeWrap(Template, e.name, template, |ActiveIn(reg, allowed)| <= 1))
    ensures var skipWrap := |ActiveIn(reg, allowed)| <= 1;
            RouteResourceRead(reg, allowed, Expand(env, MaybeWrap(Template, e.name, template, skipWrap)))
              == Ok(Dispatch(e.name, Expand(env, template)))
            <==> IsInstanceReadable(env, e.name, template, skipWrap)
  {
    FindsByName(reg, e);
    if |ActiveIn(reg, allowed)| <= 1 {
      ReadsBack(reg, allowed, e, Expand(env, template), true);
    } else {
      WrappedIsLevel1Exactly(e.name, template);
      WrappingCommutesWithExpansion(env, e.name, template);
    }
  }

  /** Instances of `out` read back to `e` as instances of `template` exactly when they are readable. */
  ghost predicate InstancesReadBack(reg: Registry, allowed: set<string>, e: Endpoint, template: string, out: string) {
    e.healthy && IsLevel1(out) && IsLevel1(template) ==> forall env: map<string, string> ::
      RouteResourceRead(reg, allowed, Expand(env, out)) == Ok(Dispatch(e.name, Expand(env, template)))
      <==> IsInstanceReadable(env, e.name, template, |ActiveIn(reg, allowed)| <= 1)
  }

  lemma HandedOutTemplateReadsBack(reg: Registry, allowed: set<string>, e: Endpoint, template: string)
    requires IsRegistry(reg) && e in ActiveIn(reg, allowed)
    ensures InstancesReadBack(reg, allowed, e, template,
            MaybeWrap(Template, e.name, template, |ActiveIn(reg, allowed)| <= 1))
  {
    var out := MaybeWrap(Template, e.name, template, |ActiveIn(reg, allowed)| <= 1);
    if e.healthy && IsLevel1(out) && IsLevel1(template) {
      forall env: map<string, string>
        ensures RouteResourceRead(reg, allowed, Expand(env, out)) == Ok(Dispatch(e.name, Expand(env, template)))
                <==> IsInstanceReadable(env, e.name, template, |ActiveIn(reg, allowed)| <= 1)
      {
        ExpandedTemplateReadsBack(reg, allowed, e, template, env);
      }
    }
  }

  /** The same of every template in the profile's listing. */
  lemma ListedTemplateReadsBack(reg: Registry, allowed: set<string>, item: Json, out: string)
    requires IsRegistry(reg)
    requires item in ListedIn(Template, reg, allowed) && AsStr(Get(item, "uriTemplate")) == Some(out)
    ensures exists e, template ::
      && e in ActiveIn(reg, allowed) && IsHandedOut(Template, e, template, |ActiveIn(reg, allowed)| <= 1, out)
      && InstancesReadBack(reg, allowed, e, template, out)
  {
    var active := ActiveIn(reg, allowed);
    ListedComesFromOwner(Template, active, |active| <= 1, item, out);
    var e, template :| e in active && IsHandedOut(Template, e, template, |active| <= 1, out);
    HandedOutTemplateReadsBack(reg, allowed, e, template);
  }

  /** The relay-wide read: the wrapper is decoded only when two or more endpoints are active. */
  function RouteRelayRead(reg: Registry, uri: string): Result<Dispatch, RouteError> {
    match MaybeDecodeResourceUri(uri, |Active(reg)| <= 1)
    case Err(_) => Err(InvalidUri)
    case Ok((Some(endpoint), original)) => DispatchReadTo(reg, endpoint, original)
    case Ok((None, original)) =>
      if |Active(reg)| == 0 then Err(NoActiveEndpoint) else DispatchReadTo(reg, Active(reg)[0].name, original)
  }

  /**
   * Outside profiles a raw URI reads back whatever it looks like, since with one endpoint
   * active nothing is decoded; a wrapped one exactly when the wrapper can carry the name.
   */
  lemma RelayReadsBack(reg: Registry, e: Endpoint, original: string)
    requires IsRegistry(reg) && e in Active(reg)
    ensures var skipWrap := |Active(reg)| <= 1;
            var r := RouteRelayRead(reg, MaybeEncodeResourceUri(e.name, original, skipWrap));
            && (e.healthy ==> (r == Ok(Dispatch(e.name, original)) <==> skipWrap || IsWrappableEndpoint(e.name)))
            && (!e.healthy && (skipWrap || IsWrappableEndpoint(e.name)) ==> r == Err(Unhealthy))
  {
    FindsByName(reg, e);
    if |Active(reg)| >= 2 {
      if IsWrappableEndpoint(e.name) {
        DecodeInvertsWrap(Plain, e.name, original);
      } else {
        var uri := EncodeResourceUri(e.name, original);
        if DecodeResourceUri(uri).Ok? { DecodedShape(uri); }
      }
    }
  }

  // Prompts and tools: namespaced names and the reverse lookup

  datatype Listed = Listed(name: string, endpoint: string, raw: string)

  function FinalName(e: Endpoint, skipPrefix: bool, raw: string): string {
    if skipPrefix || e.prefix.None? then raw else EncodeToolName(e.prefix.value, None, raw)
  }

  function Listing(e: Endpoint, skipPrefix: bool, raws: seq<string>): (r: seq<Listed>)
    ensures |r| == |raws|
    ensures forall i :: 0 <= i < |raws| ==> r[i] == Listed(FinalName(e, skipPrefix, raws[i]), e.name, raws[i])
  {
    seq(|raws|, i requires 0 <= i < |raws| => Listed(FinalName(e, skipPrefix, raws[i]), e.name, raws[i]))
  }

  function ListingOf(names: Endpoint -> seq<string>, es: seq<Endpoint>, skipPrefix: bool): seq<Listed> {
    if es == [] then []
    else ListingOf(names, es[..|es| - 1], skipPrefix) + Listing(es[|es| - 1], skipPrefix, names(es[|es| - 1]))
  }

  type ReverseLookup = map<string, (string, string)>

  /** Insertions in order; a later one replaces an earlier one of the same name. */
  function LookupOf(listing: seq<Listed>): ReverseLookup {
    if listing == [] then map[]
    else
      var last := listing[|listing| - 1];
      LookupOf(listing[..|listing| - 1])[last.name := (last.endpoint, last.raw)]
  }

  ghost predicate IsUnambiguous(listing: seq<Listed>) {
    forall x, y :: x in listing && y in listing && x.name == y.name ==> x == y
  }

  lemma {:induction false} LookupHoldsLastInsertion(listing: seq<Listed>, name: string)
    ensures name in LookupOf(listing) <==> exists x :: x in listing && x.name == name
    ensures name in LookupOf(listing) ==> Listed(name, LookupOf(listing)[name].0, LookupOf(listing)[name].1) in listing
  {
    if listing != [] {
      var before, last := listing[..|listing| - 1], listing[|listing| - 1];
      LookupHoldsLastInsertion(before, name);
      assert forall x :: x in listing <==> x in before || x == last;
    }
  }

  /** The reverse lookup returns every listed name to its owner exactly when no name has two owners. */
  lemma LookupReturnsOwnersExactly(listing: seq<Listed>)
    ensures IsUnambiguous(listing) <==>
            forall x :: x in listing ==> x.name in LookupOf(listing) && LookupOf(listing)[x.name] == (x.endpoint, x.raw)
  {
    var lookup := LookupOf(listing);
    forall x | x in listing
      ensures x.name in lookup && Listed(x.name, lookup[x.name].0, lookup[x.name].1) in listing
    {
      LookupHoldsLastInsertion(listing, x.name);
    }
  }

  /** What stands in front of every raw name an endpoint lists. */
  function Head(e: Endpoint, skipPrefix: bool): string {
    if skipPrefix || e.prefix.None? then "" else e.prefix.value + DELIMITER
  }

  predicate MayShareName(p: string, q: string) {
    p <= q || q <= p
  }

  lemma FinalNameHasHead(e: Endpoint, skipPrefix: bool, raw: string)
    ensures FinalName(e, skipPrefix, raw) == Head(e, skipPrefix) + raw
  {
  }

  /** The names of two endpoints cannot collide. With one endpoint there is nothing to collide. */
  ghost predicate HaveSeparateHeads(es: seq<Endpoint>) {
    forall d, e :: d in es && e in es && d != e ==> !MayShareName(Head(d, |es| <= 1), Head(e, |es| <= 1))
  }

  /** Prefixes that are separable in pairs give separate heads, and with two or more endpoints so do no others. */
  lemma SeparatePrefixesExactly(es: seq<Endpoint>)
    requires |es| >= 2 && forall e :: e in es ==> e.prefix.Some?
    ensures HaveSeparateHeads(es) <==>
            forall d, e :: d in es && e in es && d != e ==> Separable(d.prefix.value, e.prefix.value)
  {
    forall d, e | d in es && e in es
      ensures MayShareName(Head(d, |es| <= 1), Head(e, |es| <= 1)) <==> !Separable(d.prefix.value, e.prefix.value)
    {
    }
  }

  lemma {:induction false} ListedHasOwner(names: Endpoint -> seq<string>, es: seq<Endpoint>, skipPrefix: bool,
      x: Listed)
    ensures x in ListingOf(names, es, skipPrefix) <==>
            exists e :: e in es && x.endpoint == e.name && x.raw in names(e)
              && x.name == FinalName(e, skipPrefix, x.raw)
  {
    if es != [] {
      var before, last := es[..|es| - 1], es[|es| - 1];
      ListedHasOwner(names, before, skipPrefix, x);
      assert forall e :: e in es <==> e in before || e == last;
      var here := Listing(last, skipPrefix, names(last));
      if x.endpoint == last.name && x.raw in names(last) && x.name == FinalName(last, skipPrefix, x.raw) {
        var i :| 0 <= i < |names(last)| && names(last)[i] == x.raw;
        assert here[i] == x;
      }
    }
  }

  lemma SeparateListingIsUnambiguous(names: Endpoint -> seq<string>, es: seq<Endpoint>)
    requires HaveSeparateHeads(es)
    ensures IsUnambiguous(ListingOf(names, es, |es| <= 1))
  {
    var skipPrefix := |es| <= 1;
    var listing := ListingOf(names, es, skipPrefix);
    forall x, y | x in listing && y in listing && x.name == y.name ensures x == y {
      ListedHasOwner(names, es, skipPrefix, x);
      ListedHasOwner(names, es, skipPrefix, y);
      var d :| d in es && x.endpoint == d.name && x.raw in names(d) && x.name == FinalName(d, skipPrefix, x.raw);
      var e :| e in es && y.endpoint == e.name && y.raw in names(e) && y.name == FinalName(e, skipPrefix, y.raw);
      FinalNameHasHead(d, skipPrefix, x.raw);
      FinalNameHasHead(e, skipPrefix, y.raw);
      if d != e {
        StartsOfOneString(Head(d, skipPrefix), x.raw, Head(e, skipPrefix), y.raw);
      } else {
        SameRest(Head(d, skipPrefix), x.raw, y.raw);
      }
    }
  }

  lemma SameRest(head: string, raw: string, raw': string)
    requires head + raw == head + raw'
    ensures raw == raw'
  {
    assert raw == (head + raw)[|head|..] && raw' == (head + raw')[|head|..];
  }

  /** Raw names for two endpoints, and none for any other. */
  function TwoNames(d: Endpoint, t: string, e: Endpoint, u: string): Endpoint -> seq<string> {
    x => if x == d then [t] else if x == e then [u] else []
  }

  /** One name with two owners. */
  lemma TwoOwners(names: Endpoint -> seq<string>, es: seq<Endpoint>, d: Endpoint, t: string, e: Endpoint, u: string)
    requires d in es && e in es && d.name != e.name && t in names(d) && u in names(e)
    requires FinalName(d, |es| <= 1, t) == FinalName(e, |es| <= 1, u)
    ensures !HasUniqueOwners(names, es)
  {
    var name := FinalName(d, |es| <= 1, t);
    var x, y := Listed(name, d.name, t), Listed(name, e.name, u);
    ListedHasOwner(names, es, |es| <= 1, x);
    ListedHasOwner(names, es, |es| <= 1, y);
    assert x.name == y.name && x != y;
  }

  ghost predicate HasUniqueOwners(names: Endpoint -> seq<string>, es: seq<Endpoint>) {
    IsUnambiguous(ListingOf(names, es, |es| <= 1))
  }

  lemma SharedHeadsCollide(es: seq<Endpoint>, d: Endpoint, e: Endpoint)
    requires d in es && e in es && d.name != e.name && MayShareName(Head(d, |es| <= 1), Head(e, |es| <= 1))
    ensures exists names :: !HasUniqueOwners(names, es)
  {
    var p, q := Head(d, |es| <= 1), Head(e, |es| <= 1);
    var t, u := if p <= q then q[|p|..] else "", if p <= q then "" else p[|q|..];
    assert p + t == q + u;
    FinalNameHasHead(d, |es| <= 1, t);
    FinalNameHasHead(e, |es| <= 1, u);
    TwoOwners(TwoNames(d, t, e, u), es, d, t, e, u);
  }

  /** No name is ambiguous, whatever the endpoints list, exactly when their heads are separate. */
  lemma UnambiguousExactly(es: seq<Endpoint>)
    requires forall d, e :: d in es && e in es && d != e ==> d.name != e.name
    ensures HaveSeparateHeads(es) <==> forall names :: HasUniqueOwners(names, es)
  {
    if HaveSeparateHeads(es) {
      forall names ensures HasUniqueOwners(names, es) {
        SeparateListingIsUnambiguous(names, es);
      }
    } else {
      var d, e :| d in es && e in es && d != e && MayShareName(Head(d, |es| <= 1), Head(e, |es| <= 1));
      SharedHeadsCollide(es, d, e);
    }
  }

  function StringsAt(key: string, items: seq<Json>): seq<string> {
    if items == [] then []
    else
      var last := AsStr(Get(items[|items| - 1], key));
      StringsAt(key, items[..|items| - 1]) + (if last.Some? then [last.value] else [])
  }

  function PromptNames(e: Endpoint): seq<string> {
    if e.prompts.None? then [] else StringsAt("name", e.prompts.value)
  }

  function PromptListing(reg: Registry, allowed: set<string>): seq<Listed> {
    ListingOf(PromptNames, ActiveIn(reg, allowed), |ActiveIn(reg, allowed)| <= 1)
  }

  lemma LookupOfSnoc(listing: seq<Listed>, x: Listed)
    ensures LookupOf(listing + [x]) == LookupOf(listing)[x.name := (x.endpoint, x.raw)]
  {
    assert (listing + [x])[..|listing|] == listing;
  }

  /** One endpoint's turn of the loop that fills the reverse lookup. */
  method InsertPrompts(e: Endpoint, skipPrefix: bool, items: seq<Json>, ghost listing: seq<Listed>,
      before: ReverseLookup)
    returns (lookup: ReverseLookup)
    requires before == LookupOf(listing)
    ensures lookup == LookupOf(listing + Listing(e, skipPrefix, StringsAt("name", items)))
  {
    lookup := before;
    ghost var done := listing;
    assert listing + [] == listing;
    for i := 0 to |items|
      invariant done == listing + Listing(e, skipPrefix, StringsAt("name", items[..i]))
      invariant lookup == LookupOf(done)
    {
      var name := AsStr(Get(items[i], "name"));
      assert items[..i + 1][..i] == items[..i];
      if name.Some? {
        var entry := Listed(FinalName(e, skipPrefix, name.value), e.name, name.value);
        ListingSnoc(e, skipPrefix, StringsAt("name", items[..i]), name.value);
        LookupOfSnoc(done, entry);
        lookup := lookup[entry.name := (entry.endpoint, entry.raw)];
        Sequences.Associative(listing, Listing(e, skipPrefix, StringsAt("name", items[..i])), [entry]);
        done := done + [entry];
      } else {
        assert StringsAt("name", items[..i]) + [] == StringsAt("name", items[..i]);
      }
    }
    assert items[..|items|] == items;
  }

  lemma ListingSnoc(e: Endpoint, skipPrefix: bool, raws: seq<string>, raw: string)
    ensures Listing(e, skipPrefix, raws + [raw]) == Listing(e, skipPrefix, raws)
            + [Listed(FinalName(e, skipPrefix, raw), e.name, raw)]
  {
  }

  lemma ListingOfSnoc(names: Endpoint -> seq<string>, es: seq<Endpoint>, e: Endpoint, skipPrefix: bool)
    ensures ListingOf(names, es + [e], skipPrefix) == ListingOf(names, es, skipPrefix)
            + Listing(e, skipPrefix, names(e))
  {
    assert (es + [e])[..|es|] == es;
  }

  /** The listing of the active endpoints among the first `i`. */
  function ListingUpTo(names: Endpoint -> seq<string>, reg: Registry, allowed: set<string>, skipPrefix: bool,
      i: nat): seq<Listed>
    requires i <= |reg|
  {
    ListingOf(names, ActiveIn(reg[..i], allowed), skipPrefix)
  }

  lemma ListingUpToStep(names: Endpoint -> seq<string>, reg: Registry, allowed: set<string>, skipPrefix: bool, i: nat)
    requires i < |reg|
    ensures ListingUpTo(names, reg, allowed, skipPrefix, i + 1) ==
            ListingUpTo(names, reg, allowed, skipPrefix, i)
            + (if IsActiveIn(reg[i], allowed) then Listing(reg[i], skipPrefix, names(reg[i])) else [])
  {
    assert reg[..i + 1] == reg[..i] + [reg[i]];
    ActiveInSnoc(reg[..i], allowed, reg[i]);
    var before := ActiveIn(reg[..i], allowed);
    if IsActiveIn(reg[i], allowed) {
      ListingOfSnoc(names, before, reg[i], skipPrefix);
    } else {
      assert before + [] == before;
    }
  }

  lemma ListingUpToEnd(names: Endpoint -> seq<string>, reg: Registry, allowed: set<string>, skipPrefix: bool)
    ensures ListingUpTo(names, reg, allowed, skipPrefix, |reg|) == ListingOf(names, ActiveIn(reg, allowed), skipPrefix)
  {
    assert reg[..|reg|] == reg;
  }

  method PromptLookupIn(reg: Registry, allowed: set<string>) returns (lookup: ReverseLookup)
    ensures lookup == LookupOf(PromptListing(reg, allowed))
  {
    var skipPrefix := |ActiveIn(reg, allowed)| <= 1;
    lookup := map[];
    ghost var listing: seq<Listed> := [];
    assert ActiveIn(reg[..0], allowed) == [];
    for i := 0 to |reg|
      invariant listing == ListingUpTo(PromptNames, reg, allowed, skipPrefix, i)
      invariant lookup == LookupOf(listing)
    {
      var entry := reg[i];
      ListingUpToStep(PromptNames, reg, allowed, skipPrefix, i);
      assert listing + [] == listing;
      if entry.disabled || entry.name !in allowed {
        continue;
      }
      if entry.prompts.Some? {
        lookup := InsertPrompts(entry, skipPrefix, entry.prompts.value, listing, lookup);
      }
      listing := listing + Listing(entry, skipPrefix, PromptNames(entry));
    }
    ListingUpToEnd(PromptNames, reg, allowed, skipPrefix);
  }

  /** Lookup, allowed-set guard, then the registry's checks. */
  function PromptTarget(reg: Registry, allowed: set<string>, name: string): Result<Dispatch, RouteError> {
    var lookup := LookupOf(PromptListing(reg, allowed));
    if name !in lookup then Err(Unknown)
    else if lookup[name].0 !in allowed then Err(NotInProfile)
    else DispatchReadTo(reg, lookup[name].0, lookup[name].1)
  }

  function PromptResult(reg: Registry, allowed: set<string>, endpoint: string, value: Json): Json {
    if |ActiveIn(reg, allowed)| <= 1 then value else MapPromptGet(WrapFor(endpoint), value)
  }

  /** `serve` is what the upstream answers. */
  method RoutePromptGet(reg: Registry, allowed: set<string>, name: string, serve: Dispatch -> Json)
    returns (r: Result<Json, RouteError>)
    ensures r == match PromptTarget(reg, allowed, name)
                 case Err(e) => Err(e)
                 case Ok(d) => Ok(PromptResult(reg, allowed, d.endpoint, serve(d)))
  {
    var lookup := PromptLookupIn(reg, allowed);
    if name !in lookup { return Err(Unknown); }
    var (endpoint, raw) := lookup[name];
    if endpoint !in allowed { return Err(NotInProfile); }
    var skipWrap := |ActiveIn(reg, allowed)| <= 1;
    var dispatched := DispatchReadTo(reg, endpoint, raw);
    if dispatched.Err? { return Err(dispatched.error); }
    var value := RewritePromptGetResult(serve(dispatched.value), endpoint, skipWrap);
    return Ok(value);
  }

  lemma PromptRequestsStayInProfile(reg: Registry, allowed: set<string>, name: string)
    ensures PromptTarget(reg, allowed, name).Ok? ==>
              var d := PromptTarget(reg, allowed, name).value;
              d.endpoint in allowed && exists e :: e in reg && e.name == d.endpoint && !e.disabled && e.healthy
  {
    var r := PromptTarget(reg, allowed, name);
    if r.Ok? { FoundIsRegistered(reg, r.value.endpoint); }
  }

  lemma NamesAreOwned(reg: Registry, names: Endpoint -> seq<string>, es: seq<Endpoint>, skipPrefix: bool, x: Listed)
    requires IsRegistry(reg) && (forall e :: e in es ==> e in reg && !e.disabled)
    requires x in ListingOf(names, es, skipPrefix)
    ensures Find(reg, x.endpoint).Some? && Find(reg, x.endpoint).value in es
            && x.raw in names(Find(reg, x.endpoint).value)
  {
    ListedHasOwner(names, es, skipPrefix, x);
    var e :| e in es && x.endpoint == e.name && x.raw in names(e) && x.name == FinalName(e, skipPrefix, x.raw);
    FindsByName(reg, e);
  }

  /** With separate heads every listed prompt is requested from its owner under its own name. */
  lemma ListedPromptRoutesToOwner(reg: Registry, allowed: set<string>, x: Listed)
    requires IsRegistry(reg) && x in PromptListing(reg, allowed)
    requires HaveSeparateHeads(ActiveIn(reg, allowed))
    ensures x.endpoint in allowed && Find(reg, x.endpoint).Some?
    ensures PromptTarget(reg, allowed, x.name) ==
            if Find(reg, x.endpoint).value.healthy then Ok(Dispatch(x.endpoint, x.raw)) else Err(Unhealthy)
  {
    var active := ActiveIn(reg, allowed);
    SeparateListingIsUnambiguous(PromptNames, active);
    LookupReturnsOwnersExactly(PromptListing(reg, allowed));
    NamesAreOwned(reg, PromptNames, active, |active| <= 1, x);
    FoundIsRegistered(reg, x.endpoint);
  }

  // Pointers inside results

  /**
   * A resource pointer in a prompt's result reads back through the same profile to the
   * endpoint that served the prompt.
   */
  lemma PromptPointerReadsBack(reg: Registry, allowed: set<string>, e: Endpoint, value: Json, p: Path, original: string)
    requires IsRegistry(reg) && e in ActiveIn(reg, allowed) && e.healthy
    requires IsPromptSlot(value, p) && StringAt(value, p) == Some(original)
    ensures var out := StringAt(PromptResult(reg, allowed, e.name, value), p);
            out.Some? && (RouteResourceRead(reg, allowed, out.value) == Ok(Dispatch(e.name, original)) <==>
              IsReadable(e.name, original, |ActiveIn(reg, allowed)| <= 1))
  {
    PromptGetChangesOnlySlots(WrapFor(e.name), value);
    assert ProbeAt(MapPromptGet(WrapFor(e.name), value), p) == Scalar(JString(WrapFor(e.name)(original)));
    ReadsBack(reg, allowed, e, original, |ActiveIn(reg, allowed)| <= 1);
  }
}

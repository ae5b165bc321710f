/** src/tool_call_rewrite.rs: URI rewriting of `tools/call` and `prompts/get` results. */
module ToolCallRewrite {
  import opened Wrappers
  import opened Json
  import opened ResourceUri

  // The rewrite as a map over the enumerated slots

  /** Applies `f` to the string member `key`, if there is one. */
  function MapMember(f: string -> string, fields: map<string, Json>, key: string): map<string, Json> {
    if key in fields && fields[key].JString? then fields[key := JString(f(fields[key].s))] else fields
  }

  function MapMeta(f: string -> string, meta: map<string, Json>): map<string, Json> {
    var withUi :=
      if "ui" in meta && meta["ui"].JObject?
      then meta["ui" := JObject(MapMember(f, meta["ui"].fields, "resourceUri"))]
      else meta;
    MapMember(f, withUi, "openai/outputTemplate")
  }

  function Kind(block: Json): string {
    match AsStr(Get(block, "type"))
    case Some(kind) => kind
    case None => ""
  }

  function MapBlock(f: string -> string, block: Json): Json {
    match Kind(block)
    case "resource" =>
      if Get(block, "resource").Some? && block.fields["resource"].JObject?
      then JObject(block.fields["resource" := JObject(MapMember(f, block.fields["resource"].fields, "uri"))])
      else block
    case "resource_link" => JObject(MapMember(f, block.fields, "uri"))
    case _ => block
  }

  function MapItems(g: Json -> Json, items: seq<Json>): seq<Json> {
    seq(|items|, i requires 0 <= i < |items| => g(items[i]))
  }

  /** Applies `g` to every block of `result.content`. */
  function MapContent(g: Json -> Json, result: Json): Json {
    if Get(result, "content").Some? && result.fields["content"].JArray?
    then JObject(result.fields["content" := JArray(MapItems(g, result.fields["content"].items))])
    else result
  }

  function MapToolCall(f: string -> string, result: Json): Json {
    var withMeta :=
      if Get(result, "_meta").Some? && result.fields["_meta"].JObject?
      then JObject(result.fields["_meta" := JObject(MapMeta(f, result.fields["_meta"].fields))])
      else result;
    MapContent(b => MapBlock(f, b), withMeta)
  }

  function WrapFor(endpoint: string): string -> string {
    uri => EncodeResourceUri(endpoint, uri)
  }

  // The methods

  method RewriteMetaUiPointers(meta: map<string, Json>, endpoint: string) returns (r: map<string, Json>)
    ensures r == MapMeta(WrapFor(endpoint), meta)
  {
    r := meta;
    if "ui" in r && r["ui"].JObject? {
      var ui := r["ui"].fields;
      if "resourceUri" in ui && ui["resourceUri"].JString? {
        ui := ui["resourceUri" := JString(MaybeEncodeResourceUri(endpoint, ui["resourceUri"].s, false))];
      }
      r := r["ui" := JObject(ui)];
    }
    if "openai/outputTemplate" in r && r["openai/outputTemplate"].JString? {
      r := r["openai/outputTemplate" := JString(MaybeEncodeResourceUri(endpoint, r["openai/outputTemplate"].s, false))];
    }
  }

  method RewriteContentBlock(item: Json, endpoint: string) returns (r: Json)
    ensures r == MapBlock(WrapFor(endpoint), item)
  {
    r := item;
    var kind := Kind(item);
    if kind == "resource" {
      if Get(r, "resource").Some? && r.fields["resource"].JObject? {
        var resource := r.fields["resource"].fields;
        if "uri" in resource && resource["uri"].JString? {
          resource := resource["uri" := JString(MaybeEncodeResourceUri(endpoint, resource["uri"].s, false))];
        }
        r := JObject(r.fields["resource" := JObject(resource)]);
      }
    } else if kind == "resource_link" {
      if r.JObject? && "uri" in r.fields && r.fields["uri"].JString? {
        r := JObject(r.fields["uri" := JString(MaybeEncodeResourceUri(endpoint, r.fields["uri"].s, false))]);
      }
    }
  }

  method RewriteToolCallResult(result: Json, endpoint: string, skipWrap: bool) returns (r: Json)
    ensures r == if skipWrap then result else MapToolCall(WrapFor(endpoint), result)
  {
    r := result;
    if skipWrap {
      return;
    }
    if Get(r, "_meta").Some? && r.fields["_meta"].JObject? {
      var meta := RewriteMetaUiPointers(r.fields["_meta"].fields, endpoint);
      r := JObject(r.fields["_meta" := JObject(meta)]);
    }
    if Get(r, "content").Some? && r.fields["content"].JArray? {
      var content := RewriteBlocks(r.fields["content"].items, endpoint);
      r := JObject(r.fields["content" := JArray(content)]);
    }
  }

  method RewriteBlocks(items: seq<Json>, endpoint: string) returns (content: seq<Json>)
    ensures content == MapItems(b => MapBlock(WrapFor(endpoint), b), items)
  {
    content := items;
    for i := 0 to |items|
      invariant |content| == |items|
      invariant forall j :: 0 <= j < i ==> content[j] == MapBlock(WrapFor(endpoint), items[j])
      invariant forall j :: i <= j < |items| ==> content[j] == items[j]
    {
      var item := RewriteContentBlock(content[i], endpoint);
      content := content[i := item];
    }
  }

  // prompts/get

  /** `messages[].content` is either one block or an array of blocks. */
  function MapPromptContent(f: string -> string, content: Json): Json {
    match content
    case JArray(items) => JArray(MapItems(b => MapBlock(f, b), items))
    case JObject(_) => MapBlock(f, content)
    case _ => content
  }

  function MapMessage(f: string -> string, message: Json): Json {
    if Get(message, "content").Some?
    then JObject(message.fields["content" := MapPromptContent(f, message.fields["content"])])
    else message
  }

  function MapPromptGet(f: string -> string, result: Json): Json {
    if Get(result, "messages").Some? && result.fields["messages"].JArray?
    then JObject(result.fields["messages" := JArray(MapItems(m => MapMessage(f, m), result.fields["messages"].items))])
    else result
  }

  method RewriteMessage(message: Json, endpoint: string) returns (r: Json)
    ensures r == MapMessage(WrapFor(endpoint), message)
  {
    r := message;
    if Get(message, "content").Some? {
      var content := message.fields["content"];
      if content.JArray? {
        var items := RewriteBlocks(content.items, endpoint);
        content := JArray(items);
      } else if content.JObject? {
        content := RewriteContentBlock(content, endpoint);
      }
      r := JObject(message.fields["content" := content]);
    }
  }

  method RewritePromptGetResult(result: Json, endpoint: string, skipWrap: bool) returns (r: Json)
    ensures r == if skipWrap then result else MapPromptGet(WrapFor(endpoint), result)
  {
    r := result;
    if skipWrap {
      return;
    }
    if Get(r, "messages").Some? && r.fields["messages"].JArray? {
      var messages := r.fields["messages"].items;
      ghost var was := messages;
      for i := 0 to |messages|
        invariant |messages| == |was|
        invariant forall j :: 0 <= j < i ==> messages[j] == MapMessage(WrapFor(endpoint), was[j])
        invariant forall j :: i <= j < |was| ==> messages[j] == was[j]
      {
        var message := RewriteMessage(messages[i], endpoint);
        messages := messages[i := message];
      }
      assert messages == MapItems(m => MapMessage(WrapFor(endpoint), m), was);
      r := JObject(r.fields["messages" := JArray(messages)]);
    }
  }

  // The enumerated slots, as paths

  /** The two places a content block can hold a resource reference, by its `type`. */
  predicate IsBlockSlot(block: Json, p: Path) {
    || (StringAt(block, [Key("type")]) == Some("resource") && p == [Key("resource"), Key("uri")])
    || (StringAt(block, [Key("type")]) == Some("resource_link") && p == [Key("uri")])
  }

  predicate IsMetaSlot(p: Path) {
    p == [Key("ui"), Key("resourceUri")] || p == [Key("openai/outputTemplate")]
  }

  /** A block slot of one of `items`. */
  predicate IsItemsSlot(items: Json, p: Path) {
    p != [] && p[0].Index? && Child(items, p[0]).Some? && IsBlockSlot(Child(items, p[0]).value, p[1..])
  }

  /** Slots #2 and #3: `_meta` pointers, and block slots of `content[]`. */
  predicate IsToolCallSlot(result: Json, p: Path) {
    || (p != [] && p[0] == Key("_meta") && IsMetaSlot(p[1..]))
    || (p != [] && p[0] == Key("content") && Get(result, "content").Some?
        && IsItemsSlot(Get(result, "content").value, p[1..]))
  }

  /** A block slot of a message's `content`, be it one block or an array of them. */
  predicate IsMessageSlot(message: Json, p: Path) {
    && p != [] && p[0] == Key("content") && Get(message, "content").Some?
    && var content := Get(message, "content").value;
      IsItemsSlot(content, p[1..]) || IsBlockSlot(content, p[1..])
  }

  /** Slot #9. */
  predicate IsPromptSlot(result: Json, p: Path) {
    && |p| >= 2 && p[0] == Key("messages") && p[1].Index? && Get(result, "messages").Some?
    && Child(Get(result, "messages").value, p[1]).Some?
    && IsMessageSlot(Child(Get(result, "messages").value, p[1]).value, p[2..])
  }

  /** `out` is `v` with `f` applied to the string at each slot, and nothing else changed. */
  ghost predicate ChangesOnly(f: string -> string, v: Json, out: Json, isSlot: Path -> bool) {
    forall p :: ProbeAt(out, p) ==
      if isSlot(p) && StringAt(v, p).Some? then Scalar(JString(f(StringAt(v, p).value))) else ProbeAt(v, p)
  }

  lemma ProbeStep(v: Json, step: Step, p: Path)
    ensures ProbeAt(v, [step] + p) == match Child(v, step) case None => Missing case Some(c) => ProbeAt(c, p)
  {
    assert ([step] + p)[1..] == p;
  }

  lemma ProbeKey(v: Json, key: string)
    ensures ProbeAt(v, [Key(key)]) == match Get(v, key) case None => Missing case Some(c) => Shape(c)
  {
    assert [Key(key)] == [Key(key)] + [];
    ProbeStep(v, Key(key), []);
  }

  lemma MemberChanges(f: string -> string, fields: map<string, Json>, key: string)
    ensures ChangesOnly(f, JObject(fields), JObject(MapMember(f, fields, key)), p => p == [Key(key)])
  {
    var v, out := JObject(fields), JObject(MapMember(f, fields, key));
    ProbeKey(v, key);
    ProbeKey(out, key);
    forall p: Path ensures ProbeAt(out, p) ==
      if p == [Key(key)] && StringAt(v, p).Some? then Scalar(JString(f(StringAt(v, p).value))) else ProbeAt(v, p)
    {
      if p != [] && p != [Key(key)] && p[0] == Key(key) && StringAt(v, [Key(key)]).Some? {
        assert p[1..] != [];
      }
    }
  }

  /** Changing one child changes exactly what is reached through it. */
  lemma ChildChanges(f: string -> string, fields: map<string, Json>, key: string, child: Json, slots: Path -> bool)
    requires key in fields && ChangesOnly(f, fields[key], child, slots)
    ensures ChangesOnly(f, JObject(fields), JObject(fields[key := child]),
                        p => p != [] && p[0] == Key(key) && slots(p[1..]))
  {
  }

  lemma ItemsChange(f: string -> string, g: Json -> Json, items: seq<Json>, slots: (Json, Path) -> bool)
    requires forall b: Json :: ChangesOnly(f, b, g(b), p => slots(b, p))
    ensures ChangesOnly(f, JArray(items), JArray(MapItems(g, items)),
                        p => p != [] && Child(JArray(items), p[0]).Some?
                          && slots(Child(JArray(items), p[0]).value, p[1..]))
  {
    var v, out := JArray(items), JArray(MapItems(g, items));
    forall p: Path | p != [] && Child(v, p[0]).Some?
      ensures var b := Child(v, p[0]).value;
        ProbeAt(out, p) == if slots(b, p[1..]) && StringAt(b, p[1..]).Some?
                           then Scalar(JString(f(StringAt(b, p[1..]).value))) else ProbeAt(b, p[1..])
    {
      var b := Child(v, p[0]).value;
      assert Child(out, p[0]) == Some(g(b));
      assert ChangesOnly(f, b, g(b), q => slots(b, q));
    }
  }

  lemma Nothing(f: string -> string, v: Json, slots: Path -> bool)
    requires forall p :: slots(p) ==> StringAt(v, p).None?
    ensures ChangesOnly(f, v, v, slots)
  {
  }

  /** Two changes to disjoint slots, one after the other. */
  lemma InTurn(f: string -> string, v: Json, mid: Json, out: Json, first: Path -> bool, second: Path -> bool)
    requires ChangesOnly(f, v, mid, first) && ChangesOnly(f, mid, out, second)
    requires forall p :: !(first(p) && second(p))
    ensures ChangesOnly(f, v, out, p => first(p) || second(p))
  {
    forall p: Path ensures ProbeAt(out, p) ==
      if (first(p) || second(p)) && StringAt(v, p).Some? then Scalar(JString(f(StringAt(v, p).value)))
        else ProbeAt(v, p)
    {
      assert ProbeAt(mid, p) == if first(p) && StringAt(v, p).Some? then Scalar(JString(f(StringAt(v, p).value)))
        else ProbeAt(v, p);
    }
  }

  lemma Restated(f: string -> string, v: Json, out: Json, slots: Path -> bool, slots': Path -> bool)
    requires ChangesOnly(f, v, out, slots)
    requires forall p :: StringAt(v, p).Some? ==> (slots(p) <==> slots'(p))
    ensures ChangesOnly(f, v, out, slots')
  {
  }

  lemma BlockChanges(f: string -> string, block: Json)
    ensures ChangesOnly(f, block, MapBlock(f, block), p => IsBlockSlot(block, p))
  {
    ProbeKey(block, "type");
    assert AsStr(Get(block, "type")) == StringAt(block, [Key("type")]);
    var out := MapBlock(f, block);
    if Kind(block) == "resource" {
      if Get(block, "resource").Some? && block.fields["resource"].JObject? {
        var inner := block.fields["resource"].fields;
        MemberChanges(f, inner, "uri");
        ChildChanges(f, block.fields, "resource", JObject(MapMember(f, inner, "uri")), p => p == [Key("uri")]);
        Restated(f, block, out,
                 p => p != [] && p[0] == Key("resource") && p[1..] == [Key("uri")], p => IsBlockSlot(block, p));
      } else {
        NoStringBelow(block, "resource", "uri");
        Nothing(f, block, p => IsBlockSlot(block, p));
      }
    } else if Kind(block) == "resource_link" {
      MemberChanges(f, block.fields, "uri");
      Restated(f, block, out, p => p == [Key("uri")], p => IsBlockSlot(block, p));
    } else {
      Nothing(f, block, p => IsBlockSlot(block, p));
    }
  }

  lemma NoStringBelow(v: Json, outer: string, inner: string)
    requires Get(v, outer).None? || !Get(v, outer).value.JObject?
    ensures StringAt(v, [Key(outer), Key(inner)]).None?
  {
    ProbeStep(v, Key(outer), [Key(inner)]);
    assert [Key(outer)] + [Key(inner)] == [Key(outer), Key(inner)];
    if Get(v, outer).Some? {
      ProbeKey(Get(v, outer).value, inner);
    }
  }

  lemma MetaChanges(f: string -> string, meta: map<string, Json>)
    ensures ChangesOnly(f, JObject(meta), JObject(MapMeta(f, meta)), p => IsMetaSlot(p))
  {
    var v := JObject(meta);
    var uiSlot := (p: Path) => p == [Key("ui"), Key("resourceUri")];
    var withUi := meta;
    if "ui" in meta && meta["ui"].JObject? {
      var inner := meta["ui"].fields;
      withUi := meta["ui" := JObject(MapMember(f, inner, "resourceUri"))];
      MemberChanges(f, inner, "resourceUri");
      ChildChanges(f, meta, "ui", JObject(MapMember(f, inner, "resourceUri")), p => p == [Key("resourceUri")]);
      Restated(f, v, JObject(withUi), p => p != [] && p[0] == Key("ui") && p[1..] == [Key("resourceUri")], uiSlot);
    } else {
      NoStringBelow(v, "ui", "resourceUri");
      Nothing(f, v, uiSlot);
    }
    MemberChanges(f, withUi, "openai/outputTemplate");
    InTurn(f, v, JObject(withUi), JObject(MapMeta(f, meta)), uiSlot, p => p == [Key("openai/outputTemplate")]);
    Restated(f, v, JObject(MapMeta(f, meta)),
             p => uiSlot(p) || p == [Key("openai/outputTemplate")], p => IsMetaSlot(p));
  }

  lemma BlocksChange(f: string -> string, items: seq<Json>)
    ensures ChangesOnly(f, JArray(items), JArray(MapItems(b => MapBlock(f, b), items)),
            p => IsItemsSlot(JArray(items), p))
  {
    var g := b => MapBlock(f, b);
    forall b: Json ensures ChangesOnly(f, b, g(b), p => IsBlockSlot(b, p)) {
      BlockChanges(f, b);
    }
    var slots := (b: Json, p: Path) => IsBlockSlot(b, p);
    forall b: Json ensures ChangesOnly(f, b, g(b), p => slots(b, p)) {
      Restated(f, b, g(b), p => IsBlockSlot(b, p), p => slots(b, p));
    }
    ItemsChange(f, g, items, slots);
    var v := JArray(items);
    Restated(f, v, JArray(MapItems(g, items)),
             p => p != [] && Child(v, p[0]).Some? && slots(Child(v, p[0]).value, p[1..]),
             p => IsItemsSlot(v, p));
  }

  /** `rewrite_tool_call_result` changes the enumerated slots of any JSON value, and nothing else. */
  lemma ToolCallChangesOnlySlots(f: string -> string, result: Json)
    ensures ChangesOnly(f, result, MapToolCall(f, result), p => IsToolCallSlot(result, p))
  {
    var metaSlot := (p: Path) => p != [] && p[0] == Key("_meta") && IsMetaSlot(p[1..]);
    var contentSlot := (p: Path) =>
      p != [] && p[0] == Key("content") && Get(result, "content").Some?
        && IsItemsSlot(Get(result, "content").value, p[1..]);
    var withMeta := result;
    if Get(result, "_meta").Some? && result.fields["_meta"].JObject? {
      var meta := result.fields["_meta"].fields;
      withMeta := JObject(result.fields["_meta" := JObject(MapMeta(f, meta))]);
      MetaChanges(f, meta);
      ChildChanges(f, result.fields, "_meta", JObject(MapMeta(f, meta)), p => IsMetaSlot(p));
      Restated(f, result, withMeta, p => p != [] && p[0] == Key("_meta") && (q => IsMetaSlot(q))(p[1..]), metaSlot);
    } else {
      forall p: Path | metaSlot(p) ensures StringAt(result, p).None? {
        assert p[1..][0].Key?;
        if Get(result, "_meta").Some? {
          assert ProbeAt(result, p) == ProbeAt(Get(result, "_meta").value, p[1..]) == Missing;
        }
      }
      Nothing(f, result, metaSlot);
    }
    var out := MapToolCall(f, result);
    assert Get(withMeta, "content") == Get(result, "content");
    if Get(withMeta, "content").Some? && withMeta.fields["content"].JArray? {
      var items := withMeta.fields["content"].items;
      BlocksChange(f, items);
      ChildChanges(f, withMeta.fields, "content", JArray(MapItems(b => MapBlock(f, b), items)),
        p => IsItemsSlot(JArray(items), p));
      Restated(f, withMeta, out,
               p => p != [] && p[0] == Key("content") && (q => IsItemsSlot(JArray(items), q))(p[1..]), contentSlot);
    } else {
      Nothing(f, withMeta, contentSlot);
    }
    InTurn(f, result, withMeta, out, metaSlot, contentSlot);
    Restated(f, result, out, p => metaSlot(p) || contentSlot(p), p => IsToolCallSlot(result, p));
  }

  lemma PromptContentChanges(f: string -> string, content: Json)
    ensures ChangesOnly(f, content, MapPromptContent(f, content),
                        p => IsItemsSlot(content, p) || IsBlockSlot(content, p))
  {
    var slots := (p: Path) => IsItemsSlot(content, p) || IsBlockSlot(content, p);
    var out := MapPromptContent(f, content);
    ProbeKey(content, "type");
    match content
    case JArray(items) =>
      BlocksChange(f, items);
      Restated(f, content, out, p => IsItemsSlot(JArray(items), p), slots);
    case JObject(_) =>
      BlockChanges(f, content);
      Restated(f, content, out, p => IsBlockSlot(content, p), slots);
    case _ =>
      Nothing(f, content, slots);
  }

  lemma MessageChanges(f: string -> string, message: Json)
    ensures ChangesOnly(f, message, MapMessage(f, message), p => IsMessageSlot(message, p))
  {
    var slots := (p: Path) => IsMessageSlot(message, p);
    if Get(message, "content").Some? {
      var content := message.fields["content"];
      PromptContentChanges(f, content);
      var contentSlots := (p: Path) => IsItemsSlot(content, p) || IsBlockSlot(content, p);
      ChildChanges(f, message.fields, "content", MapPromptContent(f, content), contentSlots);
      Restated(f, message, MapMessage(f, message),
               p => p != [] && p[0] == Key("content") && contentSlots(p[1..]), slots);
    } else {
      Nothing(f, message, slots);
    }
  }

  lemma MessagesChange(f: string -> string, items: seq<Json>)
    ensures ChangesOnly(f, JArray(items), JArray(MapItems(m => MapMessage(f, m), items)),
                        p => p != [] && Child(JArray(items), p[0]).Some?
                          && IsMessageSlot(Child(JArray(items), p[0]).value, p[1..]))
  {
    var g := m => MapMessage(f, m);
    var slots := (m: Json, p: Path) => IsMessageSlot(m, p);
    forall m: Json ensures ChangesOnly(f, m, g(m), p => slots(m, p)) {
      MessageChanges(f, m);
      Restated(f, m, g(m), p => IsMessageSlot(m, p), p => slots(m, p));
    }
    ItemsChange(f, g, items, slots);
    var v := JArray(items);
    Restated(f, v, JArray(MapItems(g, items)),
             p => p != [] && Child(v, p[0]).Some? && slots(Child(v, p[0]).value, p[1..]),
             p => p != [] && Child(v, p[0]).Some? && IsMessageSlot(Child(v, p[0]).value, p[1..]));
  }

  /** `rewrite_prompt_get_result` changes slot #9 of any JSON value, and nothing else. */
  lemma PromptGetChangesOnlySlots(f: string -> string, result: Json)
    ensures ChangesOnly(f, result, MapPromptGet(f, result), p => IsPromptSlot(result, p))
  {
    var slots := (p: Path) => IsPromptSlot(result, p);
    var out := MapPromptGet(f, result);
    if Get(result, "messages").Some? && result.fields["messages"].JArray? {
      var items := result.fields["messages"].items;
      var messageSlots := (p: Path) =>
        p != [] && Child(JArray(items), p[0]).Some? && IsMessageSlot(Child(JArray(items), p[0]).value, p[1..]);
      MessagesChange(f, items);
      Restated(f, JArray(items), JArray(MapItems(m => MapMessage(f, m), items)),
               p => p != [] && Child(JArray(items), p[0]).Some?
                 && IsMessageSlot(Child(JArray(items), p[0]).value, p[1..]),
               messageSlots);
      ChildChanges(f, result.fields, "messages", JArray(MapItems(m => MapMessage(f, m), items)), messageSlots);
      forall p: Path ensures (p != [] && p[0] == Key("messages") && messageSlots(p[1..])) <==> slots(p) {
        if |p| >= 2 {
          assert p[1..][1..] == p[2..];
        }
      }
      Restated(f, result, out, p => p != [] && p[0] == Key("messages") && messageSlots(p[1..]), slots);
    } else {
      forall p: Path | slots(p) ensures StringAt(result, p).None? {
      }
      Nothing(f, result, slots);
    }
  }

  // Decoding restores the input

  /** Reads a wrapped URI back; anything else is left alone. */
  function UnwrapFor(endpoint: string): string -> string {
    uri =>
      match DecodeResourceUri(uri)
      case Ok((ep, original)) => if ep == endpoint then original else uri
      case Err(_) => uri
  }

  /** `g` undoes `f`. */
  ghost predicate Undoes(g: string -> string, f: string -> string) {
    forall s: string :: g(f(s)) == s
  }

  lemma UnwrapUndoesWrap(endpoint: string)
    requires IsWrappableEndpoint(endpoint)
    ensures Undoes(UnwrapFor(endpoint), WrapFor(endpoint))
  {
    forall s: string ensures UnwrapFor(endpoint)(WrapFor(endpoint)(s)) == s {
      DecodeInvertsWrap(Plain, endpoint, s);
    }
  }

  /** Mapping the same slots forth and back restores every value. */
  lemma Restored(f: string -> string, g: string -> string, v: Json, mid: Json, out: Json, slots: Path -> bool)
    requires Undoes(g, f)
    requires ChangesOnly(f, v, mid, slots) && ChangesOnly(g, mid, out, slots)
    ensures out == v
  {
    forall p: Path ensures ProbeAt(out, p) == ProbeAt(v, p) {
      assert ProbeAt(mid, p) == if slots(p) && StringAt(v, p).Some? then Scalar(JString(f(StringAt(v, p).value)))
        else ProbeAt(v, p);
    }
    ProbesDetermineValue(out, v);
  }

  /** Some slot holds a string. */
  ghost predicate HoldsUri(v: Json, slots: Path -> bool) {
    exists p :: slots(p) && StringAt(v, p).Some?
  }

  lemma NothingToChange(f: string -> string, v: Json, out: Json, slots: Path -> bool)
    requires ChangesOnly(f, v, out, slots) && !HoldsUri(v, slots)
    ensures out == v
  {
    ProbesDetermineValue(out, v);
  }

  /** Under a name the wrapper cannot carry, no wrapped URI decodes to its original under that name. */
  lemma UnwrapMisses(endpoint: string, original: string)
    requires !IsWrappableEndpoint(endpoint)
    ensures UnwrapFor(endpoint)(WrapFor(endpoint)(original)) != original
  {
    var uri := EncodeResourceUri(endpoint, original);
    WrapLengthens(Plain, endpoint, original);
    if DecodeResourceUri(uri).Ok? { DecodedShape(uri); }
  }

  lemma NotRestored(f: string -> string, g: string -> string, v: Json, mid: Json, out: Json, slots: Path -> bool,
      p: Path)
    requires ChangesOnly(f, v, mid, slots) && ChangesOnly(g, mid, out, slots)
    requires slots(p) && StringAt(v, p).Some? && g(f(StringAt(v, p).value)) != StringAt(v, p).value
    ensures out != v
  {
    assert ProbeAt(mid, p) == Scalar(JString(f(StringAt(v, p).value)));
    assert ProbeAt(out, p) == Scalar(JString(g(f(StringAt(v, p).value))));
  }

  lemma RestoredExactly(endpoint: string, v: Json, mid: Json, out: Json, slots: Path -> bool)
    requires ChangesOnly(WrapFor(endpoint), v, mid, slots) && ChangesOnly(UnwrapFor(endpoint), mid, out, slots)
    ensures out == v <==> IsWrappableEndpoint(endpoint) || !HoldsUri(v, slots)
  {
    var f, g := WrapFor(endpoint), UnwrapFor(endpoint);
    if IsWrappableEndpoint(endpoint) {
      UnwrapUndoesWrap(endpoint);
      Restored(f, g, v, mid, out, slots);
    } else if HoldsUri(v, slots) {
      var p :| slots(p) && StringAt(v, p).Some?;
      UnwrapMisses(endpoint, StringAt(v, p).value);
      NotRestored(f, g, v, mid, out, slots, p);
    } else {
      NothingToChange(f, v, mid, slots);
      NothingToChange(g, mid, out, slots);
    }
  }

  /** The rewrite never touches a `type`, so the slots stay where they were. */
  lemma BlockSlotsKept(f: string -> string, block: Json, p: Path)
    ensures IsBlockSlot(MapBlock(f, block), p) <==> IsBlockSlot(block, p)
  {
    BlockChanges(f, block);
    assert ProbeAt(MapBlock(f, block), [Key("type")]) == ProbeAt(block, [Key("type")]);
  }

  lemma ItemsSlotsKept(f: string -> string, items: seq<Json>, p: Path)
    ensures IsItemsSlot(JArray(MapItems(b => MapBlock(f, b), items)), p) <==> IsItemsSlot(JArray(items), p)
  {
    if p != [] && Child(JArray(items), p[0]).Some? {
      BlockSlotsKept(f, Child(JArray(items), p[0]).value, p[1..]);
    }
  }

  lemma ToolCallSlotsKept(f: string -> string, result: Json, p: Path)
    ensures IsToolCallSlot(MapToolCall(f, result), p) <==> IsToolCallSlot(result, p)
  {
    if p != [] && Get(result, "content").Some? && result.fields["content"].JArray? {
      ItemsSlotsKept(f, result.fields["content"].items, p[1..]);
    }
  }

  /**
   * Decoding the slots of a rewritten `tools/call` result restores the input, exactly when the
   * wrapper can carry the endpoint's name or there is nothing to wrap.
   */
  lemma ToolCallRestored(endpoint: string, result: Json)
    ensures MapToolCall(UnwrapFor(endpoint), MapToolCall(WrapFor(endpoint), result)) == result
            <==> IsWrappableEndpoint(endpoint) || !HoldsUri(result, p => IsToolCallSlot(result, p))
  {
    var f, g := WrapFor(endpoint), UnwrapFor(endpoint);
    var mid := MapToolCall(f, result);
    ToolCallChangesOnlySlots(f, result);
    ToolCallChangesOnlySlots(g, mid);
    forall p: Path ensures IsToolCallSlot(mid, p) <==> IsToolCallSlot(result, p) {
      ToolCallSlotsKept(f, result, p);
    }
    var slots := (p: Path) => IsToolCallSlot(result, p);
    Restated(f, result, mid, p => IsToolCallSlot(result, p), slots);
    Restated(g, mid, MapToolCall(g, mid), p => IsToolCallSlot(mid, p), slots);
    RestoredExactly(endpoint, result, mid, MapToolCall(g, mid), slots);
    assert HoldsUri(result, slots) <==> HoldsUri(result, p => IsToolCallSlot(result, p));
  }

  lemma PromptContentSlotsKept(f: string -> string, content: Json, p: Path)
    ensures IsItemsSlot(MapPromptContent(f, content), p) || IsBlockSlot(MapPromptContent(f, content), p) <==>
            IsItemsSlot(content, p) || IsBlockSlot(content, p)
  {
    BlockSlotsKept(f, content, p);
    if content.JArray? {
      ItemsSlotsKept(f, content.items, p);
      ProbeKey(content, "type");
      ProbeKey(MapPromptContent(f, content), "type");
    }
  }

  lemma PromptSlotsKept(f: string -> string, result: Json, p: Path)
    ensures IsPromptSlot(MapPromptGet(f, result), p) <==> IsPromptSlot(result, p)
  {
    var out := MapPromptGet(f, result);
    if |p| >= 3 && p[0] == Key("messages") && Get(result, "messages").Some?
      && Child(Get(result, "messages").value, p[1]).Some? && p[1].Index? {
      var message := Child(Get(result, "messages").value, p[1]).value;
      assert Child(Get(out, "messages").value, p[1]) == Some(MapMessage(f, message));
      assert p[2..][0] == p[2];
      if Get(message, "content").Some? {
        PromptContentSlotsKept(f, Get(message, "content").value, p[2..][1..]);
      }
    }
  }

  /** The same of a rewritten `prompts/get` result. */
  lemma PromptGetRestored(endpoint: string, result: Json)
    ensures MapPromptGet(UnwrapFor(endpoint), MapPromptGet(WrapFor(endpoint), result)) == result
            <==> IsWrappableEndpoint(endpoint) || !HoldsUri(result, p => IsPromptSlot(result, p))
  {
    var f, g := WrapFor(endpoint), UnwrapFor(endpoint);
    var mid := MapPromptGet(f, result);
    PromptGetChangesOnlySlots(f, result);
    PromptGetChangesOnlySlots(g, mid);
    forall p: Path ensures IsPromptSlot(mid, p) <==> IsPromptSlot(result, p) {
      PromptSlotsKept(f, result, p);
    }
    var slots := (p: Path) => IsPromptSlot(result, p);
    Restated(f, result, mid, p => IsPromptSlot(result, p), slots);
    Restated(g, mid, MapPromptGet(g, mid), p => IsPromptSlot(mid, p), slots);
    RestoredExactly(endpoint, result, mid, MapPromptGet(g, mid), slots);
    assert HoldsUri(result, slots) <==> HoldsUri(result, p => IsPromptSlot(result, p));
  }

  /** Content given as one block is rewritten as a one-element array of it would be. */
  lemma SingleBlockIsOneElementArray(f: string -> string, block: Json)
    requires block.JObject?
    ensures MapPromptContent(f, JArray([block])) == JArray([MapPromptContent(f, block)])
  {
    assert MapItems(b => MapBlock(f, b), [block]) == [MapBlock(f, block)];
  }

  // The TOON pass (src/toon_convert.rs)

  predicate IsText(block: Json) {
    AsStr(Get(block, "type")) == Some("text")
  }

  /** `convert` stands for "parse as a JSON object or array, then encode as TOON". */
  function ToonBlock(convert: string -> Option<string>, block: Json): Json {
    if IsText(block) && AsStr(Get(block, "text")).Some? && convert(AsStr(Get(block, "text")).value).Some?
    then JObject(block.fields["text" := JString(convert(AsStr(Get(block, "text")).value).value)])
    else block
  }

  function ToonifyCallResult(convert: string -> Option<string>, result: Json): Json {
    if IsTrue(Get(result, "isError")) then result else MapContent(b => ToonBlock(convert, b), result)
  }

  /** A pass over blocks that changes text blocks into text blocks and leaves the others alone. */
  ghost predicate IsTextPass(g: Json -> Json) {
    forall b: Json :: if IsText(b) then IsText(g(b)) else g(b) == b
  }

  lemma MapItemsCompose(g: Json -> Json, h: Json -> Json, items: seq<Json>)
    requires forall b: Json :: g(h(b)) == h(g(b))
    ensures MapItems(g, MapItems(h, items)) == MapItems(h, MapItems(g, items))
  {
  }

  lemma {:induction false} BlockRewriteCommutes(f: string -> string, g: Json -> Json, block: Json)
    requires IsTextPass(g)
    ensures MapBlock(f, g(block)) == g(MapBlock(f, block))
  {
    var out := MapBlock(f, block);
    if IsText(block) {
      assert IsText(g(block));
      assert out == block;
    } else {
      BlockChanges(f, block);
      ProbeKey(block, "type");
      ProbeKey(out, "type");
      assert ProbeAt(out, [Key("type")]) == ProbeAt(block, [Key("type")]);
      assert !IsText(out);
    }
  }

  /** The rewrite commutes with every block-wise pass that only changes text blocks. */
  lemma RewriteCommutesWithTextPass(f: string -> string, g: Json -> Json, result: Json)
    requires IsTextPass(g)
    ensures MapToolCall(f, MapContent(g, result)) == MapContent(g, MapToolCall(f, result))
  {
    var h := b => MapBlock(f, b);
    if Get(result, "content").Some? && result.fields["content"].JArray? {
      forall b: Json ensures g(h(b)) == h(g(b)) {
        BlockRewriteCommutes(f, g, b);
      }
      MapItemsCompose(g, h, result.fields["content"].items);
      var left, right := MapToolCall(f, MapContent(g, result)), MapContent(g, MapToolCall(f, result));
      assert left.fields == right.fields;
    }
  }

  /** The two passes of the pipeline give the same result in either order. */
  lemma RewriteCommutesWithToon(f: string -> string, convert: string -> Option<string>, result: Json)
    ensures MapToolCall(f, ToonifyCallResult(convert, result)) == ToonifyCallResult(convert, MapToolCall(f, result))
  {
    assert Get(MapToolCall(f, result), "isError") == Get(result, "isError");
    var g := b => ToonBlock(convert, b);
    assert IsTextPass(g);
    RewriteCommutesWithTextPass(f, g, result);
  }
}

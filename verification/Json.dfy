/** serde_json values, and paths into them. */
module Json {
  import opened Wrappers

  datatype Json =
    | JNull
    | JBool(b: bool)
    | JNumber(lexeme: string)
    | JString(s: string)
    | JArray(items: seq<Json>)
    | JObject(fields: map<string, Json>)

  /** `Value::get` with a string key: anything but an object has no members. */
  function Get(v: Json, key: string): Option<Json> {
    if v.JObject? && key in v.fields then Some(v.fields[key]) else None
  }

  function AsStr(v: Option<Json>): Option<string> {
    if v.Some? && v.value.JString? then Some(v.value.s) else None
  }

  predicate IsTrue(v: Option<Json>) {
    v == Some(JBool(true))
  }

  // Paths

  datatype Step = Key(key: string) | Index(index: nat)

  type Path = seq<Step>

  /** What a path leads to: nothing, a scalar, or a container of a given extent. */
  datatype Probe = Missing | Scalar(v: Json) | Items(count: nat) | Members(keys: set<string>)

  function Shape(v: Json): Probe {
    match v
    case JArray(items) => Items(|items|)
    case JObject(fields) => Members(fields.Keys)
    case _ => Scalar(v)
  }

  function Child(v: Json, step: Step): Option<Json> {
    match step
    case Key(k) => Get(v, k)
    case Index(i) => if v.JArray? && i < |v.items| then Some(v.items[i]) else None
  }

  function ProbeAt(v: Json, p: Path): Probe
    decreases |p|
  {
    if p == [] then Shape(v)
    else
      match Child(v, p[0])
      case None => Missing
      case Some(c) => ProbeAt(c, p[1..])
  }

  /** The string a path leads to, if it leads to one. */
  function StringAt(v: Json, p: Path): Option<string> {
    if ProbeAt(v, p).Scalar? && ProbeAt(v, p).v.JString? then Some(ProbeAt(v, p).v.s) else None
  }

  /** Values that look the same along every path are equal. */
  lemma {:induction false} ProbesDetermineValue(v: Json, w: Json)
    requires forall p :: ProbeAt(v, p) == ProbeAt(w, p)
    ensures v == w
    decreases v
  {
    assert ProbeAt(v, []) == ProbeAt(w, []);
    match v
    case JArray(items) =>
      forall i | 0 <= i < |items| ensures items[i] == w.items[i] {
        forall p: Path ensures ProbeAt(items[i], p) == ProbeAt(w.items[i], p) {
          assert ([Index(i)] + p)[1..] == p;
          assert ProbeAt(v, [Index(i)] + p) == ProbeAt(w, [Index(i)] + p);
        }
        ProbesDetermineValue(items[i], w.items[i]);
      }
    case JObject(fields) =>
      forall k | k in fields ensures fields[k] == w.fields[k] {
        forall p: Path ensures ProbeAt(fields[k], p) == ProbeAt(w.fields[k], p) {
          assert ([Key(k)] + p)[1..] == p;
          assert ProbeAt(v, [Key(k)] + p) == ProbeAt(w, [Key(k)] + p);
        }
        ProbesDetermineValue(fields[k], w.fields[k]);
      }
      assert fields == w.fields;
    case _ =>
  }
}

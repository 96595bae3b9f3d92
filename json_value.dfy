/**
 * Parsed JSON as the portals' `readJsonObj` sees it: a JSON object is a
 * `java.util.Map` from keys to values, and a JSON `null` is a Java `null`.
 * The walk below is the specification that each portal's `readJsonObj`
 * loop is proved against.
 */
module JsonValue {

  datatype Json =
    | JNull
    | JBool(b: bool)
    | JNumber(n: int)
    | JString(s: string)
    | JArray(items: seq<Json>)
    | JObject(fields: map<string, Json>)

  type JsonMap = map<string, Json>

  /** Where a walk along the non-final segments of a path ends. */
  datatype Reached =
    | Found(m: JsonMap)  // every segment named a nested map; this is the last one
    | Missing            // a segment was not a key of the map reached so far
    | NullHit            // a segment named a JSON null
    | NotAMap            // a segment named a value that is neither null nor a map

  /** Follows `prefix` through nested maps, starting at `m`. */
  function Walk(m: JsonMap, prefix: seq<string>): (reached: Reached)
    decreases |prefix|
  {
    if prefix == [] then Found(m)
    else if prefix[0] !in m then Missing
    else match m[prefix[0]]
      case JObject(f) => Walk(f, prefix[1..])
      case JNull => NullHit
      case _ => NotAMap
  }

  /** The value under `last` in the map a walk reached; `null` otherwise. */
  function Resolve(w: Reached, last: string): (v: Json)
  {
    match w
    case Found(m) => if last in m then m[last] else JNull
    case _ => JNull
  }

  /** All segments of `path` but the last. */
  function Prefix(path: seq<string>): (p: seq<string>)
    requires |path| > 0
  {
    path[..|path| - 1]
  }

  function Last(path: seq<string>): (segment: string)
    requires |path| > 0
  {
    path[|path| - 1]
  }

  /** The value a dotted path denotes in `m`, or `null` when the path leads nowhere. */
  function Lookup(m: JsonMap, path: seq<string>): (v: Json)
    requires |path| > 0
  {
    Resolve(Walk(m, Prefix(path)), Last(path))
  }

  /** A walk along `p + q` is a walk along `p` followed by a walk along `q`. */
  lemma {:induction false} WalkAppend(m: JsonMap, p: seq<string>, q: seq<string>)
    ensures Walk(m, p + q) == match Walk(m, p) case Found(n) => Walk(n, q) case other => other
    decreases |p|
  {
    if p == [] {
      assert p + q == q;
    } else {
      assert (p + q)[0] == p[0];
      assert (p + q)[1..] == p[1..] + q;
      if p[0] in m && m[p[0]].JObject? {
        WalkAppend(m[p[0]].fields, p[1..], q);
      }
    }
  }

  /** Once a walk meets a missing key or a null, no longer path denotes anything. */
  lemma DeadEndIsFinal(m: JsonMap, p: seq<string>, q: seq<string>)
    requires Walk(m, p) == Missing || Walk(m, p) == NullHit
    requires |q| > 0
    ensures Lookup(m, p + q) == JNull
  {
    assert Prefix(p + q) == p + Prefix(q);
    WalkAppend(m, p, Prefix(q));
  }

  /** The nested object holding `v` under the dotted path `path`. */
  function Nest(path: seq<string>, v: Json): (m: JsonMap)
    requires |path| > 0
    ensures path[0] in m
    decreases |path|
  {
    if |path| == 1 then map[path[0] := v]
    else map[path[0] := JObject(Nest(path[1..], v))]
  }

  /**
   * Reading a path back out of the object built for it gives the stored
   * value, and the walk meets only maps on the way.
   */
  lemma {:induction false} LookupNest(path: seq<string>, v: Json)
    requires |path| > 0
    ensures Walk(Nest(path, v), Prefix(path)).Found?
    ensures Lookup(Nest(path, v), path) == v
    decreases |path|
  {
    if |path| > 1 {
      var tail := path[1..];
      LookupNest(tail, v);
      assert Prefix(path) == [path[0]] + Prefix(tail);
      assert Prefix(path)[1..] == Prefix(tail);
    }
  }
}

/**
 * The values the service hands to `json.dumps`, the HTTP outcome of a request
 * and the `{version, data}` envelope.
 */
module Response {
  import opened Wrappers

  /**
   * A JSON value as the Python side holds it before serialisation.
   * `JEncoded(doc)` is a JSON *string* whose text is the serialisation of
   * `doc`: SQLite's JSON functions return text, and where the service never
   * parses that text back it reaches the client as a string.
   */
  datatype Json =
    | JNull
    | JInt(i: int)
    | JStr(s: string)
    | JArr(items: seq<Json>)
    | JObj(members: seq<(string, Json)>)
    | JEncoded(doc: Json)

  /** What a request handler produces: a body for status 200, or an HTTPException. */
  datatype Outcome = Ok(body: Json) | Fail(status: nat, detail: string)

  /** The response envelope `{'version': version, 'data': data}`. */
  function Envelope(version: Json, data: seq<Json>): Json
  {
    JObj([("version", version), ("data", JArr(data))])
  }

  /** The keys of an object, in order. */
  function Keys(members: seq<(string, Json)>): (ks: seq<string>)
    ensures |ks| == |members|
    ensures forall k :: 0 <= k < |ks| ==> ks[k] == members[k].0
  {
    if members == [] then [] else [members[0].0] + Keys(members[1..])
  }

  /** Python's `obj[key]` on a decoded object: the first member with that key. */
  function Get(members: seq<(string, Json)>, key: string): (r: Option<Json>)
    ensures r.None? <==> key !in Keys(members)
  {
    if members == [] then None
    else if members[0].0 == key then Some(members[0].1)
    else Get(members[1..], key)
  }

  /** A client reading an envelope sees exactly the two keys, and gets back what was put in. */
  lemma EnvelopeFields(version: Json, data: seq<Json>)
    ensures Envelope(version, data).JObj?
    ensures Keys(Envelope(version, data).members) == ["version", "data"]
    ensures Get(Envelope(version, data).members, "version") == Some(version)
    ensures Get(Envelope(version, data).members, "data") == Some(JArr(data))
  {
    var m := Envelope(version, data).members;
    assert m[1..][1..] == [];
  }
}

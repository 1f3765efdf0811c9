/** The shapes of the static JSON files the scripts fetch, and the `a || b || default`
    idiom they use to read a field under either of two spellings. */
module Json {

  /** A flat JSON object whose values are strings; a key that is absent reads as undefined. */
  type Object = map<string, string>

  /** What `response.json()` yields: an array of objects, or anything else. */
  datatype Payload = NotArray | Array(items: seq<Object>)

  /** The outcome of a fetch: a network failure, a non-ok status or unparsable JSON
      are all `Failed`. */
  datatype Fetch = Failed | Loaded(payload: Payload)

  /** `o[key]` is truthy: present and not the empty string. */
  predicate Truthy(o: Object, key: string) {
    key in o && o[key] != ""
  }

  /** `o[key] || ""`. */
  function Field(o: Object, key: string): string {
    if key in o then o[key] else ""
  }

  /** `o[first] || o[second] || fallback`. */
  function Pick(o: Object, first: string, second: string, fallback: string): (r: string)
    ensures r == fallback || (r != "" && (r == Field(o, first) || r == Field(o, second)))
  {
    if Truthy(o, first) then o[first]
    else if Truthy(o, second) then o[second]
    else fallback
  }

  /** An empty payload: not an array, or an array with no element. */
  predicate IsEmpty(p: Payload) {
    p.NotArray? || p.items == []
  }
}

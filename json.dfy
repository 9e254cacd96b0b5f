/** The values `json.loads` produces. The parser itself is not modelled: the
    pipeline receives it as a partial function from text to values. */
module Json {
  import opened Wrappers

  /** An object keeps its members in insertion order, as a Python dict does. */
  datatype Value =
    | Null
    | Bool(b: bool)
    | Int(i: int)
    | Float(f: real)
    | Str(s: string)
    | Array(items: seq<Value>)
    | Object(members: seq<(string, Value)>)

  /** The keys of an object's members. */
  function Keys(members: seq<(string, Value)>): (ks: set<string>)
    ensures forall k :: k in ks <==> exists j :: 0 <= j < |members| && members[j].0 == k
  {
    set j | 0 <= j < |members| :: members[j].0
  }

  /** `obj[key]` on a dict built from the members: the last binding of a
      repeated key wins (no later member carries the key), and a missing key
      gives None. */
  function Get(members: seq<(string, Value)>, key: string): (r: Option<Value>)
    ensures r.Some? <==> key in Keys(members)
    ensures r.Some? ==> exists j :: 0 <= j < |members| && members[j] == (key, r.value) &&
                                    forall k :: j < k < |members| ==> members[k].0 != key
  {
    if members == [] then None
    else
      var n := |members| - 1;
      var last := members[n];
      if last.0 == key then
        assert members[n] == (key, last.1);
        Some(last.1)
      else
        var init := members[..n];
        var r := Get(init, key);
        assert Keys(members) == Keys(init) + {last.0};
        assert r.Some? ==> exists j :: 0 <= j < |members| && members[j] == (key, r.value) &&
                                       forall k :: j < k < |members| ==> members[k].0 != key by {
          if r.Some? {
            var j :| 0 <= j < |init| && init[j] == (key, r.value) &&
                     forall k :: j < k < |init| ==> init[k].0 != key;
            assert members[j] == init[j];
            assert forall k :: j < k < |members| ==> members[k].0 != key by {
              forall k | j < k < |members| ensures members[k].0 != key {
                if k < n { assert members[k] == init[k]; }
              }
            }
          }
        }
        r
  }
}

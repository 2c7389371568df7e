/** JSON values as `serde_json` holds them. Object key order is not modelled: equality ignores it. */
module Json {

  datatype Value =
    | Null
    | Bool(flag: bool)
    | Number(number: real)
    | String(text: string)
    | Array(items: seq<Value>)
    | Object(fields: map<string, Value>)

  type Fields = map<string, Value>

  /** The greatest member of `s`, or 0 when there is none. */
  ghost function Greatest(s: set<nat>): (g: nat)
    ensures forall x :: x in s ==> x <= g
    ensures s != {} ==> g in s
    ensures s == {} ==> g == 0
  {
    if s == {} then 0
    else
      var x :| x in s;
      var rest := s - {x};
      assert s == rest + {x};
      var g := Greatest(rest);
      if rest == {} || g < x then x else g
  }
}

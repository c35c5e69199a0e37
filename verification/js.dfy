/**
 * The fragment of JavaScript value semantics that the mobile bridge relies on:
 * truthiness (`!!v`, `if (v)`), optional member access (`v?.name`) and the
 * outcome of calling into code the bridge does not control.
 */
module Js {

  /** Calling foreign code either returns (its promise resolves) or throws (its promise rejects). */
  datatype Outcome = Returns | Throws

  /**
   * The values the bridge can meet when it probes the global scope. Numbers are
   * modelled as integers (NaN and fractions are not needed by the probe). Objects
   * and functions carry the members visible on them, own or inherited through
   * the prototype chain; a function value also records how a call to it ends.
   */
  datatype Value =
    | Undefined
    | Null
    | Boolean(b: bool)
    | Number(n: int)
    | Str(s: string)
    | Object(members: map<string, Value>)
    | Function(onCall: Outcome, fields: map<string, Value>)

  /** JavaScript truthiness: `undefined`, `null`, `false`, `0` and `""` are falsy, everything else truthy. */
  predicate Truthy(v: Value) {
    match v
    case Undefined => false
    case Null => false
    case Boolean(b) => b
    case Number(n) => n != 0
    case Str(s) => s != ""
    case Object(_) => true
    case Function(_, _) => true
  }

  /** The members visible on a value; primitives carry none of interest to the probe. */
  function MembersOf(v: Value): map<string, Value> {
    match v
    case Object(members) => members
    case Function(_, fields) => fields
    case _ => map[]
  }

  /**
   * Optional chaining `v?.name`: `undefined` when `v` is nullish or has no
   * member of that name (own or inherited), the member's value otherwise.
   */
  function OptionalMember(v: Value, name: string): (r: Value)
    ensures v.Undefined? || v.Null? ==> r == Undefined
    ensures r != Undefined ==> (v.Object? || v.Function?) && name in MembersOf(v) && r == MembersOf(v)[name]
    ensures name in MembersOf(v) ==> r == MembersOf(v)[name]
  {
    var members := MembersOf(v);
    if name in members then members[name] else Undefined
  }
}

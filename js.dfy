/** JavaScript values as the frontend code sees them, and JavaScript truthiness. */
module Js {

  /** The JavaScript values the reducer and the info box pass around.
      Numbers are modelled as integers; objects and functions by an opaque reference. */
  datatype Val =
    | Undefined
    | Null
    | Bool(b: bool)
    | Num(n: int)
    | Str(s: string)
    | Ref(ref: nat)

  /** `if (v)` in JavaScript: everything is truthy except undefined, null,
      false, 0 and the empty string. */
  predicate Truthy(v: Val) {
    match v
    case Undefined => false
    case Null => false
    case Bool(b) => b
    case Num(n) => n != 0
    case Str(s) => s != ""
    case Ref(_) => true
  }

  /** A JavaScript object read as its own enumerable properties. */
  type Obj = map<string, Val>

  /** `{...base, ...patch}`: the patch's keys override, every other key of base survives. */
  ghost predicate IsShallowMerge(base: Obj, patch: Obj, r: Obj) {
    && r.Keys == base.Keys + patch.Keys
    && (forall k :: k in patch ==> r[k] == patch[k])
    && (forall k :: k in base && k !in patch ==> r[k] == base[k])
  }

  function Spread(base: Obj, patch: Obj): (r: Obj)
    ensures IsShallowMerge(base, patch, r)
  {
    base + patch
  }
}

/** SQL's three-valued conditions, where a comparison with NULL is unknown. */
module SqlLogic {
  import opened Wrappers

  datatype Tri = Yes | No | Unknown

  function Known(b: bool): Tri {
    if b then Yes else No
  }

  function And(a: Tri, b: Tri): Tri {
    if a == No || b == No then No else if a == Yes && b == Yes then Yes else Unknown
  }

  function Or(a: Tri, b: Tri): Tri {
    if a == Yes || b == Yes then Yes else if a == No && b == No then No else Unknown
  }

  // A CHECK constraint rejects only what is known to be false.
  predicate CheckPasses(t: Tri) {
    t != No
  }

  // IF takes its branch only on what is known to be true.
  predicate IfTaken(t: Tri) {
    t == Yes
  }

  function Equals<T(==)>(a: Option<T>, b: Option<T>): Tri {
    if a.None? || b.None? then Unknown else Known(a.value == b.value)
  }

  function Differs<T(==)>(a: Option<T>, b: Option<T>): Tri {
    if a.None? || b.None? then Unknown else Known(a.value != b.value)
  }

  function Positive(a: Option<real>): Tri {
    if a.None? then Unknown else Known(a.value > 0.0)
  }
}

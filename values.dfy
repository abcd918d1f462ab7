/**
 * The two value universes of the variable resolver: the untyped default
 * that the HCL decoder produces for `default = ...` (an `interface{}` in the
 * source, inspected by reflection), and the tagged variable of the
 * interpolation library (`hilast.Variable`, tag plus value) that the
 * resolver builds from it.
 */
module Values {

  /**
   * An untyped default, by its reflected kind. A Go map is an association
   * list of entries here (its keys are distinct, see `DistinctKeys`);
   * `OtherVal` is any kind that is neither a string, a slice nor a map (a
   * number, a boolean), kept as an opaque rendering.
   */
  datatype Raw =
    | StringVal(s: string)
    | SliceVal(elems: seq<Raw>)
    | MapVal(entries: seq<Entry>)
    | OtherVal(repr: string)

  /** One key and its value in a decoded map. */
  datatype Entry = Entry(key: string, value: Raw)

  /**
   * A typed variable: `TypeString` carries the untyped value it was made
   * from unchanged, `TypeList` an ordered list, `TypeMap` a map.
   */
  datatype Variable =
    | StringVar(value: Raw)
    | ListVar(elems: seq<Variable>)
    | MapVar(fields: map<string, Variable>)

  /** No key occurs twice among the entries, as in a Go map. */
  predicate DistinctKeys(entries: seq<Entry>)
  {
    forall i, j :: 0 <= i < j < |entries| ==> entries[i].key != entries[j].key
  }

  /** Some entry has key `k`. */
  predicate HasKey(entries: seq<Entry>, k: string)
  {
    exists i :: 0 <= i < |entries| && entries[i].key == k
  }

  /**
   * The defaults that the resolver can coerce without a run-time panic.
   * A slice must be non-empty (its element 0 is inspected); a bare map
   * cannot be indexed, at the top or nested; once element 0 of a slice is a
   * map, every element must be a coercible map (each one's keys are
   * enumerated); otherwise every element must be coercible in turn.
   */
  predicate WellShaped(v: Raw)
    decreases v
  {
    match v
    case StringVal(_) => true
    case OtherVal(_) => true
    case MapVal(_) => false
    case SliceVal(es) =>
      && |es| > 0
      && if es[0].MapVal? then
           forall j :: 0 <= j < |es| ==>
             && es[j].MapVal?
             && DistinctKeys(es[j].entries)
             && forall i :: 0 <= i < |es[j].entries| ==> WellShaped(es[j].entries[i].value)
         else
           forall j :: 0 <= j < |es| ==> WellShaped(es[j])
  }

  /**
   * A map element of a slice as `WellShaped` demands it: distinct keys,
   * every value coercible.
   */
  predicate CoercibleMap(e: Raw)
  {
    && e.MapVal?
    && DistinctKeys(e.entries)
    && forall i :: 0 <= i < |e.entries| ==> WellShaped(e.entries[i].value)
  }

}

/**
 * The variable resolver of evaluator/variable.go: `parseVariable` coerces an
 * untyped default into a typed variable by its run-time shape, and
 * `detectVariables` builds the environment `"var." + name -> variable` from
 * the `variable` blocks of every document.
 */
module Evaluator {
  import opened Wrappers
  import opened Values

  // ---------------------------------------------------------------------
  // parseVariable
  // ---------------------------------------------------------------------

  /**
   * Coerces a default by its reflected kind. The declared type `varType` is
   * overwritten before it is consulted, so it plays no part in the result
   * (see `ParseIgnoresDeclaredType`). A string or any unrecognised kind
   * becomes a string variable holding the value unchanged; a slice whose
   * element 0 is a map becomes a map (all elements merged); any other slice
   * becomes a list.
   */
  function ParseVariable(val: Raw, varType: string): (r: Variable)
    requires WellShaped(val)
    ensures r.StringVar? <==> val.StringVal? || val.OtherVal?
    ensures r.StringVar? ==> r.value == val
    ensures r.MapVar? <==> val.SliceVal? && val.elems[0].MapVal?
    ensures r.ListVar? ==> val.SliceVal? && |r.elems| == |val.elems|
    decreases val
  {
    match val
    case StringVal(_) => StringVar(val)
    case OtherVal(_) => StringVar(val)
    case SliceVal(es) =>
      if es[0].MapVal? then MapVar(MergeElements(es))
      else ListVar(CoerceList(es))
  }

  /** The list branch: every element coerced with an empty hint, appended in order. */
  function CoerceList(es: seq<Raw>): (r: seq<Variable>)
    requires forall j :: 0 <= j < |es| ==> WellShaped(es[j])
    ensures |r| == |es|
    ensures forall j :: 0 <= j < |es| ==> r[j] == ParseVariable(es[j], "")
    decreases es
  {
    if es == [] then []
    else CoerceList(es[..|es| - 1]) + [ParseVariable(es[|es| - 1], "")]
  }

  /**
   * The map branch: the elements are stored into one map, element after
   * element.
   */
  function MergeElements(es: seq<Raw>): map<string, Variable>
    requires forall j :: 0 <= j < |es| ==> CoercibleMap(es[j])
    decreases es
  {
    if es == [] then map[]
    else
      var last := es[|es| - 1];
      assert CoercibleMap(last);
      InsertEntries(MergeElements(es[..|es| - 1]), last, |last.entries|)
  }

  /**
   * Stores the first `n` entries of the map element `e` into `m`, each value
   * coerced with an empty hint (`variables[key] = parseVariable(value, "")`).
   */
  function InsertEntries(m: map<string, Variable>, e: Raw, n: nat): map<string, Variable>
    requires CoercibleMap(e) && n <= |e.entries|
    decreases e, n
  {
    if n == 0 then m
    else
      var entry := e.entries[n - 1];
      InsertEntries(m, e, n - 1)[entry.key := ParseVariable(entry.value, "")]
  }

  /** Every key of every element of a slice of maps. */
  function RawKeys(es: seq<Raw>): set<string>
  {
    set j, i | 0 <= j < |es| && es[j].MapVal? && 0 <= i < |es[j].entries| :: es[j].entries[i].key
  }

  /** The keys of the first `n` entries of a map element. */
  function PrefixKeys(e: Raw, n: nat): set<string>
    requires e.MapVal? && n <= |e.entries|
  {
    set i | 0 <= i < n :: e.entries[i].key
  }

  /**
   * Inserting entries adds exactly their keys; an entry's key then holds its
   * coerced value; any other key keeps its old value.
   */
  lemma {:induction false} InsertEntriesSpec(m: map<string, Variable>, e: Raw, n: nat)
    requires CoercibleMap(e) && n <= |e.entries|
    ensures InsertEntries(m, e, n).Keys == m.Keys + PrefixKeys(e, n)
    ensures forall i :: 0 <= i < n ==>
      InsertEntries(m, e, n)[e.entries[i].key] == ParseVariable(e.entries[i].value, "")
    ensures forall k :: k in m && k !in PrefixKeys(e, n) ==> InsertEntries(m, e, n)[k] == m[k]
    decreases n
  {
    if n > 0 {
      InsertEntriesSpec(m, e, n - 1);
      assert PrefixKeys(e, n) == PrefixKeys(e, n - 1) + {e.entries[n - 1].key};
      forall i | 0 <= i < n - 1 ensures e.entries[i].key != e.entries[n - 1].key {
      }
    }
  }

  /** The key set of the merged map is the union of all elements' keys. */
  lemma {:induction false} MergeKeys(es: seq<Raw>)
    requires forall j :: 0 <= j < |es| ==> CoercibleMap(es[j])
    ensures MergeElements(es).Keys == RawKeys(es)
    decreases es
  {
    if es != [] {
      var front := es[..|es| - 1];
      var last := es[|es| - 1];
      MergeKeys(front);
      InsertEntriesSpec(MergeElements(front), last, |last.entries|);
      forall k | k in RawKeys(es) ensures k in RawKeys(front) + PrefixKeys(last, |last.entries|) {
        var j, i :| 0 <= j < |es| && es[j].MapVal? && 0 <= i < |es[j].entries| && es[j].entries[i].key == k;
        if j < |es| - 1 {
          assert front[j].entries[i].key == k;
        }
      }
      forall k | k in RawKeys(front) ensures k in RawKeys(es) {
        var j, i :| 0 <= j < |front| && front[j].MapVal? && 0 <= i < |front[j].entries| && front[j].entries[i].key == k;
        assert es[j].entries[i].key == k;
      }
      forall k | k in PrefixKeys(last, |last.entries|) ensures k in RawKeys(es) {
        var i :| 0 <= i < |last.entries| && last.entries[i].key == k;
        assert es[|es| - 1].entries[i].key == k;
      }
    }
  }

  /**
   * Last write wins: a key holds the coerced value it has in the last
   * element that contains it.
   */
  lemma {:induction false} MergeLastWins(es: seq<Raw>, j: nat, i: nat)
    requires forall j' :: 0 <= j' < |es| ==> CoercibleMap(es[j'])
    requires j < |es| && CoercibleMap(es[j]) && i < |es[j].entries|
    requires forall j' :: j < j' < |es| ==> CoercibleMap(es[j']) && !HasKey(es[j'].entries, es[j].entries[i].key)
    ensures es[j].entries[i].key in MergeElements(es)
    ensures MergeElements(es)[es[j].entries[i].key] == ParseVariable(es[j].entries[i].value, "")
    decreases es
  {
    var front := es[..|es| - 1];
    var last := es[|es| - 1];
    InsertEntriesSpec(MergeElements(front), last, |last.entries|);
    if j < |es| - 1 {
      assert front[j] == es[j];
      MergeLastWins(front, j, i);
      var k := es[j].entries[i].key;
      assert !HasKey(last.entries, k);
      assert k !in PrefixKeys(last, |last.entries|);
    }
  }

  // ---------------------------------------------------------------------
  // What parseVariable promises.
  // ---------------------------------------------------------------------

  /** The declared type never influences the result. */
  lemma ParseIgnoresDeclaredType(val: Raw, hint1: string, hint2: string)
    requires WellShaped(val)
    ensures ParseVariable(val, hint1) == ParseVariable(val, hint2)
  {
  }

  /** A list keeps the length and order of the slice, element by element. */
  lemma ParseListKeepsOrder(val: Raw, varType: string)
    requires WellShaped(val) && val.SliceVal? && !val.elems[0].MapVal?
    ensures ParseVariable(val, varType).ListVar?
    ensures |ParseVariable(val, varType).elems| == |val.elems|
    ensures forall p :: 0 <= p < |val.elems| ==>
      ParseVariable(val, varType).elems[p] == ParseVariable(val.elems[p], "")
  {
  }

  /** The key set of a map-branch result is the union of all elements' keys. */
  lemma ParseMapKeys(val: Raw, varType: string)
    requires WellShaped(val) && val.SliceVal? && val.elems[0].MapVal?
    ensures ParseVariable(val, varType).MapVar?
    ensures ParseVariable(val, varType).fields.Keys == RawKeys(val.elems)
  {
    MergeKeys(val.elems);
  }

  /**
   * In a map-branch result, a key holds the coerced value it has in the
   * last element that contains it.
   */
  lemma ParseMapLastWins(val: Raw, varType: string, j: nat, i: nat)
    requires WellShaped(val) && val.SliceVal? && val.elems[0].MapVal?
    requires j < |val.elems| && i < |val.elems[j].entries|
    requires forall j' :: j < j' < |val.elems| ==>
      !HasKey(val.elems[j'].entries, val.elems[j].entries[i].key)
    ensures ParseVariable(val, varType).MapVar?
    ensures val.elems[j].entries[i].key in ParseVariable(val, varType).fields
    ensures ParseVariable(val, varType).fields[val.elems[j].entries[i].key]
         == ParseVariable(val.elems[j].entries[i].value, "")
  {
    MergeLastWins(val.elems, j, i);
  }

  /**
   * A single map default (which the decoder hands over as a one-element
   * slice holding the map) becomes a map with exactly its keys, each
   * holding its coerced value.
   */
  lemma SingleMapDefault(entries: seq<Entry>, varType: string)
    requires WellShaped(SliceVal([MapVal(entries)]))
    ensures ParseVariable(SliceVal([MapVal(entries)]), varType).MapVar?
    ensures ParseVariable(SliceVal([MapVal(entries)]), varType).fields.Keys
         == set i | 0 <= i < |entries| :: entries[i].key
    ensures forall i :: 0 <= i < |entries| ==>
      ParseVariable(SliceVal([MapVal(entries)]), varType).fields[entries[i].key]
        == ParseVariable(entries[i].value, "")
  {
    var val := SliceVal([MapVal(entries)]);
    ParseMapKeys(val, varType);
    assert RawKeys(val.elems) == set i | 0 <= i < |entries| :: entries[i].key by {
      forall k | k in set i | 0 <= i < |entries| :: entries[i].key
        ensures k in RawKeys(val.elems)
      {
        var i :| 0 <= i < |entries| && entries[i].key == k;
        assert val.elems[0].entries[i].key == k;
      }
    }
    forall i | 0 <= i < |entries|
      ensures ParseVariable(val, varType).fields[entries[i].key] == ParseVariable(entries[i].value, "")
    {
      ParseMapLastWins(val, varType, 0, i);
    }
  }

  // ---------------------------------------------------------------------
  // detectVariables
  // ---------------------------------------------------------------------

  /**
   * A decoded `variable` block. `default` is `None` when the block has no
   * default.
   */
  datatype HclVariable = HclVariable(
    name: string,
    default: Option<Raw>,
    description: string,
    declaredType: string)

  /** The outcome of decoding the `variable` blocks of one document. */
  datatype Decoding =
    | Decoded(variables: seq<HclVariable>)
    | DecodeError(message: string)

  /** Qualified variable name -> typed variable. */
  type Env = map<string, Variable>

  /** The name under which a variable is stored in the environment. */
  function QualifiedName(name: string): string
  {
    "var." + name
  }

  predicate IsQualified(k: string)
  {
    |k| >= 4 && k[..4] == "var."
  }

  /** Every default present is one the resolver can coerce. */
  predicate Coercible(vs: seq<HclVariable>)
  {
    forall i :: 0 <= i < |vs| && vs[i].default.Some? ==> WellShaped(vs[i].default.value)
  }

  predicate AllCoercible(docs: seq<Decoding>)
  {
    forall d :: 0 <= d < |docs| && docs[d].Decoded? ==> Coercible(docs[d].variables)
  }

  /** The environment after one declaration: skipped without a default. */
  function Store(env: Env, v: HclVariable): Env
    requires v.default.Some? ==> WellShaped(v.default.value)
  {
    if v.default.None? then env
    else env[QualifiedName(v.name) := ParseVariable(v.default.value, v.declaredType)]
  }

  /** The environment after the declarations of one document, in order. */
  function StoreAll(env: Env, vs: seq<HclVariable>): Env
    requires Coercible(vs)
    decreases vs
  {
    if vs == [] then env
    else Store(StoreAll(env, vs[..|vs| - 1]), vs[|vs| - 1])
  }

  /**
   * The specification of `detectVariables`: one environment shared by all
   * documents in order; the first document that fails to decode aborts with
   * its error.
   */
  function Resolve(docs: seq<Decoding>): Result<Env, string>
    requires AllCoercible(docs)
    decreases docs
  {
    if docs == [] then Ok(map[])
    else
      match Resolve(docs[..|docs| - 1])
      case Err(e) => Err(e)
      case Ok(env) =>
        match docs[|docs| - 1]
        case DecodeError(e) => Err(e)
        case Decoded(vs) => Ok(StoreAll(env, vs))
  }

  /** The environment built by a loop over documents and their declarations. */
  method DetectVariables(docs: seq<Decoding>) returns (r: Result<Env, string>)
    requires AllCoercible(docs)
    ensures r == Resolve(docs)
    ensures r.Err? <==> exists d :: 0 <= d < |docs| && docs[d].DecodeError?
    ensures r.Ok? ==> forall k :: k in r.value ==> IsQualified(k)
  {
    var varMap: Env := map[];
    for d := 0 to |docs|
      invariant Resolve(docs[..d]) == Ok(varMap)
      invariant forall e :: 0 <= e < d ==> docs[e].Decoded?
      invariant forall k :: k in varMap ==> IsQualified(k)
    {
      match docs[d]
      case DecodeError(message) =>
        ResolveFirstError(docs, d);
        return Err(message);
      case Decoded(variables) =>
        ghost var before := varMap;
        assert docs[..d + 1][..d] == docs[..d];
        for i := 0 to |variables|
          invariant varMap == StoreAll(before, variables[..i])
          invariant forall k :: k in varMap ==> IsQualified(k)
        {
          assert variables[..i + 1][..i] == variables[..i];
          var v := variables[i];
          if v.default.Some? {
            assert ("var." + v.name)[..4] == "var.";
            varMap := varMap["var." + v.name := ParseVariable(v.default.value, v.declaredType)];
          }
        }
        assert variables[..|variables|] == variables;
    }
    assert docs[..|docs|] == docs;
    r := Ok(varMap);
  }

  // ---------------------------------------------------------------------
  // What detectVariables promises.
  // ---------------------------------------------------------------------

  /** The declarations of all documents, in processing order. */
  function Declarations(docs: seq<Decoding>): (r: seq<HclVariable>)
    requires forall d :: 0 <= d < |docs| ==> docs[d].Decoded?
    ensures AllCoercible(docs) ==> Coercible(r)
    decreases docs
  {
    if docs == [] then []
    else
      var front := Declarations(docs[..|docs| - 1]);
      var last := docs[|docs| - 1].variables;
      assert forall i :: 0 <= i < |last| ==> (front + last)[|front| + i] == last[i];
      front + last
  }

  /** The qualified names of the declarations that have a default. */
  function DeclaredKeys(vs: seq<HclVariable>): set<string>
  {
    set i | 0 <= i < |vs| && vs[i].default.Some? :: QualifiedName(vs[i].name)
  }

  lemma QualifiedNameInjective(a: string, b: string)
    ensures QualifiedName(a) == QualifiedName(b) ==> a == b
  {
    assert QualifiedName(a)[4..] == a;
    assert QualifiedName(b)[4..] == b;
  }

  /** Processing two runs of declarations is processing their concatenation. */
  lemma {:induction false} StoreAllAppend(env: Env, a: seq<HclVariable>, b: seq<HclVariable>)
    requires Coercible(a) && Coercible(b)
    ensures Coercible(a + b)
    ensures StoreAll(env, a + b) == StoreAll(StoreAll(env, a), b)
    decreases b
  {
    assert forall i :: 0 <= i < |a| ==> (a + b)[i] == a[i];
    assert forall i :: 0 <= i < |b| ==> (a + b)[|a| + i] == b[i];
    if b == [] {
      assert a + b == a;
    } else {
      var b' := b[..|b| - 1];
      StoreAllAppend(env, a, b');
      assert (a + b)[..|a + b| - 1] == a + b';
    }
  }

  /**
   * Exactly the declarations with a default add a key, and the key is
   * `"var."` followed by the variable's name.
   */
  lemma {:induction false} StoreAllKeys(env: Env, vs: seq<HclVariable>)
    requires Coercible(vs)
    ensures StoreAll(env, vs).Keys == env.Keys + DeclaredKeys(vs)
    decreases vs
  {
    if vs != [] {
      var front := vs[..|vs| - 1];
      StoreAllKeys(env, front);
      assert DeclaredKeys(vs) == DeclaredKeys(front)
        + (if vs[|vs| - 1].default.Some? then {QualifiedName(vs[|vs| - 1].name)} else {})
      by {
        forall k | k in DeclaredKeys(vs)
          ensures k in DeclaredKeys(front)
            + (if vs[|vs| - 1].default.Some? then {QualifiedName(vs[|vs| - 1].name)} else {})
        {
          var i :| 0 <= i < |vs| && vs[i].default.Some? && k == QualifiedName(vs[i].name);
          if i < |vs| - 1 {
            assert front[i] == vs[i];
          }
        }
        forall k | k in DeclaredKeys(front) ensures k in DeclaredKeys(vs) {
          var i :| 0 <= i < |front| && front[i].default.Some? && k == QualifiedName(front[i].name);
          assert vs[i] == front[i];
        }
      }
    }
  }

  /**
   * Last write wins: the stored value is that of the last declaration of
   * the name that has a default.
   */
  lemma {:induction false} StoreAllLastWins(env: Env, vs: seq<HclVariable>, i: nat)
    requires Coercible(vs)
    requires i < |vs| && vs[i].default.Some?
    requires forall j :: i < j < |vs| && vs[j].name == vs[i].name ==> vs[j].default.None?
    ensures QualifiedName(vs[i].name) in StoreAll(env, vs)
    ensures StoreAll(env, vs)[QualifiedName(vs[i].name)]
         == ParseVariable(vs[i].default.value, vs[i].declaredType)
    decreases vs
  {
    var front := vs[..|vs| - 1];
    if i < |vs| - 1 {
      assert front[i] == vs[i];
      StoreAllLastWins(env, front, i);
      QualifiedNameInjective(vs[|vs| - 1].name, vs[i].name);
    }
  }

  /** A name that no declaration with a default carries keeps its old binding. */
  lemma {:induction false} StoreAllUntouched(env: Env, vs: seq<HclVariable>, k: string)
    requires Coercible(vs)
    requires k !in DeclaredKeys(vs)
    ensures k in StoreAll(env, vs) <==> k in env
    ensures k in env ==> StoreAll(env, vs)[k] == env[k]
    decreases vs
  {
    if vs != [] {
      var front := vs[..|vs| - 1];
      assert DeclaredKeys(front) <= DeclaredKeys(vs) by {
        forall x | x in DeclaredKeys(front) ensures x in DeclaredKeys(vs) {
          var i :| 0 <= i < |front| && front[i].default.Some? && x == QualifiedName(front[i].name);
          assert vs[i] == front[i];
        }
      }
      StoreAllUntouched(env, front, k);
      assert vs[|vs| - 1].default.Some? ==> k != QualifiedName(vs[|vs| - 1].name) by {
        if vs[|vs| - 1].default.Some? {
          assert QualifiedName(vs[|vs| - 1].name) in DeclaredKeys(vs);
        }
      }
    }
  }

  /**
   * When every document decodes, the environment is that of all their
   * declarations processed in order into one map.
   */
  lemma {:induction false} ResolveAllDecoded(docs: seq<Decoding>)
    requires AllCoercible(docs)
    requires forall d :: 0 <= d < |docs| ==> docs[d].Decoded?
    ensures Resolve(docs) == Ok(StoreAll(map[], Declarations(docs)))
    decreases docs
  {
    if docs != [] {
      var front := docs[..|docs| - 1];
      ResolveAllDecoded(front);
      StoreAllAppend(map[], Declarations(front), docs[|docs| - 1].variables);
    }
  }

  /**
   * A document that fails to decode, after documents that all decoded,
   * aborts the whole resolution with its error and no environment.
   */
  lemma {:induction false} ResolveFirstError(docs: seq<Decoding>, d: nat)
    requires AllCoercible(docs)
    requires d < |docs| && docs[d].DecodeError?
    requires forall e :: 0 <= e < d ==> docs[e].Decoded?
    ensures Resolve(docs) == Err(docs[d].message)
    decreases docs
  {
    var front := docs[..|docs| - 1];
    if d == |docs| - 1 {
      ResolveAllDecoded(front);
    } else {
      ResolveFirstError(front, d);
    }
  }

  /** Resolution fails exactly when some document fails to decode. */
  lemma {:induction false} ResolveFailsIffDecodeError(docs: seq<Decoding>)
    requires AllCoercible(docs)
    ensures Resolve(docs).Err? <==> exists d :: 0 <= d < |docs| && docs[d].DecodeError?
    decreases docs
  {
    if docs != [] {
      var front := docs[..|docs| - 1];
      ResolveFailsIffDecodeError(front);
      if exists d :: 0 <= d < |front| && front[d].DecodeError? {
        var d :| 0 <= d < |front| && front[d].DecodeError?;
        assert docs[d].DecodeError?;
      }
      if exists d :: 0 <= d < |docs| && docs[d].DecodeError? {
        var d :| 0 <= d < |docs| && docs[d].DecodeError?;
        if d < |docs| - 1 {
          assert front[d].DecodeError?;
        }
      }
    }
  }

  /**
   * The environment holds exactly the qualified names of the declarations
   * that have a default, across all documents.
   */
  lemma ResolveKeys(docs: seq<Decoding>)
    requires AllCoercible(docs)
    requires Resolve(docs).Ok?
    ensures forall d :: 0 <= d < |docs| ==> docs[d].Decoded?
    ensures Resolve(docs).value.Keys == DeclaredKeys(Declarations(docs))
  {
    ResolveFailsIffDecodeError(docs);
    ResolveAllDecoded(docs);
    StoreAllKeys(map[], Declarations(docs));
  }

  /**
   * A variable declared only without a default is skipped: resolution still
   * succeeds, and the name is never in the environment.
   */
  lemma NoDefaultNeverStored(docs: seq<Decoding>, name: string)
    requires AllCoercible(docs)
    requires forall d :: 0 <= d < |docs| ==> docs[d].Decoded?
    requires forall d, i ::
      (0 <= d < |docs| && docs[d].Decoded? && 0 <= i < |docs[d].variables|
       && docs[d].variables[i].name == name) ==> docs[d].variables[i].default.None?
    ensures Resolve(docs).Ok?
    ensures QualifiedName(name) !in Resolve(docs).value
  {
    ResolveFailsIffDecodeError(docs);
    ResolveKeys(docs);
    var vs := Declarations(docs);
    if QualifiedName(name) in DeclaredKeys(vs) {
      var i :| 0 <= i < |vs| && vs[i].default.Some? && QualifiedName(name) == QualifiedName(vs[i].name);
      QualifiedNameInjective(name, vs[i].name);
      DeclarationOrigin(docs, i);
      assert false;
    }
  }

  /** Every declaration in the flattened sequence comes from some document. */
  lemma {:induction false} DeclarationOrigin(docs: seq<Decoding>, i: nat)
    requires forall d :: 0 <= d < |docs| ==> docs[d].Decoded?
    requires i < |Declarations(docs)|
    ensures exists d, p ::
      0 <= d < |docs| && 0 <= p < |docs[d].variables| && docs[d].variables[p] == Declarations(docs)[i]
    decreases docs
  {
    var front := docs[..|docs| - 1];
    var last := docs[|docs| - 1].variables;
    if i < |Declarations(front)| {
      DeclarationOrigin(front, i);
      var d, p :| 0 <= d < |front| && 0 <= p < |front[d].variables|
        && front[d].variables[p] == Declarations(front)[i];
      assert docs[d] == front[d];
    } else {
      var p := i - |Declarations(front)|;
      assert Declarations(docs)[i] == last[p];
    }
  }

  /**
   * Last write wins across documents: a qualified name holds the value of
   * the last declaration, in processing order, of that name with a default.
   */
  lemma ResolveLastWins(docs: seq<Decoding>, i: nat)
    requires AllCoercible(docs)
    requires forall d :: 0 <= d < |docs| ==> docs[d].Decoded?
    requires i < |Declarations(docs)| && Declarations(docs)[i].default.Some?
    requires forall j ::
      (i < j < |Declarations(docs)| && Declarations(docs)[j].name == Declarations(docs)[i].name)
      ==> Declarations(docs)[j].default.None?
    ensures Resolve(docs).Ok?
    ensures QualifiedName(Declarations(docs)[i].name) in Resolve(docs).value
    ensures Resolve(docs).value[QualifiedName(Declarations(docs)[i].name)]
         == ParseVariable(Declarations(docs)[i].default.value, Declarations(docs)[i].declaredType)
  {
    ResolveAllDecoded(docs);
    StoreAllLastWins(map[], Declarations(docs), i);
  }

}

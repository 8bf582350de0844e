/** The field-defaulting rule both resolvers share, and the abstract match
    arm both emitters produce.

    For one variant pairing (a paired enum and one of its variants), each
    field of the annotated variant keeps only the annotations that name that
    pairing: none leaves the field mapped to itself, one maps it to the
    annotated field, and two or more are an error. In `EnumFrom` the table
    goes from target field to source field, in `EnumInto` from source field
    to target field; the rule is the same. */
module FieldMapping {
  import opened Results
  import opened Annotations

  /** The annotation names the pairing (e, v). */
  predicate Targets<K>(a: FieldAnnotation<K>, e: string, v: string) {
    a.enumName == e && a.variant == v
  }

  /** The annotations naming the pairing (e, v), in order. */
  function Matching<K>(annotations: seq<FieldAnnotation<K>>, e: string, v: string): (r: seq<FieldAnnotation<K>>)
    ensures |r| <= |annotations|
    ensures forall i :: 0 <= i < |r| ==> Targets(r[i], e, v)
  {
    if annotations == [] then []
    else if Targets(annotations[0], e, v) then [annotations[0]] + Matching(annotations[1..], e, v)
    else Matching(annotations[1..], e, v)
  }

  lemma {:induction false} MatchingEmpty<K>(annotations: seq<FieldAnnotation<K>>, e: string, v: string)
    ensures |Matching(annotations, e, v)| == 0 <==> forall i :: 0 <= i < |annotations| ==> !Targets(annotations[i], e, v)
  {
    if annotations != [] {
      MatchingEmpty(annotations[1..], e, v);
      assert forall i :: 1 <= i < |annotations| ==> annotations[i] == annotations[1..][i - 1];
    }
  }

  lemma {:induction false} MatchingAtMostOne<K>(annotations: seq<FieldAnnotation<K>>, e: string, v: string)
    ensures |Matching(annotations, e, v)| <= 1 <==>
              forall i, j :: 0 <= i < j < |annotations| ==> !(Targets(annotations[i], e, v) && Targets(annotations[j], e, v))
  {
    if annotations != [] {
      var rest := annotations[1..];
      MatchingAtMostOne(rest, e, v);
      MatchingEmpty(rest, e, v);
      assert forall i :: 1 <= i < |annotations| ==> annotations[i] == rest[i - 1];
      if Targets(annotations[0], e, v) {
        if |Matching(rest, e, v)| > 0 {
          var j :| 0 <= j < |rest| && Targets(rest[j], e, v);
          assert Targets(annotations[j + 1], e, v);
        }
      } else {
        if |Matching(rest, e, v)| > 1 {
          var i, j :| 0 <= i < j < |rest| && Targets(rest[i], e, v) && Targets(rest[j], e, v);
          assert Targets(annotations[i + 1], e, v) && Targets(annotations[j + 1], e, v);
        }
      }
    }
  }

  lemma {:induction false} MatchingSingle<K>(annotations: seq<FieldAnnotation<K>>, e: string, v: string, i: nat)
    requires |Matching(annotations, e, v)| == 1
    requires i < |annotations| && Targets(annotations[i], e, v)
    ensures Matching(annotations, e, v)[0] == annotations[i]
  {
    var rest := annotations[1..];
    if i > 0 {
      assert annotations[i] == rest[i - 1];
      if Targets(annotations[0], e, v) {
        MatchingEmpty(rest, e, v);
        assert false;
      } else {
        MatchingSingle(rest, e, v, i - 1);
      }
    }
  }

  /** No field carries two annotations naming the pairing (e, v). */
  ghost predicate Unambiguous<K>(fa: map<K, seq<FieldAnnotation<K>>>, e: string, v: string) {
    forall k, i, j :: k in fa && 0 <= i < j < |fa[k]| ==> !(Targets(fa[k][i], e, v) && Targets(fa[k][j], e, v))
  }

  /** The field table of one variant pairing. */
  function GetFieldsMapping<K(==)>(fa: map<K, seq<FieldAnnotation<K>>>, e: string, v: string): (r: Result<map<K, K>>)
    ensures r.Ok? <==> Unambiguous(fa, e, v)
    ensures r.Err? ==> r.error == DuplicateFieldMapping
    ensures r.Ok? ==> r.value.Keys == fa.Keys
    ensures r.Ok? ==> forall k :: k in fa && (forall i :: 0 <= i < |fa[k]| ==> !Targets(fa[k][i], e, v)) ==> r.value[k] == k
    ensures r.Ok? ==> forall k, i :: k in fa && 0 <= i < |fa[k]| && Targets(fa[k][i], e, v) ==> r.value[k] == fa[k][i].field
  {
    FieldsMappingFacts(fa, e, v);
    if forall k | k in fa :: |Matching(fa[k], e, v)| <= 1 then
      Ok(map k | k in fa :: var ms := Matching(fa[k], e, v); if |ms| == 0 then k else ms[0].field)
    else
      Err(DuplicateFieldMapping)
  }

  lemma FieldsMappingFacts<K>(fa: map<K, seq<FieldAnnotation<K>>>, e: string, v: string)
    ensures (forall k :: k in fa ==> |Matching(fa[k], e, v)| <= 1) <==> Unambiguous(fa, e, v)
    ensures forall k :: k in fa ==> (|Matching(fa[k], e, v)| == 0 <==> forall i :: 0 <= i < |fa[k]| ==> !Targets(fa[k][i], e, v))
    ensures forall k, i :: k in fa && 0 <= i < |fa[k]| && Targets(fa[k][i], e, v) && |Matching(fa[k], e, v)| == 1
                           ==> Matching(fa[k], e, v)[0] == fa[k][i]
  {
    forall k | k in fa
      ensures |Matching(fa[k], e, v)| <= 1 <==>
                forall i, j :: 0 <= i < j < |fa[k]| ==> !(Targets(fa[k][i], e, v) && Targets(fa[k][j], e, v))
      ensures |Matching(fa[k], e, v)| == 0 <==> forall i :: 0 <= i < |fa[k]| ==> !Targets(fa[k][i], e, v)
    {
      MatchingAtMostOne(fa[k], e, v);
      MatchingEmpty(fa[k], e, v);
    }
    forall k, i | k in fa && 0 <= i < |fa[k]| && Targets(fa[k][i], e, v) && |Matching(fa[k], e, v)| == 1 {
      MatchingSingle(fa[k], e, v, i);
    }
  }

  /** A field no annotation of which names the pairing keeps its own name:
      in particular a variant without field annotations gets the identity
      table. */
  lemma UnannotatedIsIdentity<K>(fa: map<K, seq<FieldAnnotation<K>>>, e: string, v: string)
    requires forall k, i :: k in fa && 0 <= i < |fa[k]| ==> !Targets(fa[k][i], e, v)
    ensures GetFieldsMapping(fa, e, v) == Ok(map k | k in fa :: k)
  {
    var r := GetFieldsMapping(fa, e, v);
    assert Unambiguous(fa, e, v);
    assert r.value == map k | k in fa :: k;
  }

  /** Which field a field becomes when emitted: its table entry if it has
      one, otherwise itself. */
  function Renamed<K>(table: map<K, K>, f: K): K {
    if f in table then table[f] else f
  }

  /** The field-defaulting rule stated on the annotations themselves: field
      `f` is paired with `other` for the pairing (e, v) when one of its
      annotations naming (e, v) says so, or when none does and `other` is
      `f` itself. */
  ghost predicate PairedField<K>(fa: map<K, seq<FieldAnnotation<K>>>, e: string, v: string, f: K, other: K) {
    if f in fa && exists j :: 0 <= j < |fa[f]| && Targets(fa[f][j], e, v)
    then exists j :: 0 <= j < |fa[f]| && Targets(fa[f][j], e, v) && other == fa[f][j].field
    else other == f
  }

  /** Looking a field up in the table `get_fields_mapping` returns, with the
      field itself as fallback, applies the field-defaulting rule. */
  lemma RenamedFollowsAnnotations<K>(fa: map<K, seq<FieldAnnotation<K>>>, e: string, v: string, f: K)
    requires Unambiguous(fa, e, v)
    ensures PairedField(fa, e, v, f, Renamed(GetFieldsMapping(fa, e, v).value, f))
  {
    var table := GetFieldsMapping(fa, e, v).value;
    if f in fa && exists j :: 0 <= j < |fa[f]| && Targets(fa[f][j], e, v) {
      var j :| 0 <= j < |fa[f]| && Targets(fa[f][j], e, v);
      assert Renamed(table, f) == fa[f][j].field;
    }
  }

  /** One field of a struct-shaped arm: the field written on the target side
      and the field read on the source side. */
  datatype FieldPair<K> = FieldPair(target: K, source: K)

  /** The shape of a match arm: a unit variant, a tuple variant whose field
      i becomes field i (arity fields in all), or a struct variant with its
      field pairs in declaration order. */
  datatype ArmShape<K> = UnitArm | TupleArm(arity: nat) | StructArm(pairs: seq<FieldPair<K>>)

  /** One arm `Source::sv(..) => Target::tv(..)` of a generated conversion. */
  datatype Arm<K> = Arm(sourceVariant: string, targetVariant: string, shape: ArmShape<K>)
}

/** The `EnumFrom` resolver (src/enum_from/generator.rs): checks the parsed
    annotations against each other and builds, for every declared source
    enum, the table source variant -> (target variant, field table) from
    which one `From<Source>` impl per source enum is emitted.

    The parsed variants are held in a hash map by the source, so the order
    in which they are visited is unspecified; the model visits them in
    declaration order, and no contract below depends on that order except
    which failure is reported when several annotations are faulty. */
module EnumFromGenerator {
  import opened Results
  import opened Syntax
  import opened Annotations
  import opened FieldMapping
  import opened EnumFromParser

  type FieldTable = map<FieldRef, seq<FieldAnnotation<FieldRef>>>

  /** Which target variant a source variant converts into, and for each
      target field the source field it is read from. */
  datatype VariantMapping = VariantMapping(targetVariant: string, fieldsMapping: map<FieldRef, FieldRef>)

  type SourceEnums = map<string, map<string, VariantMapping>>

  datatype Generator = Generator(
    sourceEnums: SourceEnums,
    targetEnum: string,
    targetVariants: map<string, Variant>)

  // ---------------------------------------------------------------------
  // Reference definitions: what an annotation means, independent of how
  // the resolver computes it.

  /** Annotation `a` on the target variant named `target` pairs it with
      the source variant `sv` of the source enum `e`: a bare marker uses
      the only declared source enum, and the source variant defaults to
      the target variant's own name. */
  predicate Names(declared: seq<string>, target: string, a: VariantAnnotation, e: string, sv: string) {
    match a
    case Nothing => |declared| == 1 && e == declared[0] && sv == target
    case EnumOnly(x) => e == x && sv == target
    case EnumVariant(x, y) => e == x && sv == y
  }

  /** The annotation can be resolved: it names a declared source enum
      without ambiguity, and no field of the variant carries two mappings
      for the pairing it names. */
  ghost predicate Resolvable(declared: seq<string>, v: AnnotatedVariant<FieldRef>, a: VariantAnnotation) {
    var fa := v.annotations.fieldsAnnotations;
    match a
    case Nothing => |declared| == 1 && Unambiguous(fa, declared[0], v.variant.ident)
    case EnumOnly(e) => e in declared && Unambiguous(fa, e, v.variant.ident)
    case EnumVariant(e, sv) => e in declared && Unambiguous(fa, e, sv)
  }

  /** The diagnostic an unresolvable annotation produces. */
  function Failure(declared: seq<string>, a: VariantAnnotation): Error {
    match a
    case Nothing => if |declared| == 1 then DuplicateFieldMapping else AmbiguousSource
    case EnumOnly(e) => if e in declared then DuplicateFieldMapping else UndeclaredEnum
    case EnumVariant(e, _) => if e in declared then DuplicateFieldMapping else UndeclaredEnum
  }

  /** Every annotation of every variant can be resolved. */
  ghost predicate AllResolvable(declared: seq<string>, vs: seq<AnnotatedVariant<FieldRef>>) {
    forall i, j :: 0 <= i < |vs| && 0 <= j < |vs[i].annotations.variantAnnotations| ==>
      Resolvable(declared, vs[i], vs[i].annotations.variantAnnotations[j])
  }

  /** The j-th of the annotations `annots` of variant `v` is the first that
      cannot be resolved, and `err` is its diagnostic. */
  ghost predicate FirstFaulty(declared: seq<string>, v: AnnotatedVariant<FieldRef>, annots: seq<VariantAnnotation>, j: int, err: Error) {
    0 <= j < |annots| && !Resolvable(declared, v, annots[j]) && err == Failure(declared, annots[j])
    && forall j' :: 0 <= j' < j ==> Resolvable(declared, v, annots[j'])
  }

  /** The mapping one annotation of variant `v` contributes for the source
      variant `sv` of `e`. */
  function MappingFor(v: AnnotatedVariant<FieldRef>, e: string, sv: string): VariantMapping
    requires Unambiguous(v.annotations.fieldsAnnotations, e, sv)
  {
    VariantMapping(v.variant.ident, GetFieldsMapping(v.annotations.fieldsAnnotations, e, sv).value)
  }

  // ---------------------------------------------------------------------
  // The resolver.

  /** The default source enum exists only when exactly one is declared. */
  function SingleSource(declared: seq<string>): (r: Option<string>)
    ensures r.Some? <==> |declared| == 1
    ensures r.Some? ==> r.value == declared[0]
  {
    if |declared| == 1 then Some(declared[0]) else None
  }

  /** The source enum and variant a variant-level annotation names. */
  function GetSourceEnumAndVariant(target: Variant, single: Option<string>, a: VariantAnnotation): (r: Result<(string, string)>)
    ensures r.Err? <==> a.Nothing? && single.None?
    ensures r.Err? ==> r.error == AmbiguousSource
  {
    match a
    case Nothing => if single.Some? then Ok((single.value, target.ident)) else Err(AmbiguousSource)
    case EnumOnly(e) => Ok((e, target.ident))
    case EnumVariant(e, sv) => Ok((e, sv))
  }

  /** With the default source computed from the declared list, the pairing
      found is the one the annotation names, and it is found unless a bare
      marker meets several (or no) declared sources. */
  lemma SourcePairing(declared: seq<string>, target: Variant, a: VariantAnnotation)
    ensures GetSourceEnumAndVariant(target, SingleSource(declared), a).Ok? <==> !(a.Nothing? && |declared| != 1)
    ensures var r := GetSourceEnumAndVariant(target, SingleSource(declared), a);
            r.Ok? ==> Names(declared, target.ident, a, r.value.0, r.value.1)
  {
  }

  /** Names pins down one pairing. */
  lemma NamesUnique(declared: seq<string>, target: string, a: VariantAnnotation, e: string, sv: string, e': string, sv': string)
    requires Names(declared, target, a, e, sv) && Names(declared, target, a, e', sv')
    ensures e == e' && sv == sv'
  {
  }

  /** One variant-level annotation of `v`: resolve the pairing, check the
      source enum is declared, compute the field table and record the
      mapping (replacing an earlier one for the same source variant). */
  function ResolveAnnotation(se: SourceEnums, declared: seq<string>, v: AnnotatedVariant<FieldRef>, a: VariantAnnotation): (r: Result<SourceEnums>)
    requires forall x :: x in se <==> x in declared
    ensures r.Ok? <==> Resolvable(declared, v, a)
    ensures r.Err? ==> r.error == Failure(declared, a)
    ensures r.Ok? ==> forall e, sv :: Names(declared, v.variant.ident, a, e, sv) ==>
                        e in se && r.value == se[e := se[e][sv := MappingFor(v, e, sv)]]
  {
    SourcePairing(declared, v.variant, a);
    var pair :- GetSourceEnumAndVariant(v.variant, SingleSource(declared), a);
    var (e, sv) := pair;
    if e !in se then Err(UndeclaredEnum)
    else
      var fieldsMapping :- GetFieldsMapping(v.annotations.fieldsAnnotations, e, sv);
      assert forall e', sv' :: Names(declared, v.variant.ident, a, e', sv') ==> e' == e && sv' == sv;
      Ok(se[e := se[e][sv := VariantMapping(v.variant.ident, fieldsMapping)]])
  }

  /** Some annotation among `annots` (all on the target variant named
      `target`) names the source variant `sv` of `e`. */
  ghost predicate NamedBy(declared: seq<string>, target: string, annots: seq<VariantAnnotation>, e: string, sv: string) {
    exists j :: 0 <= j < |annots| && Names(declared, target, annots[j], e, sv)
  }

  /** The variant-level annotations `annots` of variant `v`, in order; the
      first that cannot be resolved stops the resolver. */
  function ResolveVariantAnnotations(se: SourceEnums, declared: seq<string>, v: AnnotatedVariant<FieldRef>, annots: seq<VariantAnnotation>): (r: Result<SourceEnums>)
    requires forall x :: x in se <==> x in declared
    ensures r.Ok? <==> forall j :: 0 <= j < |annots| ==> Resolvable(declared, v, annots[j])
    ensures r.Err? ==> exists j :: FirstFaulty(declared, v, annots, j, r.error)
    ensures r.Ok? ==> r.value.Keys == se.Keys
    decreases |annots|
  {
    if annots == [] then Ok(se)
    else
      var first := ResolveAnnotation(se, declared, v, annots[0]);
      assert first.Err? ==> FirstFaulty(declared, v, annots, 0, first.error);
      var next :- first;
      var rest := annots[1..];
      var r := ResolveVariantAnnotations(next, declared, v, rest);
      assert forall j :: 1 <= j < |annots| ==> annots[j] == rest[j - 1];
      assert r.Err? ==> exists j :: FirstFaulty(declared, v, annots, j, r.error) by {
        if r.Err? {
          var j :| FirstFaulty(declared, v, rest, j, r.error);
          assert annots[j + 1] == rest[j];
          forall j' | 0 <= j' < j + 1 ensures Resolvable(declared, v, annots[j']) {
            if j' > 0 {
              assert annots[j'] == rest[j' - 1];
            }
          }
          assert FirstFaulty(declared, v, annots, j + 1, r.error);
        }
      }
      r
  }

  /** What resolving one variant's annotations does to the table: every
      pairing an annotation names gets this variant's mapping, and every
      other entry is left alone. */
  lemma {:induction false} VariantAnnotationsEffect(se: SourceEnums, declared: seq<string>, v: AnnotatedVariant<FieldRef>, annots: seq<VariantAnnotation>)
    requires forall x :: x in se <==> x in declared
    requires ResolveVariantAnnotations(se, declared, v, annots).Ok?
    ensures var r := ResolveVariantAnnotations(se, declared, v, annots).value;
            forall e, sv :: e in se ==> (sv in r[e] <==> sv in se[e] || NamedBy(declared, v.variant.ident, annots, e, sv))
    ensures var r := ResolveVariantAnnotations(se, declared, v, annots).value;
            forall e, sv :: NamedBy(declared, v.variant.ident, annots, e, sv) ==>
              e in se && Unambiguous(v.annotations.fieldsAnnotations, e, sv) && r[e][sv] == MappingFor(v, e, sv)
    ensures var r := ResolveVariantAnnotations(se, declared, v, annots).value;
            forall e, sv :: e in se && sv in se[e] && !NamedBy(declared, v.variant.ident, annots, e, sv) ==> r[e][sv] == se[e][sv]
    decreases |annots|
  {
    var t := v.variant.ident;
    if annots != [] {
      var next := ResolveAnnotation(se, declared, v, annots[0]).value;
      var rest := annots[1..];
      VariantAnnotationsEffect(next, declared, v, rest);
      var r := ResolveVariantAnnotations(se, declared, v, annots).value;
      assert r == ResolveVariantAnnotations(next, declared, v, rest).value;
      assert Resolvable(declared, v, annots[0]);
      var e0, sv0 := PairOf(declared, t, annots[0]);
      assert next == se[e0 := se[e0][sv0 := MappingFor(v, e0, sv0)]];
      forall e, sv ensures NamedBy(declared, t, annots, e, sv) <==> Names(declared, t, annots[0], e, sv) || NamedBy(declared, t, rest, e, sv) {
        NamedByCons(declared, t, annots, e, sv);
      }
      forall e, sv | Names(declared, t, annots[0], e, sv) ensures e == e0 && sv == sv0 {
        NamesUnique(declared, t, annots[0], e, sv, e0, sv0);
      }
    }
  }

  lemma NamedByCons(declared: seq<string>, target: string, annots: seq<VariantAnnotation>, e: string, sv: string)
    requires annots != []
    ensures NamedBy(declared, target, annots, e, sv) <==> Names(declared, target, annots[0], e, sv) || NamedBy(declared, target, annots[1..], e, sv)
  {
    var rest := annots[1..];
    if NamedBy(declared, target, rest, e, sv) {
      var j :| 0 <= j < |rest| && Names(declared, target, rest[j], e, sv);
      assert annots[j + 1] == rest[j];
    }
    if NamedBy(declared, target, annots, e, sv) && !Names(declared, target, annots[0], e, sv) {
      var j :| 0 <= j < |annots| && Names(declared, target, annots[j], e, sv);
      assert rest[j - 1] == annots[j];
    }
  }

  /** The names of `vs` are the name of its first element and those of
      the rest. */
  lemma IdentsCons(vs: seq<AnnotatedVariant<FieldRef>>)
    requires vs != []
    ensures (set i | 0 <= i < |vs| :: vs[i].variant.ident) == {vs[0].variant.ident} + set i | 0 <= i < |vs[1..]| :: vs[1..][i].variant.ident
  {
    var rest := vs[1..];
    var want := set i | 0 <= i < |vs| :: vs[i].variant.ident;
    var got := set i | 0 <= i < |rest| :: rest[i].variant.ident;
    forall k ensures k in want <==> k == vs[0].variant.ident || k in got {
      if k in got {
        var i :| 0 <= i < |rest| && rest[i].variant.ident == k;
        assert vs[i + 1].variant.ident == k;
      }
      if k in want && k != vs[0].variant.ident {
        var i :| 0 <= i < |vs| && vs[i].variant.ident == k;
        assert rest[i - 1].variant.ident == k;
      }
    }
  }

  /** Resolves every variant in turn, recording each in the target
      variants table once its annotations are resolved. */
  function ResolveVariants(se: SourceEnums, tv: map<string, Variant>, declared: seq<string>, vs: seq<AnnotatedVariant<FieldRef>>): (r: Result<(SourceEnums, map<string, Variant>)>)
    requires forall x :: x in se <==> x in declared
    ensures r.Ok? <==> AllResolvable(declared, vs)
    ensures r.Err? ==> exists i, j :: 0 <= i < |vs| && FirstFaulty(declared, vs[i], vs[i].annotations.variantAnnotations, j, r.error)
    ensures r.Ok? ==> r.value.0.Keys == se.Keys
    ensures r.Ok? ==> r.value.1.Keys == tv.Keys + set i | 0 <= i < |vs| :: vs[i].variant.ident
    decreases |vs|
  {
    if vs == [] then Ok((se, tv))
    else
      var v := vs[0];
      var next :- ResolveVariantAnnotations(se, declared, v, v.annotations.variantAnnotations);
      var rest := vs[1..];
      var r := ResolveVariants(next, tv[v.variant.ident := v.variant], declared, rest);
      assert forall i :: 1 <= i < |vs| ==> vs[i] == rest[i - 1];
      assert r.Err? ==> exists i, j :: 0 <= i < |vs| && FirstFaulty(declared, vs[i], vs[i].annotations.variantAnnotations, j, r.error) by {
        if r.Err? {
          var i, j :| 0 <= i < |rest| && FirstFaulty(declared, rest[i], rest[i].annotations.variantAnnotations, j, r.error);
          assert vs[i + 1] == rest[i];
        }
      }
      IdentsCons(vs);
      r
  }

  /** Some variant among `vs` has an annotation naming the source variant
      `sv` of `e`, and the table entry is the mapping that variant
      contributes. */
  ghost predicate ContributedBy(declared: seq<string>, vs: seq<AnnotatedVariant<FieldRef>>, e: string, sv: string, m: VariantMapping) {
    exists i :: 0 <= i < |vs| && NamedBy(declared, vs[i].variant.ident, vs[i].annotations.variantAnnotations, e, sv)
                && Unambiguous(vs[i].annotations.fieldsAnnotations, e, sv) && m == MappingFor(vs[i], e, sv)
  }

  /** Resolving all variants keeps every entry of the source enum tables,
      and every pairing some annotation names gets an entry. */
  lemma {:induction false} VariantsEffect(se: SourceEnums, tv: map<string, Variant>, declared: seq<string>, vs: seq<AnnotatedVariant<FieldRef>>)
    requires forall x :: x in se <==> x in declared
    requires ResolveVariants(se, tv, declared, vs).Ok?
    ensures var r := ResolveVariants(se, tv, declared, vs).value.0;
            forall e, sv :: e in se && sv in se[e] ==> sv in r[e]
    ensures var r := ResolveVariants(se, tv, declared, vs).value.0;
            forall i, e, sv :: 0 <= i < |vs| && NamedBy(declared, vs[i].variant.ident, vs[i].annotations.variantAnnotations, e, sv) ==>
              e in se && sv in r[e]
    decreases |vs|
  {
    if vs != [] {
      var v := vs[0];
      var annots := v.annotations.variantAnnotations;
      var next := ResolveVariantAnnotations(se, declared, v, annots).value;
      var tv' := tv[v.variant.ident := v.variant];
      var rest := vs[1..];
      VariantAnnotationsEffect(se, declared, v, annots);
      VariantsEffect(next, tv', declared, rest);
      var r := ResolveVariants(se, tv, declared, vs).value.0;
      assert ResolveVariants(se, tv, declared, vs) == ResolveVariants(next, tv', declared, rest);
      assert forall i :: 1 <= i < |vs| ==> vs[i] == rest[i - 1];
      forall i, e, sv | 0 <= i < |vs| && NamedBy(declared, vs[i].variant.ident, vs[i].annotations.variantAnnotations, e, sv)
        ensures e in se && sv in r[e]
      {
        if i > 0 {
          assert NamedBy(declared, rest[i - 1].variant.ident, rest[i - 1].annotations.variantAnnotations, e, sv);
        } else {
          assert e in se && sv in next[e];
        }
      }
      assert forall i, e, sv :: 0 <= i < |vs| && NamedBy(declared, vs[i].variant.ident, vs[i].annotations.variantAnnotations, e, sv) ==>
              e in r;
    }
  }

  /** Every entry of the source enum tables after resolving all variants
      was already there or was contributed by a variant naming it. */
  lemma {:induction false} VariantsSound(se: SourceEnums, tv: map<string, Variant>, declared: seq<string>, vs: seq<AnnotatedVariant<FieldRef>>)
    requires forall x :: x in se <==> x in declared
    requires ResolveVariants(se, tv, declared, vs).Ok?
    ensures var r := ResolveVariants(se, tv, declared, vs).value.0;
            forall e, sv :: e in se && sv in r[e] ==>
              (sv in se[e] && r[e][sv] == se[e][sv]) || ContributedBy(declared, vs, e, sv, r[e][sv])
    decreases |vs|
  {
    if vs != [] {
      var v := vs[0];
      var annots := v.annotations.variantAnnotations;
      var next := ResolveVariantAnnotations(se, declared, v, annots).value;
      var tv' := tv[v.variant.ident := v.variant];
      var rest := vs[1..];
      VariantAnnotationsEffect(se, declared, v, annots);
      VariantsSound(next, tv', declared, rest);
      var r := ResolveVariants(se, tv, declared, vs).value.0;
      assert ResolveVariants(se, tv, declared, vs) == ResolveVariants(next, tv', declared, rest);
      forall e, sv | e in se && sv in r[e]
        ensures (sv in se[e] && r[e][sv] == se[e][sv]) || ContributedBy(declared, vs, e, sv, r[e][sv])
      {
        if ContributedBy(declared, rest, e, sv, r[e][sv]) {
          var i :| 0 <= i < |rest| && NamedBy(declared, rest[i].variant.ident, rest[i].annotations.variantAnnotations, e, sv)
                   && Unambiguous(rest[i].annotations.fieldsAnnotations, e, sv) && r[e][sv] == MappingFor(rest[i], e, sv);
          assert vs[i + 1] == rest[i];
        } else if NamedBy(declared, v.variant.ident, annots, e, sv) {
          assert r[e][sv] == MappingFor(vs[0], e, sv);
        }
      }
    }
  }

  /** The target variants table maps names to the variants carrying them:
      those it held before and the resolved ones. */
  lemma {:induction false} VariantsRecorded(se: SourceEnums, tv: map<string, Variant>, declared: seq<string>, vs: seq<AnnotatedVariant<FieldRef>>)
    requires forall x :: x in se <==> x in declared
    requires forall k :: k in tv ==> tv[k].ident == k
    requires ResolveVariants(se, tv, declared, vs).Ok?
    ensures var t := ResolveVariants(se, tv, declared, vs).value.1;
            forall k :: k in t ==> t[k].ident == k && ((k in tv && t[k] == tv[k]) || exists i :: 0 <= i < |vs| && t[k] == vs[i].variant)
    decreases |vs|
  {
    if vs != [] {
      var v := vs[0];
      var next := ResolveVariantAnnotations(se, declared, v, v.annotations.variantAnnotations).value;
      var tv' := tv[v.variant.ident := v.variant];
      var rest := vs[1..];
      VariantsRecorded(next, tv', declared, rest);
      assert ResolveVariants(se, tv, declared, vs) == ResolveVariants(next, tv', declared, rest);
      var t := ResolveVariants(se, tv, declared, vs).value.1;
      forall k | k in t ensures (k in tv && t[k] == tv[k]) || exists i :: 0 <= i < |vs| && t[k] == vs[i].variant {
        if exists i :: 0 <= i < |rest| && t[k] == rest[i].variant {
          var i :| 0 <= i < |rest| && t[k] == rest[i].variant;
          assert t[k] == vs[i + 1].variant;
        } else if k == v.variant.ident {
          assert t[k] == vs[0].variant;
        }
      }
    }
  }

  /** `try_from`: an empty container list is an error; otherwise every
      declared source enum starts with an empty table, and the variants are
      resolved one after the other. */
  function TryFrom(p: ParsedEnumFrom): (r: Result<Generator>)
    ensures p.containerAnnotations == [] ==> r == Err(MissingContainerAnnotation)
    ensures r.Ok? <==> p.containerAnnotations != [] && AllResolvable(p.containerAnnotations, p.variantsAnnotations)
    ensures r.Err? && p.containerAnnotations != [] ==>
              exists i, j :: 0 <= i < |p.variantsAnnotations|
                             && FirstFaulty(p.containerAnnotations, p.variantsAnnotations[i], p.variantsAnnotations[i].annotations.variantAnnotations, j, r.error)
    ensures r.Ok? ==> r.value.targetEnum == p.targetEnum
    ensures r.Ok? ==> r.value.sourceEnums.Keys == set e | e in p.containerAnnotations
    ensures r.Ok? ==> r.value.targetVariants.Keys == set i | 0 <= i < |p.variantsAnnotations| :: p.variantsAnnotations[i].variant.ident
  {
    var declared := p.containerAnnotations;
    if declared == [] then Err(MissingContainerAnnotation)
    else
      var init: SourceEnums := map e | e in declared :: map[];
      var tables :- ResolveVariants(init, map[], declared, p.variantsAnnotations);
      Ok(Generator(tables.0, p.targetEnum, tables.1))
  }

  /** What a successful `try_from` records: every pairing an annotation
      names has an entry; every entry was contributed by a variant whose
      annotation names it, with that variant's field table; and every
      entry's target variant can be looked up. In particular a variant
      without annotations contributes nothing. */
  lemma TryFromMappings(p: ParsedEnumFrom)
    requires TryFrom(p).Ok?
    ensures forall i, j, e, sv :: 0 <= i < |p.variantsAnnotations| && 0 <= j < |p.variantsAnnotations[i].annotations.variantAnnotations|
                                  && Names(p.containerAnnotations, p.variantsAnnotations[i].variant.ident,
                                           p.variantsAnnotations[i].annotations.variantAnnotations[j], e, sv) ==>
              e in TryFrom(p).value.sourceEnums && sv in TryFrom(p).value.sourceEnums[e]
    ensures forall e, sv :: e in TryFrom(p).value.sourceEnums && sv in TryFrom(p).value.sourceEnums[e] ==>
              ContributedBy(p.containerAnnotations, p.variantsAnnotations, e, sv, TryFrom(p).value.sourceEnums[e][sv])
    ensures forall e, sv :: e in TryFrom(p).value.sourceEnums && sv in TryFrom(p).value.sourceEnums[e] ==>
              TryFrom(p).value.sourceEnums[e][sv].targetVariant in TryFrom(p).value.targetVariants
    ensures forall k :: k in TryFrom(p).value.targetVariants ==>
              TryFrom(p).value.targetVariants[k].ident == k && exists i :: 0 <= i < |p.variantsAnnotations| && TryFrom(p).value.targetVariants[k] == p.variantsAnnotations[i].variant
  {
    var declared := p.containerAnnotations;
    var vs := p.variantsAnnotations;
    var init: SourceEnums := map e | e in declared :: map[];
    var g := TryFrom(p).value;
    var r := ResolveVariants(init, map[], declared, vs).value;
    assert g.sourceEnums == r.0 && g.targetVariants == r.1;
    ResolvedMappings(init, declared, vs);
    assert forall i, j, e, sv ::
             0 <= i < |vs| && 0 <= j < |vs[i].annotations.variantAnnotations|
             && Names(declared, vs[i].variant.ident, vs[i].annotations.variantAnnotations[j], e, sv)
             ==> e in g.sourceEnums;
  }

  /** The facts TryFromMappings states, about the tables the loop builds
      from empty ones. */
  lemma ResolvedMappings(init: SourceEnums, declared: seq<string>, vs: seq<AnnotatedVariant<FieldRef>>)
    requires forall x :: x in init <==> x in declared
    requires forall e :: e in init ==> init[e] == map[]
    requires ResolveVariants(init, map[], declared, vs).Ok?
    ensures var r := ResolveVariants(init, map[], declared, vs).value;
            forall i, j, e, sv :: 0 <= i < |vs| && 0 <= j < |vs[i].annotations.variantAnnotations|
                                  && Names(declared, vs[i].variant.ident, vs[i].annotations.variantAnnotations[j], e, sv) ==>
              e in r.0 && sv in r.0[e]
    ensures var r := ResolveVariants(init, map[], declared, vs).value;
            forall e, sv :: e in r.0 && sv in r.0[e] ==> ContributedBy(declared, vs, e, sv, r.0[e][sv])
    ensures var r := ResolveVariants(init, map[], declared, vs).value;
            forall e, sv :: e in r.0 && sv in r.0[e] ==> r.0[e][sv].targetVariant in r.1
    ensures var r := ResolveVariants(init, map[], declared, vs).value;
            forall k :: k in r.1 ==> r.1[k].ident == k && exists i :: 0 <= i < |vs| && r.1[k] == vs[i].variant
  {
    VariantsEffect(init, map[], declared, vs);
    VariantsSound(init, map[], declared, vs);
    VariantsRecorded(init, map[], declared, vs);
    var r := ResolveVariants(init, map[], declared, vs).value;
    forall i, j, e, sv | 0 <= i < |vs| && 0 <= j < |vs[i].annotations.variantAnnotations|
                         && Names(declared, vs[i].variant.ident, vs[i].annotations.variantAnnotations[j], e, sv)
      ensures e in r.0 && sv in r.0[e]
    {
      assert NamedBy(declared, vs[i].variant.ident, vs[i].annotations.variantAnnotations, e, sv);
    }
    assert forall i, j, e, sv ::
             0 <= i < |vs| && 0 <= j < |vs[i].annotations.variantAnnotations|
             && Names(declared, vs[i].variant.ident, vs[i].annotations.variantAnnotations[j], e, sv)
             ==> e in r.0;
    forall e, sv | e in r.0 && sv in r.0[e] ensures r.0[e][sv].targetVariant in r.1 {
      var i :| 0 <= i < |vs| && NamedBy(declared, vs[i].variant.ident, vs[i].annotations.variantAnnotations, e, sv)
               && Unambiguous(vs[i].annotations.fieldsAnnotations, e, sv) && r.0[e][sv] == MappingFor(vs[i], e, sv);
      assert vs[i].variant.ident in r.1;
    }
  }

  // ---------------------------------------------------------------------
  // Emission, as arm records.

  /** `generate_match_arm`: the arm converting `sourceVariant` into the
      target variant `target`. A unit target takes nothing, a tuple target
      takes field i from position i, and a struct target takes every named
      field, in declaration order, from the source field its table names
      (the same name when the table has no entry). */
  function GenerateMatchArm(sourceVariant: string, m: VariantMapping, target: Variant): (arm: Arm<FieldRef>)
    requires target.fields.WellFormed()
    ensures arm.sourceVariant == sourceVariant && arm.targetVariant == target.ident
    ensures arm.shape.UnitArm? <==> target.fields.Unit?
    ensures arm.shape.TupleArm? <==> target.fields.Unnamed?
    ensures arm.shape.TupleArm? ==> arm.shape.arity == |target.fields.unnamed|
    ensures arm.shape.StructArm? ==>
              |arm.shape.pairs| == |target.fields.named|
              && forall k :: 0 <= k < |arm.shape.pairs| ==>
                   arm.shape.pairs[k].target == Name(target.fields.named[k].ident.value)
                   && arm.shape.pairs[k].source == Renamed(m.fieldsMapping, arm.shape.pairs[k].target)
  {
    match target.fields
    case Unit => Arm(sourceVariant, target.ident, UnitArm)
    case Unnamed(fs) => Arm(sourceVariant, target.ident, TupleArm(|fs|))
    case Named(fs) =>
      var pairs := seq(|fs|, k requires 0 <= k < |fs| =>
                         var f := Name(fs[k].ident.value); FieldPair(f, Renamed(m.fieldsMapping, f)));
      Arm(sourceVariant, target.ident, StructArm(pairs))
  }

  /** The lookups emission performs cannot fail: every mapping's target
      variant is recorded, and recorded variants are well formed. */
  ghost predicate Emittable(g: Generator) {
    (forall e, sv :: e in g.sourceEnums && sv in g.sourceEnums[e] ==> g.sourceEnums[e][sv].targetVariant in g.targetVariants)
    && forall k :: k in g.targetVariants ==> g.targetVariants[k].fields.WellFormed()
  }

  /** `generate_from_impl`: one arm per source variant of the table, built
      from that variant's mapping and the target variant it names. The
      arms of a `match` are unordered here, since the table is a hash map. */
  function GenerateFromImpl(variantsMapping: map<string, VariantMapping>, targetVariants: map<string, Variant>): (arms: set<Arm<FieldRef>>)
    requires forall sv :: sv in variantsMapping ==> variantsMapping[sv].targetVariant in targetVariants
    requires forall k :: k in targetVariants ==> targetVariants[k].fields.WellFormed()
    ensures forall sv :: sv in variantsMapping ==>
              GenerateMatchArm(sv, variantsMapping[sv], targetVariants[variantsMapping[sv].targetVariant]) in arms
    ensures forall a :: a in arms ==>
              a.sourceVariant in variantsMapping
              && a == GenerateMatchArm(a.sourceVariant, variantsMapping[a.sourceVariant], targetVariants[variantsMapping[a.sourceVariant].targetVariant])
    ensures forall a, b :: a in arms && b in arms && a.sourceVariant == b.sourceVariant ==> a == b
  {
    var arms := set sv | sv in variantsMapping ::
                  GenerateMatchArm(sv, variantsMapping[sv], targetVariants[variantsMapping[sv].targetVariant]);
    assert forall sv :: sv in variantsMapping ==>
             GenerateMatchArm(sv, variantsMapping[sv], targetVariants[variantsMapping[sv].targetVariant]) in arms;
    arms
  }

  /** `generate`: one `From` impl per declared source enum, each given by
      its set of arms. */
  function Generate(g: Generator): (impls: map<string, set<Arm<FieldRef>>>)
    requires Emittable(g)
    ensures impls.Keys == g.sourceEnums.Keys
    ensures forall e :: e in impls ==> forall a :: a in impls[e] ==>
              a.sourceVariant in g.sourceEnums[e]
              && a == GenerateMatchArm(a.sourceVariant, g.sourceEnums[e][a.sourceVariant],
                                       g.targetVariants[g.sourceEnums[e][a.sourceVariant].targetVariant])
    ensures forall e :: e in impls ==> forall sv :: sv in g.sourceEnums[e] ==>
              GenerateMatchArm(sv, g.sourceEnums[e][sv], g.targetVariants[g.sourceEnums[e][sv].targetVariant]) in impls[e]
  {
    map e | e in g.sourceEnums :: GenerateFromImpl(g.sourceEnums[e], g.targetVariants)
  }

  /** After a successful `try_from` on well-formed variants, emission
      cannot fail, and it produces one impl per declared source enum. */
  lemma TryFromEmittable(p: ParsedEnumFrom)
    requires TryFrom(p).Ok?
    requires forall i :: 0 <= i < |p.variantsAnnotations| ==> p.variantsAnnotations[i].variant.fields.WellFormed()
    ensures Emittable(TryFrom(p).value)
    ensures Generate(TryFrom(p).value).Keys == set e | e in p.containerAnnotations
  {
    TryFromMappings(p);
  }

  /** Every arm of the impl generated for the source enum `e` converts a
      source variant sv that an annotated variant names, into that
      variant, and is the match arm built from that variant's field table
      for (e, sv); every field of a struct target is read from the field
      the annotations pair it with. Variant names are distinct, as the
      compiler guarantees. */
  lemma ArmFollowsAnnotations(p: ParsedEnumFrom, e: string)
    requires TryFrom(p).Ok?
    requires forall i :: 0 <= i < |p.variantsAnnotations| ==> p.variantsAnnotations[i].variant.fields.WellFormed()
    requires forall i, j :: 0 <= i < j < |p.variantsAnnotations| ==> p.variantsAnnotations[i].variant.ident != p.variantsAnnotations[j].variant.ident
    requires e in TryFrom(p).value.sourceEnums
    ensures Emittable(TryFrom(p).value)
    ensures forall a :: a in Generate(TryFrom(p).value)[e] ==>
              exists i :: 0 <= i < |p.variantsAnnotations|
                && NamedBy(p.containerAnnotations, p.variantsAnnotations[i].variant.ident, p.variantsAnnotations[i].annotations.variantAnnotations, e, a.sourceVariant)
                && Unambiguous(p.variantsAnnotations[i].annotations.fieldsAnnotations, e, a.sourceVariant)
                && a == GenerateMatchArm(a.sourceVariant, MappingFor(p.variantsAnnotations[i], e, a.sourceVariant), p.variantsAnnotations[i].variant)
                && (a.shape.StructArm? ==>
                      forall k :: 0 <= k < |a.shape.pairs| ==>
                        PairedField(p.variantsAnnotations[i].annotations.fieldsAnnotations, e, a.sourceVariant, a.shape.pairs[k].target, a.shape.pairs[k].source))
  {
    TryFromEmittable(p);
    var g := TryFrom(p).value;
    forall a | a in Generate(g)[e]
      ensures exists i :: 0 <= i < |p.variantsAnnotations|
                && NamedBy(p.containerAnnotations, p.variantsAnnotations[i].variant.ident, p.variantsAnnotations[i].annotations.variantAnnotations, e, a.sourceVariant)
                && Unambiguous(p.variantsAnnotations[i].annotations.fieldsAnnotations, e, a.sourceVariant)
                && a == GenerateMatchArm(a.sourceVariant, MappingFor(p.variantsAnnotations[i], e, a.sourceVariant), p.variantsAnnotations[i].variant)
                && (a.shape.StructArm? ==>
                      forall k :: 0 <= k < |a.shape.pairs| ==>
                        PairedField(p.variantsAnnotations[i].annotations.fieldsAnnotations, e, a.sourceVariant, a.shape.pairs[k].target, a.shape.pairs[k].source))
    {
      assert Generate(g)[e] == GenerateFromImpl(g.sourceEnums[e], g.targetVariants);
      var i := ArmVariant(p, e, a.sourceVariant);
      var fa := p.variantsAnnotations[i].annotations.fieldsAnnotations;
      if a.shape.StructArm? {
        forall k | 0 <= k < |a.shape.pairs| ensures PairedField(fa, e, a.sourceVariant, a.shape.pairs[k].target, a.shape.pairs[k].source) {
          RenamedFollowsAnnotations(fa, e, a.sourceVariant, a.shape.pairs[k].target);
        }
      }
    }
  }

  /** Conversely, every pairing (e, sv) some annotation names has an arm
      converting sv in the impl generated for `e`. */
  lemma ArmsCoverAnnotations(p: ParsedEnumFrom, i: nat, e: string, sv: string)
    requires TryFrom(p).Ok?
    requires forall i :: 0 <= i < |p.variantsAnnotations| ==> p.variantsAnnotations[i].variant.fields.WellFormed()
    requires i < |p.variantsAnnotations|
    requires NamedBy(p.containerAnnotations, p.variantsAnnotations[i].variant.ident, p.variantsAnnotations[i].annotations.variantAnnotations, e, sv)
    ensures Emittable(TryFrom(p).value)
    ensures e in Generate(TryFrom(p).value)
    ensures exists a :: a in Generate(TryFrom(p).value)[e] && a.sourceVariant == sv
  {
    TryFromEmittable(p);
    TryFromMappings(p);
    var vs := p.variantsAnnotations;
    var g := TryFrom(p).value;
    var j :| 0 <= j < |vs[i].annotations.variantAnnotations| && Names(p.containerAnnotations, vs[i].variant.ident, vs[i].annotations.variantAnnotations[j], e, sv);
    assert e in g.sourceEnums && sv in g.sourceEnums[e];
    var m := g.sourceEnums[e][sv];
    assert Generate(g)[e] == GenerateFromImpl(g.sourceEnums[e], g.targetVariants);
    assert GenerateMatchArm(sv, m, g.targetVariants[m.targetVariant]) in Generate(g)[e];
  }

  /** The annotated variant whose mapping is recorded for (e, sv): it names
      (e, sv), and it is the target variant the mapping names. */
  lemma ArmVariant(p: ParsedEnumFrom, e: string, sv: string) returns (i: nat)
    requires TryFrom(p).Ok?
    requires forall i, j :: 0 <= i < j < |p.variantsAnnotations| ==> p.variantsAnnotations[i].variant.ident != p.variantsAnnotations[j].variant.ident
    requires e in TryFrom(p).value.sourceEnums && sv in TryFrom(p).value.sourceEnums[e]
    ensures i < |p.variantsAnnotations|
    ensures NamedBy(p.containerAnnotations, p.variantsAnnotations[i].variant.ident, p.variantsAnnotations[i].annotations.variantAnnotations, e, sv)
    ensures Unambiguous(p.variantsAnnotations[i].annotations.fieldsAnnotations, e, sv)
    ensures TryFrom(p).value.sourceEnums[e][sv] == MappingFor(p.variantsAnnotations[i], e, sv)
    ensures TryFrom(p).value.targetVariants[TryFrom(p).value.sourceEnums[e][sv].targetVariant] == p.variantsAnnotations[i].variant
  {
    TryFromMappings(p);
    var vs := p.variantsAnnotations;
    var g := TryFrom(p).value;
    var m := g.sourceEnums[e][sv];
    i :| 0 <= i < |vs| && NamedBy(p.containerAnnotations, vs[i].variant.ident, vs[i].annotations.variantAnnotations, e, sv)
         && Unambiguous(vs[i].annotations.fieldsAnnotations, e, sv) && m == MappingFor(vs[i], e, sv);
    var i' :| 0 <= i' < |vs| && g.targetVariants[m.targetVariant] == vs[i'].variant;
    assert vs[i'].variant.ident == vs[i].variant.ident;
    assert i' == i;
  }

  /** The pairing a resolvable annotation names. */
  lemma PairOf(declared: seq<string>, target: string, a: VariantAnnotation) returns (e: string, sv: string)
    requires a.Nothing? ==> |declared| == 1
    ensures Names(declared, target, a, e, sv)
  {
    match a
    case Nothing => e, sv := declared[0], target;
    case EnumOnly(x) => e, sv := x, target;
    case EnumVariant(x, y) => e, sv := x, y;
  }
}

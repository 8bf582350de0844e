/** The `EnumInto` resolver (src/enum_into/generator.rs): checks the parsed
    annotations against each other and builds, for every declared target
    enum, the table target variant -> list of (source variant, field
    table), from which one `From<Source>` impl per target enum is emitted.

    Unlike `EnumFrom`, a source variant needs no annotation: it is paired
    with every declared target enum, by default with the variant of the
    same name. Several source variants may be paired with one target
    variant, so the table holds lists.

    The source visits the parsed variants and the declared target enums
    in hash map order; the model visits variants in declaration order and
    target enums in the order of their first declaration, and no contract
    below depends on either order except which failure is reported when
    several variants are faulty. */
module EnumIntoGenerator {
  import opened Results
  import opened Syntax
  import opened Annotations
  import opened FieldMapping
  import opened EnumIntoParser

  /** Which source variant converts into the target variant, and for each
      source field the target field it is written to. */
  datatype VariantMapping = VariantMapping(sourceVariant: string, fieldsMapping: map<string, string>)

  type VariantsMapping = map<string, seq<VariantMapping>>

  type TargetEnums = map<string, VariantsMapping>

  datatype Generator = Generator(
    targetEnums: TargetEnums,
    sourceEnum: string,
    sourceVariants: map<string, Variant>)

  // ---------------------------------------------------------------------
  // Reference definitions.

  /** The annotation names the target enum `t` explicitly. */
  predicate ExplicitFor(a: VariantAnnotation, t: string) {
    !a.Nothing? && a.enumName == t
  }

  /** The target variant an explicit annotation on the source variant
      `source` names: its own name unless the annotation gives one. */
  function ExplicitVariant(source: string, a: VariantAnnotation): string
    requires !a.Nothing?
  {
    match a
    case EnumOnly(_) => source
    case EnumVariant(_, v) => v
  }

  /** In target enum `t`, the source variant `source` with annotations
      `annots` converts into `tvar`: the variant named by the last
      annotation naming `t`, or the variant of the same name when no
      annotation names `t`. */
  ghost predicate PairsWith(source: string, annots: seq<VariantAnnotation>, t: string, tvar: string) {
    if exists j :: 0 <= j < |annots| && ExplicitFor(annots[j], t)
    then exists j :: 0 <= j < |annots| && ExplicitFor(annots[j], t)
                     && (forall j' :: j < j' < |annots| ==> !ExplicitFor(annots[j'], t))
                     && tvar == ExplicitVariant(source, annots[j])
    else tvar == source
  }

  /** A source variant can be resolved: every target enum its annotations
      name is declared, and for every declared target enum no field
      carries two mappings for the target variant it pairs with. */
  ghost predicate Resolvable(declared: seq<string>, v: AnnotatedVariant<string>) {
    var annots := v.annotations.variantAnnotations;
    AllDeclared(declared, annots)
    && forall t, tvar :: t in declared && PairsWith(v.variant.ident, annots, t, tvar) ==>
         Unambiguous(v.annotations.fieldsAnnotations, t, tvar)
  }

  /** Every target enum the annotations name is declared. */
  predicate AllDeclared(declared: seq<string>, annots: seq<VariantAnnotation>) {
    forall j :: 0 <= j < |annots| && !annots[j].Nothing? ==> annots[j].enumName in declared
  }

  /** The diagnostic an unresolvable source variant produces: duplicate
      field mappings are found before undeclared target enums. */
  ghost function Failure(declared: seq<string>, v: AnnotatedVariant<string>): Error {
    if exists t, tvar :: t in declared && PairsWith(v.variant.ident, v.annotations.variantAnnotations, t, tvar)
                         && !Unambiguous(v.annotations.fieldsAnnotations, t, tvar)
    then DuplicateFieldMapping
    else UndeclaredEnum
  }

  /** The mapping the source variant `v` contributes in target enum `t`,
      when it pairs with `tvar`. */
  function MappingFor(v: AnnotatedVariant<string>, t: string, tvar: string): VariantMapping
    requires Unambiguous(v.annotations.fieldsAnnotations, t, tvar)
  {
    VariantMapping(v.variant.ident, GetFieldsMapping(v.annotations.fieldsAnnotations, t, tvar).value)
  }

  // ---------------------------------------------------------------------
  // The resolver.

  /** The position of the last annotation naming `t`. */
  function LastExplicit(annots: seq<VariantAnnotation>, t: string): (j: nat)
    requires exists j :: 0 <= j < |annots| && ExplicitFor(annots[j], t)
    ensures j < |annots| && ExplicitFor(annots[j], t)
    ensures forall j' :: j < j' < |annots| ==> !ExplicitFor(annots[j'], t)
  {
    var n := |annots| - 1;
    if ExplicitFor(annots[n], t) then n
    else
      assert exists j :: 0 <= j < n && ExplicitFor(annots[..n][j], t) by {
        var j :| 0 <= j < |annots| && ExplicitFor(annots[j], t);
        assert annots[..n][j] == annots[j];
      }
      LastExplicit(annots[..n], t)
  }

  /** The explicit pairings of one source variant: target enum -> target
      variant. A bare marker is dropped, and of two annotations naming the
      same target enum the later one wins, as collecting pairs into a hash
      map does. */
  function TargetVariants(source: string, annots: seq<VariantAnnotation>): map<string, string> {
    var named := set j | 0 <= j < |annots| && !annots[j].Nothing? :: annots[j].enumName;
    assert forall t :: t in named <==> exists j :: 0 <= j < |annots| && ExplicitFor(annots[j], t);
    map t | t in named :: ExplicitVariant(source, annots[LastExplicit(annots, t)])
  }

  /** The explicit pairings hold the target enums the annotations name,
      each with the variant the last such annotation names. */
  lemma TargetVariantsPairing(source: string, annots: seq<VariantAnnotation>)
    ensures forall t :: t in TargetVariants(source, annots) <==> exists j :: 0 <= j < |annots| && ExplicitFor(annots[j], t)
    ensures forall t :: t in TargetVariants(source, annots) ==> PairsWith(source, annots, t, TargetVariants(source, annots)[t])
    ensures forall t :: t !in TargetVariants(source, annots) ==> PairsWith(source, annots, t, source)
  {
    TargetVariantsKeys(source, annots);
  }

  /** The explicit pairings hold exactly the target enums the annotations
      name. */
  lemma TargetVariantsKeys(source: string, annots: seq<VariantAnnotation>)
    ensures forall t :: t in TargetVariants(source, annots) <==> exists j :: 0 <= j < |annots| && ExplicitFor(annots[j], t)
  {
    var named := set j | 0 <= j < |annots| && !annots[j].Nothing? :: annots[j].enumName;
    assert forall t :: t in named <==> exists j :: 0 <= j < |annots| && ExplicitFor(annots[j], t);
  }

  /** The target variant of target enum `t`: the explicit one, or the
      source variant's own name. */
  function PairedVariant(tv: map<string, string>, source: string, t: string): string {
    if t in tv then tv[t] else source
  }

  /** The target variant the source variant `v` converts into in target
      enum `t`, as the resolver computes it. */
  function Paired(v: AnnotatedVariant<string>, t: string): string {
    PairedVariant(TargetVariants(v.variant.ident, v.annotations.variantAnnotations), v.variant.ident, t)
  }

  /** The computed pairing is the one the annotations prescribe, and the
      only one. */
  lemma PairedFollowsAnnotations(v: AnnotatedVariant<string>, t: string, tvar: string)
    ensures PairsWith(v.variant.ident, v.annotations.variantAnnotations, t, tvar) <==> tvar == Paired(v, t)
  {
    var source := v.variant.ident;
    var annots := v.annotations.variantAnnotations;
    TargetVariantsPairing(source, annots);
    assert PairsWith(source, annots, t, Paired(v, t));
    if PairsWith(source, annots, t, tvar) {
      PairsWithUnique(source, annots, t, tvar, Paired(v, t));
    }
  }

  /** The mappings recorded for `tvar`, none when it has no entry yet. */
  function Lookup(vm: VariantsMapping, tvar: string): seq<VariantMapping> {
    if tvar in vm then vm[tvar] else []
  }

  /** Appends one mapping to the list of `tvar`. */
  function Push(vm: VariantsMapping, tvar: string, m: VariantMapping): (r: VariantsMapping)
    ensures r.Keys == vm.Keys + {tvar}
    ensures Lookup(r, tvar) == Lookup(vm, tvar) + [m]
    ensures forall x :: x != tvar ==> Lookup(r, x) == Lookup(vm, x)
  {
    vm[tvar := Lookup(vm, tvar) + [m]]
  }

  /** The declared target enums without repetition, in order of first
      declaration: the keys of the hash map the source builds. */
  function Distinct(xs: seq<string>): (r: seq<string>)
    ensures forall x :: x in r <==> x in xs
    ensures forall i, j :: 0 <= i < j < |r| ==> r[i] != r[j]
  {
    if xs == [] then []
    else
      var rest := Distinct(xs[1..]);
      if xs[0] in rest then rest else [xs[0]] + rest
  }

  /** The inner loop of `try_from` for one source variant: for each target
      enum in `targets`, compute the field table for the paired target
      variant and append the mapping to that variant's list. */
  function ResolveTargets(te: TargetEnums, targets: seq<string>, v: AnnotatedVariant<string>, tv: map<string, string>): (r: Result<TargetEnums>)
    requires forall t :: t in targets ==> t in te
    ensures r.Ok? <==> forall t :: t in targets ==> Unambiguous(v.annotations.fieldsAnnotations, t, PairedVariant(tv, v.variant.ident, t))
    ensures r.Err? ==> r.error == DuplicateFieldMapping
    ensures r.Ok? ==> r.value.Keys == te.Keys
    decreases |targets|
  {
    if targets == [] then Ok(te)
    else
      var t := targets[0];
      var tvar := PairedVariant(tv, v.variant.ident, t);
      var fieldsMapping :- GetFieldsMapping(v.annotations.fieldsAnnotations, t, tvar);
      var next := te[t := Push(te[t], tvar, VariantMapping(v.variant.ident, fieldsMapping))];
      var rest := targets[1..];
      assert forall x :: x in targets <==> x == t || x in rest;
      ResolveTargets(next, rest, v, tv)
  }

  /** Each target enum of `targets` (listed once each) gets exactly one
      more mapping, under its paired target variant; the others are left
      alone. */
  lemma {:induction false} TargetsEffect(te: TargetEnums, targets: seq<string>, v: AnnotatedVariant<string>, tv: map<string, string>)
    requires forall t :: t in targets ==> t in te
    requires forall i, j :: 0 <= i < j < |targets| ==> targets[i] != targets[j]
    requires ResolveTargets(te, targets, v, tv).Ok?
    ensures forall t :: t in te && t !in targets ==> ResolveTargets(te, targets, v, tv).value[t] == te[t]
    ensures forall t :: t in targets ==>
              Unambiguous(v.annotations.fieldsAnnotations, t, PairedVariant(tv, v.variant.ident, t))
              && ResolveTargets(te, targets, v, tv).value[t]
                 == Push(te[t], PairedVariant(tv, v.variant.ident, t),
                         MappingFor(v, t, PairedVariant(tv, v.variant.ident, t)))
    decreases |targets|
  {
    if targets != [] {
      var t := targets[0];
      var tvar := PairedVariant(tv, v.variant.ident, t);
      assert Unambiguous(v.annotations.fieldsAnnotations, t, tvar);
      var next := te[t := Push(te[t], tvar, MappingFor(v, t, tvar))];
      var rest := targets[1..];
      assert ResolveTargets(te, targets, v, tv) == ResolveTargets(next, rest, v, tv);
      assert t !in rest by {
        forall k | 0 <= k < |rest| ensures rest[k] != t {
          assert rest[k] == targets[k + 1];
        }
      }
      assert forall x :: x in rest ==> x in targets;
      TargetsEffect(next, rest, v, tv);
    }
  }

  /** The body of the outer loop of `try_from` for one source variant:
      pair it with every declared target enum, then reject an annotation
      naming a target enum that is not declared. When it fails is stated
      by VariantOutcome. */
  function ResolveVariant(te: TargetEnums, declared: seq<string>, v: AnnotatedVariant<string>): (r: Result<TargetEnums>)
    requires forall t :: t in te <==> t in declared
    ensures r.Ok? ==> r.value.Keys == te.Keys
  {
    var tv := TargetVariants(v.variant.ident, v.annotations.variantAnnotations);
    var r := ResolveTargets(te, Distinct(declared), v, tv);
    if r.Err? then r
    else if forall t :: t in tv ==> t in declared then r
    else Err(UndeclaredEnum)
  }

  /** Resolving one source variant succeeds exactly when it is resolvable,
      and otherwise reports its failure: duplicate field mappings before
      undeclared target enums. */
  lemma VariantOutcome(te: TargetEnums, declared: seq<string>, v: AnnotatedVariant<string>)
    requires forall t :: t in te <==> t in declared
    ensures ResolveVariant(te, declared, v).Ok? <==> Resolvable(declared, v)
    ensures ResolveVariant(te, declared, v).Err? ==> ResolveVariant(te, declared, v).error == Failure(declared, v)
  {
    VariantChecks(te, declared, v);
    ResolvableChecks(declared, v);
  }

  /** Every declared target enum, with the target variant the computed
      pairing gives, has no duplicate field mapping. */
  ghost predicate PairedUnambiguous(declared: seq<string>, v: AnnotatedVariant<string>) {
    forall t :: t in declared ==> Unambiguous(v.annotations.fieldsAnnotations, t, Paired(v, t))
  }

  /** The two checks `try_from` makes on one source variant, in order. */
  lemma VariantChecks(te: TargetEnums, declared: seq<string>, v: AnnotatedVariant<string>)
    requires forall t :: t in te <==> t in declared
    ensures ResolveVariant(te, declared, v).Ok? <==> PairedUnambiguous(declared, v) && AllDeclared(declared, v.annotations.variantAnnotations)
    ensures ResolveVariant(te, declared, v).Err? ==>
              ResolveVariant(te, declared, v).error == if PairedUnambiguous(declared, v) then UndeclaredEnum else DuplicateFieldMapping
  {
    var targets := Distinct(declared);
    var tv := TargetVariants(v.variant.ident, v.annotations.variantAnnotations);
    assert forall t :: t in targets <==> t in declared;
    DeclaredTargets(declared, v.variant.ident, v.annotations.variantAnnotations);
  }

  /** The annotations name only declared target enums exactly when the
      explicit pairings do. */
  lemma DeclaredTargets(declared: seq<string>, source: string, annots: seq<VariantAnnotation>)
    ensures (forall t :: t in TargetVariants(source, annots) ==> t in declared) <==> AllDeclared(declared, annots)
  {
    TargetVariantsKeys(source, annots);
    forall j | 0 <= j < |annots| && !annots[j].Nothing? ensures ExplicitFor(annots[j], annots[j].enumName) {
    }
  }

  /** The reference definitions amount to the same two checks. */
  lemma ResolvableChecks(declared: seq<string>, v: AnnotatedVariant<string>)
    ensures Resolvable(declared, v) <==> PairedUnambiguous(declared, v) && AllDeclared(declared, v.annotations.variantAnnotations)
    ensures Failure(declared, v) == if PairedUnambiguous(declared, v) then UndeclaredEnum else DuplicateFieldMapping
  {
    var source := v.variant.ident;
    var annots := v.annotations.variantAnnotations;
    forall t, tvar | t in declared && PairsWith(source, annots, t, tvar) ensures tvar == Paired(v, t) {
      PairedFollowsAnnotations(v, t, tvar);
    }
    forall t | t in declared ensures PairsWith(source, annots, t, Paired(v, t)) {
      PairedFollowsAnnotations(v, t, Paired(v, t));
    }
  }

  /** What resolving one source variant does: every declared target enum
      gets exactly one more mapping, this variant's, under the target
      variant it pairs with. */
  lemma VariantEffect(te: TargetEnums, declared: seq<string>, v: AnnotatedVariant<string>)
    requires forall t :: t in te <==> t in declared
    requires ResolveVariant(te, declared, v).Ok?
    ensures forall t :: t in te ==>
              Unambiguous(v.annotations.fieldsAnnotations, t, Paired(v, t))
              && ResolveVariant(te, declared, v).value[t] == Push(te[t], Paired(v, t), MappingFor(v, t, Paired(v, t)))
  {
    TargetsEffect(te, Distinct(declared), v, TargetVariants(v.variant.ident, v.annotations.variantAnnotations));
  }

  /** The names of the parsed source variants. */
  function VariantNames(vs: seq<AnnotatedVariant<string>>): set<string> {
    set i | 0 <= i < |vs| :: vs[i].variant.ident
  }

  /** The names of `vs` are the first one's and those of the rest. */
  lemma NamesCons(vs: seq<AnnotatedVariant<string>>)
    requires vs != []
    ensures VariantNames(vs) == {vs[0].variant.ident} + VariantNames(vs[1..])
  {
    var rest := vs[1..];
    forall k | k in VariantNames(rest) ensures k in VariantNames(vs) {
      var i :| 0 <= i < |rest| && rest[i].variant.ident == k;
      assert vs[i + 1].variant.ident == k;
    }
    forall k | k in VariantNames(vs) && k != vs[0].variant.ident ensures k in VariantNames(rest) {
      var i :| 0 <= i < |vs| && vs[i].variant.ident == k;
      assert rest[i - 1].variant.ident == k;
    }
  }

  /** The outer loop of `try_from`: resolve every source variant in turn,
      recording each in the source variants table. When it fails is stated
      by VariantsOutcome. */
  function ResolveVariants(te: TargetEnums, sm: map<string, Variant>, declared: seq<string>, vs: seq<AnnotatedVariant<string>>): (r: Result<(TargetEnums, map<string, Variant>)>)
    requires forall t :: t in te <==> t in declared
    ensures r.Ok? ==> r.value.0.Keys == te.Keys
    decreases |vs|
  {
    if vs == [] then Ok((te, sm))
    else
      var next :- ResolveVariant(te, declared, vs[0]);
      ResolveVariants(next, sm[vs[0].variant.ident := vs[0].variant], declared, vs[1..])
  }

  /** The loop succeeds exactly when every source variant is resolvable,
      and otherwise reports the failure of an unresolvable one. */
  lemma {:induction false} VariantsOutcome(te: TargetEnums, sm: map<string, Variant>, declared: seq<string>, vs: seq<AnnotatedVariant<string>>)
    requires forall t :: t in te <==> t in declared
    ensures ResolveVariants(te, sm, declared, vs).Ok? <==> forall i :: 0 <= i < |vs| ==> Resolvable(declared, vs[i])
    ensures ResolveVariants(te, sm, declared, vs).Err? ==>
              exists i :: 0 <= i < |vs| && !Resolvable(declared, vs[i]) && ResolveVariants(te, sm, declared, vs).error == Failure(declared, vs[i])
    decreases |vs|
  {
    if vs != [] {
      var v := vs[0];
      var rest := vs[1..];
      assert forall i :: 1 <= i < |vs| ==> vs[i] == rest[i - 1];
      VariantOutcome(te, declared, v);
      if ResolveVariant(te, declared, v).Ok? {
        var next := ResolveVariant(te, declared, v).value;
        var sm' := sm[v.variant.ident := v.variant];
        VariantsOutcome(next, sm', declared, rest);
        var r := ResolveVariants(next, sm', declared, rest);
        assert ResolveVariants(te, sm, declared, vs) == r;
        if r.Err? {
          var i :| 0 <= i < |rest| && !Resolvable(declared, rest[i]) && r.error == Failure(declared, rest[i]);
          assert vs[i + 1] == rest[i];
        }
      }
    }
  }

  /** Resolving a non-empty list of source variants resolves the first and
      then the rest. */
  lemma VariantsUnfold(te: TargetEnums, sm: map<string, Variant>, declared: seq<string>, vs: seq<AnnotatedVariant<string>>)
    requires forall t :: t in te <==> t in declared
    requires vs != [] && ResolveVariants(te, sm, declared, vs).Ok?
    ensures ResolveVariant(te, declared, vs[0]).Ok?
    ensures ResolveVariants(te, sm, declared, vs)
            == ResolveVariants(ResolveVariant(te, declared, vs[0]).value, sm[vs[0].variant.ident := vs[0].variant], declared, vs[1..])
  {
  }

  /** Resolving one source variant only appends to the lists already there. */
  lemma VariantGrows(te: TargetEnums, declared: seq<string>, v: AnnotatedVariant<string>)
    requires forall t :: t in te <==> t in declared
    requires ResolveVariant(te, declared, v).Ok?
    ensures forall t, tvar :: t in te ==> Lookup(te[t], tvar) <= Lookup(ResolveVariant(te, declared, v).value[t], tvar)
  {
    VariantEffect(te, declared, v);
  }

  /** Resolving source variants only appends to the lists already there. */
  lemma {:induction false} VariantsGrow(te: TargetEnums, sm: map<string, Variant>, declared: seq<string>, vs: seq<AnnotatedVariant<string>>)
    requires forall t :: t in te <==> t in declared
    requires ResolveVariants(te, sm, declared, vs).Ok?
    ensures forall t, tvar :: t in te ==> Lookup(te[t], tvar) <= Lookup(ResolveVariants(te, sm, declared, vs).value.0[t], tvar)
    decreases |vs|
  {
    if vs != [] {
      VariantsUnfold(te, sm, declared, vs);
      var next := ResolveVariant(te, declared, vs[0]).value;
      VariantGrows(te, declared, vs[0]);
      VariantsGrow(next, sm[vs[0].variant.ident := vs[0].variant], declared, vs[1..]);
    }
  }

  /** Every source variant's mapping is appended, in every declared target
      enum, to the list of the target variant it is paired with. */
  lemma {:induction false} VariantsCover(te: TargetEnums, sm: map<string, Variant>, declared: seq<string>, vs: seq<AnnotatedVariant<string>>)
    requires forall t :: t in te <==> t in declared
    requires ResolveVariants(te, sm, declared, vs).Ok?
    ensures forall i, t :: 0 <= i < |vs| && t in te ==>
              Unambiguous(vs[i].annotations.fieldsAnnotations, t, Paired(vs[i], t))
              && MappingFor(vs[i], t, Paired(vs[i], t)) in Lookup(ResolveVariants(te, sm, declared, vs).value.0[t], Paired(vs[i], t))
    decreases |vs|
  {
    if vs != [] {
      VariantsUnfold(te, sm, declared, vs);
      var next := ResolveVariant(te, declared, vs[0]).value;
      var sm' := sm[vs[0].variant.ident := vs[0].variant];
      var rest := vs[1..];
      VariantEffect(te, declared, vs[0]);
      VariantsGrow(next, sm', declared, rest);
      VariantsCover(next, sm', declared, rest);
      var r := ResolveVariants(next, sm', declared, rest).value.0;
      forall i, t | 0 <= i < |vs| && t in te
        ensures Unambiguous(vs[i].annotations.fieldsAnnotations, t, Paired(vs[i], t))
        ensures MappingFor(vs[i], t, Paired(vs[i], t)) in Lookup(r[t], Paired(vs[i], t))
      {
        if i == 0 {
          var tvar := Paired(vs[0], t);
          assert Lookup(next[t], tvar) <= Lookup(r[t], tvar);
          assert MappingFor(vs[0], t, tvar) == Lookup(next[t], tvar)[|Lookup(te[t], tvar)|];
        } else {
          assert vs[i] == rest[i - 1];
        }
      }
    }
  }

  /** Some source variant among `vs` is paired with `tvar` in target enum
      `t`, and `m` is the mapping it contributes. */
  ghost predicate Contributes(vs: seq<AnnotatedVariant<string>>, t: string, tvar: string, m: VariantMapping) {
    exists i :: 0 <= i < |vs| && tvar == Paired(vs[i], t)
                && Unambiguous(vs[i].annotations.fieldsAnnotations, t, tvar) && m == MappingFor(vs[i], t, tvar)
  }

  lemma ContributesCons(v: AnnotatedVariant<string>, rest: seq<AnnotatedVariant<string>>, t: string, tvar: string, m: VariantMapping)
    requires Contributes(rest, t, tvar, m)
             || (tvar == Paired(v, t) && Unambiguous(v.annotations.fieldsAnnotations, t, tvar) && m == MappingFor(v, t, tvar))
    ensures Contributes([v] + rest, t, tvar, m)
  {
    var vs := [v] + rest;
    if Contributes(rest, t, tvar, m) {
      var i :| 0 <= i < |rest| && tvar == Paired(rest[i], t)
               && Unambiguous(rest[i].annotations.fieldsAnnotations, t, tvar) && m == MappingFor(rest[i], t, tvar);
      assert vs[i + 1] == rest[i];
    } else {
      assert vs[0] == v;
    }
  }

  /** One source variant leaves the list of `tvar` in target enum `t` as it
      was, or, when it is paired with `tvar`, appends its own mapping. */
  lemma VariantSound(te: TargetEnums, declared: seq<string>, v: AnnotatedVariant<string>, t: string, tvar: string)
    requires forall t :: t in te <==> t in declared
    requires ResolveVariant(te, declared, v).Ok? && t in te
    ensures Lookup(ResolveVariant(te, declared, v).value[t], tvar) == Lookup(te[t], tvar)
            || (tvar == Paired(v, t) && Unambiguous(v.annotations.fieldsAnnotations, t, tvar)
                && Lookup(ResolveVariant(te, declared, v).value[t], tvar) == Lookup(te[t], tvar) + [MappingFor(v, t, tvar)])
  {
    VariantEffect(te, declared, v);
  }

  /** Everything appended to the list of `tvar` in target enum `t` comes
      from a source variant paired with that target variant, and is that
      variant's mapping. */
  lemma {:induction false} VariantsSound(te: TargetEnums, sm: map<string, Variant>, declared: seq<string>, vs: seq<AnnotatedVariant<string>>,
                                         t: string, tvar: string)
    requires forall t :: t in te <==> t in declared
    requires ResolveVariants(te, sm, declared, vs).Ok? && t in te
    ensures forall k :: |Lookup(te[t], tvar)| <= k < |Lookup(ResolveVariants(te, sm, declared, vs).value.0[t], tvar)| ==>
              Contributes(vs, t, tvar, Lookup(ResolveVariants(te, sm, declared, vs).value.0[t], tvar)[k])
    decreases |vs|
  {
    if vs != [] {
      VariantsUnfold(te, sm, declared, vs);
      var next := ResolveVariant(te, declared, vs[0]).value;
      var sm' := sm[vs[0].variant.ident := vs[0].variant];
      var rest := vs[1..];
      var r := ResolveVariants(next, sm', declared, rest).value.0;
      var before, mid, after := Lookup(te[t], tvar), Lookup(next[t], tvar), Lookup(r[t], tvar);
      assert mid <= after by {
        VariantsGrow(next, sm', declared, rest);
      }
      VariantSound(te, declared, vs[0], t, tvar);
      assert forall k :: |mid| <= k < |after| ==> Contributes(rest, t, tvar, after[k]) by {
        VariantsSound(next, sm', declared, rest, t, tvar);
      }
      SoundSplit(vs, t, tvar, before, mid, after);
    }
  }

  /** One step of VariantsSound for one target variant: a list that grew
      first by the mappings of `vs[0]` and then by those of the other
      variants grew by mappings of `vs`. */
  lemma SoundSplit(vs: seq<AnnotatedVariant<string>>, t: string, tvar: string,
                   before: seq<VariantMapping>, mid: seq<VariantMapping>, after: seq<VariantMapping>)
    requires vs != [] && mid <= after
    requires mid == before
             || (tvar == Paired(vs[0], t) && Unambiguous(vs[0].annotations.fieldsAnnotations, t, tvar)
                 && mid == before + [MappingFor(vs[0], t, tvar)])
    requires forall k :: |mid| <= k < |after| ==> Contributes(vs[1..], t, tvar, after[k])
    ensures forall k :: |before| <= k < |after| ==> Contributes(vs, t, tvar, after[k])
  {
    assert vs == [vs[0]] + vs[1..];
    forall k | |before| <= k < |after| ensures Contributes([vs[0]] + vs[1..], t, tvar, after[k]) {
      if k < |mid| {
        assert mid[k] == after[k];
        assert mid[k] == MappingFor(vs[0], t, tvar);
      }
      ContributesCons(vs[0], vs[1..], t, tvar, after[k]);
    }
  }

  /** The source variants table holds every resolved variant under its
      name, and nothing else. */
  lemma {:induction false} VariantsRecorded(te: TargetEnums, sm: map<string, Variant>, declared: seq<string>, vs: seq<AnnotatedVariant<string>>)
    requires forall t :: t in te <==> t in declared
    requires forall k :: k in sm ==> sm[k].ident == k
    requires ResolveVariants(te, sm, declared, vs).Ok?
    ensures ResolveVariants(te, sm, declared, vs).value.1.Keys == sm.Keys + VariantNames(vs)
    ensures forall k :: k in ResolveVariants(te, sm, declared, vs).value.1 ==>
              ResolveVariants(te, sm, declared, vs).value.1[k].ident == k
              && ((k in sm && ResolveVariants(te, sm, declared, vs).value.1[k] == sm[k])
                  || exists i :: 0 <= i < |vs| && ResolveVariants(te, sm, declared, vs).value.1[k] == vs[i].variant)
    decreases |vs|
  {
    if vs != [] {
      VariantsUnfold(te, sm, declared, vs);
      var v := vs[0];
      var next := ResolveVariant(te, declared, v).value;
      var sm' := sm[v.variant.ident := v.variant];
      var rest := vs[1..];
      VariantsRecorded(next, sm', declared, rest);
      NamesCons(vs);
      var sr := ResolveVariants(next, sm', declared, rest).value.1;
      forall k | k in sr ensures (k in sm && sr[k] == sm[k]) || exists i :: 0 <= i < |vs| && sr[k] == vs[i].variant {
        RecordedCons(vs, sm, sm', sr[k], k);
      }
    }
  }

  /** Where an entry of the source variant table after the first variant
      came from, restated for the whole list. */
  lemma RecordedCons(vs: seq<AnnotatedVariant<string>>, sm: map<string, Variant>, sm': map<string, Variant>, x: Variant, k: string)
    requires vs != [] && sm' == sm[vs[0].variant.ident := vs[0].variant]
    requires (k in sm' && x == sm'[k]) || exists i :: 0 <= i < |vs[1..]| && x == vs[1..][i].variant
    ensures (k in sm && x == sm[k]) || exists i :: 0 <= i < |vs| && x == vs[i].variant
  {
    if exists i :: 0 <= i < |vs[1..]| && x == vs[1..][i].variant {
      var i :| 0 <= i < |vs[1..]| && x == vs[1..][i].variant;
      assert x == vs[i + 1].variant;
    } else if k == vs[0].variant.ident {
      assert x == vs[0].variant;
    }
  }

  // ---------------------------------------------------------------------
  // Each source variant is recorded once per target enum.

  /** No source variant occurs twice in the lists of one target enum. */
  ghost predicate Once(vm: VariantsMapping) {
    forall x, y, k, l ::
      0 <= k < |Lookup(vm, x)| && 0 <= l < |Lookup(vm, y)| && Lookup(vm, x)[k].sourceVariant == Lookup(vm, y)[l].sourceVariant
      ==> x == y && k == l
  }

  /** The source variant `s` occurs in no list of the target enum. */
  ghost predicate Absent(vm: VariantsMapping, s: string) {
    forall x, k :: 0 <= k < |Lookup(vm, x)| ==> Lookup(vm, x)[k].sourceVariant != s
  }

  lemma PushOnce(vm: VariantsMapping, tvar: string, m: VariantMapping)
    requires Once(vm) && Absent(vm, m.sourceVariant)
    ensures Once(Push(vm, tvar, m))
    ensures forall s :: s != m.sourceVariant && Absent(vm, s) ==> Absent(Push(vm, tvar, m), s)
  {
    var r := Push(vm, tvar, m);
    forall x, y, k, l | 0 <= k < |Lookup(r, x)| && 0 <= l < |Lookup(r, y)| && Lookup(r, x)[k].sourceVariant == Lookup(r, y)[l].sourceVariant
      ensures x == y && k == l
    {
      assert k < |Lookup(vm, x)| ==> Lookup(r, x)[k] == Lookup(vm, x)[k];
      assert l < |Lookup(vm, y)| ==> Lookup(r, y)[l] == Lookup(vm, y)[l];
    }
  }

  /** Resolving one source variant whose name is new keeps every target
      enum's lists free of repetitions, and leaves other new names new. */
  lemma VariantOnce(te: TargetEnums, declared: seq<string>, v: AnnotatedVariant<string>)
    requires forall t :: t in te <==> t in declared
    requires ResolveVariant(te, declared, v).Ok?
    requires forall t :: t in te ==> Once(te[t]) && Absent(te[t], v.variant.ident)
    ensures forall t :: t in te ==> Once(ResolveVariant(te, declared, v).value[t])
    ensures forall t, s :: t in te && s != v.variant.ident && Absent(te[t], s) ==> Absent(ResolveVariant(te, declared, v).value[t], s)
  {
    VariantEffect(te, declared, v);
    forall t | t in te
      ensures Once(ResolveVariant(te, declared, v).value[t])
      ensures forall s :: s != v.variant.ident && Absent(te[t], s) ==> Absent(ResolveVariant(te, declared, v).value[t], s)
    {
      PushOnce(te[t], Paired(v, t), MappingFor(v, t, Paired(v, t)));
    }
  }

  lemma {:induction false} VariantsOnce(te: TargetEnums, sm: map<string, Variant>, declared: seq<string>, vs: seq<AnnotatedVariant<string>>)
    requires forall t :: t in te <==> t in declared
    requires ResolveVariants(te, sm, declared, vs).Ok?
    requires forall i, j :: 0 <= i < j < |vs| ==> vs[i].variant.ident != vs[j].variant.ident
    requires forall t, i :: t in te && 0 <= i < |vs| ==> Absent(te[t], vs[i].variant.ident)
    requires forall t :: t in te ==> Once(te[t])
    ensures forall t :: t in te ==> Once(ResolveVariants(te, sm, declared, vs).value.0[t])
    decreases |vs|
  {
    if vs != [] {
      VariantsUnfold(te, sm, declared, vs);
      var next := ResolveVariant(te, declared, vs[0]).value;
      var rest := vs[1..];
      VariantOnce(te, declared, vs[0]);
      forall t, i | t in next && 0 <= i < |rest| ensures Absent(next[t], rest[i].variant.ident) {
        assert rest[i] == vs[i + 1];
      }
      forall i, j | 0 <= i < j < |rest| ensures rest[i].variant.ident != rest[j].variant.ident {
        assert rest[i] == vs[i + 1] && rest[j] == vs[j + 1];
      }
      VariantsOnce(next, sm[vs[0].variant.ident := vs[0].variant], declared, rest);
    }
  }

  /** PairsWith pins down one target variant. */
  lemma PairsWithUnique(source: string, annots: seq<VariantAnnotation>, t: string, tvar: string, tvar': string)
    requires PairsWith(source, annots, t, tvar) && PairsWith(source, annots, t, tvar')
    ensures tvar == tvar'
  {
    if exists j :: 0 <= j < |annots| && ExplicitFor(annots[j], t) {
      var j :| 0 <= j < |annots| && ExplicitFor(annots[j], t)
               && (forall j' :: j < j' < |annots| ==> !ExplicitFor(annots[j'], t)) && tvar == ExplicitVariant(source, annots[j]);
      var j2 :| 0 <= j2 < |annots| && ExplicitFor(annots[j2], t)
                && (forall j' :: j2 < j' < |annots| ==> !ExplicitFor(annots[j'], t)) && tvar' == ExplicitVariant(source, annots[j2]);
      assert j == j2;
    }
  }

  // ---------------------------------------------------------------------
  // The conversion `try_from`.

  /** `try_from`: an empty container list is an error; otherwise every
      declared target enum starts with an empty table and the source
      variants are resolved one after the other. When it fails is stated
      by TryFromOutcome. */
  function TryFrom(p: ParsedEnumInto): (r: Result<Generator>)
    ensures p.containerAnnotations == [] ==> r == Err(MissingContainerAnnotation)
    ensures r.Ok? ==> r.value.sourceEnum == p.sourceEnum
    ensures r.Ok? ==> r.value.targetEnums.Keys == set t | t in p.containerAnnotations
  {
    var declared := p.containerAnnotations;
    if declared == [] then Err(MissingContainerAnnotation)
    else
      var tables :- ResolveVariants(Initial(declared), map[], declared, p.variantsAnnotations);
      Ok(Generator(tables.0, p.sourceEnum, tables.1))
  }

  /** Every declared target enum, with no mapping yet. */
  function Initial(declared: seq<string>): (te: TargetEnums)
    ensures forall t :: t in te <==> t in declared
    ensures forall t, tvar :: t in te ==> Lookup(te[t], tvar) == []
  {
    map t | t in declared :: map[]
  }

  /** A successful `try_from` returns the tables the loop built. */
  lemma TryFromTables(p: ParsedEnumInto)
    requires TryFrom(p).Ok?
    ensures p.containerAnnotations != []
    ensures ResolveVariants(Initial(p.containerAnnotations), map[], p.containerAnnotations, p.variantsAnnotations).Ok?
    ensures TryFrom(p).value.targetEnums
            == ResolveVariants(Initial(p.containerAnnotations), map[], p.containerAnnotations, p.variantsAnnotations).value.0
    ensures TryFrom(p).value.sourceVariants
            == ResolveVariants(Initial(p.containerAnnotations), map[], p.containerAnnotations, p.variantsAnnotations).value.1
  {
  }

  /** `try_from` succeeds exactly when target enums are declared and every
      source variant is resolvable; otherwise it reports the failure of an
      unresolvable one. On success every source variant is recorded under
      its name. */
  lemma TryFromOutcome(p: ParsedEnumInto)
    ensures TryFrom(p).Ok? <==> p.containerAnnotations != []
                                && forall i :: 0 <= i < |p.variantsAnnotations| ==> Resolvable(p.containerAnnotations, p.variantsAnnotations[i])
    ensures TryFrom(p).Err? && p.containerAnnotations != [] ==>
              exists i :: 0 <= i < |p.variantsAnnotations| && !Resolvable(p.containerAnnotations, p.variantsAnnotations[i])
                          && TryFrom(p).error == Failure(p.containerAnnotations, p.variantsAnnotations[i])
    ensures TryFrom(p).Ok? ==>
              TryFrom(p).value.sourceVariants.Keys == VariantNames(p.variantsAnnotations)
  {
    var declared := p.containerAnnotations;
    if declared != [] {
      var none: map<string, Variant> := map[];
      VariantsOutcome(Initial(declared), none, declared, p.variantsAnnotations);
      if TryFrom(p).Ok? {
        VariantsRecorded(Initial(declared), none, declared, p.variantsAnnotations);
        assert none.Keys == {};
      }
    }
  }

  /** After a successful `try_from`, in every declared target enum, each
      source variant's mapping sits in the list of the target variant its
      annotations pair it with. */
  lemma TryFromCover(p: ParsedEnumInto)
    requires TryFrom(p).Ok?
    ensures forall i, t, tvar :: 0 <= i < |p.variantsAnnotations| && t in TryFrom(p).value.targetEnums
                                 && PairsWith(p.variantsAnnotations[i].variant.ident, p.variantsAnnotations[i].annotations.variantAnnotations, t, tvar) ==>
              Unambiguous(p.variantsAnnotations[i].annotations.fieldsAnnotations, t, tvar)
              && MappingFor(p.variantsAnnotations[i], t, tvar) in Lookup(TryFrom(p).value.targetEnums[t], tvar)
  {
    var declared := p.containerAnnotations;
    var vs := p.variantsAnnotations;
    TryFromTables(p);
    VariantsCover(Initial(declared), map[], declared, vs);
    forall i, t, tvar | 0 <= i < |vs| && t in TryFrom(p).value.targetEnums
                        && PairsWith(vs[i].variant.ident, vs[i].annotations.variantAnnotations, t, tvar)
      ensures tvar == Paired(vs[i], t)
    {
      PairedFollowsAnnotations(vs[i], t, tvar);
    }
  }

  /** Some source variant's annotations pair it with `tvar` in target enum
      `t`, and `m` is the mapping it contributes. */
  ghost predicate ContributedBy(vs: seq<AnnotatedVariant<string>>, t: string, tvar: string, m: VariantMapping) {
    exists i :: 0 <= i < |vs| && PairsWith(vs[i].variant.ident, vs[i].annotations.variantAnnotations, t, tvar)
                && Unambiguous(vs[i].annotations.fieldsAnnotations, t, tvar) && m == MappingFor(vs[i], t, tvar)
  }

  /** After a successful `try_from`, every recorded mapping is the mapping
      of a source variant whose annotations pair it with that target
      variant. */
  lemma TryFromSound(p: ParsedEnumInto)
    requires TryFrom(p).Ok?
    ensures forall t, tvar, k :: t in TryFrom(p).value.targetEnums && 0 <= k < |Lookup(TryFrom(p).value.targetEnums[t], tvar)| ==>
              ContributedBy(p.variantsAnnotations, t, tvar, Lookup(TryFrom(p).value.targetEnums[t], tvar)[k])
  {
    var declared := p.containerAnnotations;
    var vs := p.variantsAnnotations;
    TryFromTables(p);
    var r := ResolveVariants(Initial(declared), map[], declared, vs).value.0;
    forall t, tvar, k | t in r && 0 <= k < |Lookup(r[t], tvar)|
      ensures ContributedBy(vs, t, tvar, Lookup(r[t], tvar)[k])
    {
      VariantsSound(Initial(declared), map[], declared, vs, t, tvar);
      ContributesByAnnotations(vs, t, tvar, Lookup(r[t], tvar)[k]);
    }
  }

  lemma ContributesByAnnotations(vs: seq<AnnotatedVariant<string>>, t: string, tvar: string, m: VariantMapping)
    requires Contributes(vs, t, tvar, m)
    ensures ContributedBy(vs, t, tvar, m)
  {
    var i :| 0 <= i < |vs| && tvar == Paired(vs[i], t)
             && Unambiguous(vs[i].annotations.fieldsAnnotations, t, tvar) && m == MappingFor(vs[i], t, tvar);
    PairedFollowsAnnotations(vs[i], t, tvar);
  }

  /** After a successful `try_from`, every recorded source variant can be
      looked up in the source variants table, which holds the parsed
      variants under their names. */
  lemma TryFromRecorded(p: ParsedEnumInto)
    requires TryFrom(p).Ok?
    ensures forall t, tvar, k :: t in TryFrom(p).value.targetEnums && 0 <= k < |Lookup(TryFrom(p).value.targetEnums[t], tvar)| ==>
              Lookup(TryFrom(p).value.targetEnums[t], tvar)[k].sourceVariant in TryFrom(p).value.sourceVariants
    ensures forall s :: s in TryFrom(p).value.sourceVariants ==>
              TryFrom(p).value.sourceVariants[s].ident == s
              && exists i :: 0 <= i < |p.variantsAnnotations| && TryFrom(p).value.sourceVariants[s] == p.variantsAnnotations[i].variant
  {
    var declared := p.containerAnnotations;
    var vs := p.variantsAnnotations;
    var none: map<string, Variant> := map[];
    TryFromTables(p);
    var r := ResolveVariants(Initial(declared), none, declared, vs).value;
    VariantsRecorded(Initial(declared), none, declared, vs);
    forall t, tvar, k | t in r.0 && 0 <= k < |Lookup(r.0[t], tvar)|
      ensures Lookup(r.0[t], tvar)[k].sourceVariant in r.1
    {
      VariantsSound(Initial(declared), none, declared, vs, t, tvar);
      ContributesRecorded(vs, t, tvar, Lookup(r.0[t], tvar)[k]);
    }
  }

  lemma ContributesRecorded(vs: seq<AnnotatedVariant<string>>, t: string, tvar: string, m: VariantMapping)
    requires Contributes(vs, t, tvar, m)
    ensures m.sourceVariant in VariantNames(vs)
  {
    var i :| 0 <= i < |vs| && tvar == Paired(vs[i], t)
             && Unambiguous(vs[i].annotations.fieldsAnnotations, t, tvar) && m == MappingFor(vs[i], t, tvar);
  }

  /** With distinct source variant names, as the compiler guarantees, every
      source variant is recorded exactly once in every declared target
      enum. */
  lemma TryFromOnce(p: ParsedEnumInto)
    requires TryFrom(p).Ok?
    requires forall i, j :: 0 <= i < j < |p.variantsAnnotations| ==> p.variantsAnnotations[i].variant.ident != p.variantsAnnotations[j].variant.ident
    ensures forall t :: t in TryFrom(p).value.targetEnums ==> Once(TryFrom(p).value.targetEnums[t])
  {
    var declared := p.containerAnnotations;
    TryFromTables(p);
    InitialOnce(declared);
    VariantsOnce(Initial(declared), map[], declared, p.variantsAnnotations);
  }

  /** Every source variant has a mapping recorded in every declared target
      enum. */
  lemma TryFromListed(p: ParsedEnumInto)
    requires TryFrom(p).Ok?
    ensures forall t, i :: t in TryFrom(p).value.targetEnums && 0 <= i < |p.variantsAnnotations| ==>
              exists tvar, k :: 0 <= k < |Lookup(TryFrom(p).value.targetEnums[t], tvar)|
                                && Lookup(TryFrom(p).value.targetEnums[t], tvar)[k].sourceVariant == p.variantsAnnotations[i].variant.ident
  {
    var declared := p.containerAnnotations;
    var vs := p.variantsAnnotations;
    TryFromTables(p);
    var r := ResolveVariants(Initial(declared), map[], declared, vs).value.0;
    VariantsCover(Initial(declared), map[], declared, vs);
    forall t, i | t in r && 0 <= i < |vs|
      ensures exists tvar, k :: 0 <= k < |Lookup(r[t], tvar)| && Lookup(r[t], tvar)[k].sourceVariant == vs[i].variant.ident
    {
      Listed(Lookup(r[t], Paired(vs[i], t)), MappingFor(vs[i], t, Paired(vs[i], t)));
    }
  }

  lemma InitialOnce(declared: seq<string>)
    ensures forall t :: t in Initial(declared) ==> Once(Initial(declared)[t])
    ensures forall t, s :: t in Initial(declared) ==> Absent(Initial(declared)[t], s)
  {
  }

  lemma Listed(list: seq<VariantMapping>, m: VariantMapping)
    requires m in list
    ensures exists k :: 0 <= k < |list| && list[k].sourceVariant == m.sourceVariant
  {
    var k :| 0 <= k < |list| && list[k] == m;
  }

  // ---------------------------------------------------------------------
  // Emission, as arm records.

  /** `generate_match_arm`: the arm converting the source variant `source`
      into the target variant `targetVariant`. The shape follows the
      source variant: a unit variant takes nothing, a tuple variant passes
      field i to position i, and a struct variant writes every named
      field, in declaration order, to the target field its table names
      (the same name when the table has no entry). */
  function GenerateMatchArm(targetVariant: string, m: VariantMapping, source: Variant): (arm: Arm<string>)
    requires source.fields.WellFormed()
    ensures arm.sourceVariant == source.ident && arm.targetVariant == targetVariant
    ensures arm.shape.UnitArm? <==> source.fields.Unit?
    ensures arm.shape.TupleArm? <==> source.fields.Unnamed?
    ensures arm.shape.TupleArm? ==> arm.shape.arity == |source.fields.unnamed|
    ensures arm.shape.StructArm? ==>
              |arm.shape.pairs| == |source.fields.named|
              && forall k :: 0 <= k < |arm.shape.pairs| ==>
                   arm.shape.pairs[k].source == source.fields.named[k].ident.value
                   && arm.shape.pairs[k].target == Renamed(m.fieldsMapping, arm.shape.pairs[k].source)
  {
    match source.fields
    case Unit => Arm(source.ident, targetVariant, UnitArm)
    case Unnamed(fs) => Arm(source.ident, targetVariant, TupleArm(|fs|))
    case Named(fs) =>
      var pairs := seq(|fs|, k requires 0 <= k < |fs| =>
                         var f := fs[k].ident.value; FieldPair(Renamed(m.fieldsMapping, f), f));
      Arm(source.ident, targetVariant, StructArm(pairs))
  }

  /** The lookups emission performs cannot fail: every recorded source
      variant is in the source variants table, under its own name, and is
      well formed. */
  ghost predicate Emittable(g: Generator) {
    (forall t, tvar, k :: t in g.targetEnums && 0 <= k < |Lookup(g.targetEnums[t], tvar)| ==>
       Lookup(g.targetEnums[t], tvar)[k].sourceVariant in g.sourceVariants)
    && forall s :: s in g.sourceVariants ==> g.sourceVariants[s].ident == s && g.sourceVariants[s].fields.WellFormed()
  }

  /** `generate_from_impl`: one arm per recorded mapping of one target
      enum. The arms of a `match` are unordered here, since the table is a
      hash map. What the arms are is stated by ImplConverts,
      ImplFromMappings and ImplOnce. */
  function GenerateFromImpl(vm: VariantsMapping, sourceVariants: map<string, Variant>): (arms: set<Arm<string>>)
    requires forall tvar, k :: 0 <= k < |Lookup(vm, tvar)| ==> Lookup(vm, tvar)[k].sourceVariant in sourceVariants
    requires forall s :: s in sourceVariants ==> sourceVariants[s].ident == s && sourceVariants[s].fields.WellFormed()
    ensures forall a :: a in arms ==> a.sourceVariant in sourceVariants
  {
    set tvar, k | tvar in vm && 0 <= k < |Lookup(vm, tvar)| :: ArmAt(vm, sourceVariants, tvar, k)
  }

  /** Some arm converts the source variant `s` into the target variant
      `tvar`. */
  ghost predicate Converts(arms: set<Arm<string>>, s: string, tvar: string) {
    exists a :: a in arms && a.sourceVariant == s && a.targetVariant == tvar
  }

  /** The arm for the k-th mapping recorded under `tvar`. */
  function ArmAt(vm: VariantsMapping, sourceVariants: map<string, Variant>, tvar: string, k: nat): Arm<string>
    requires forall tvar, k :: 0 <= k < |Lookup(vm, tvar)| ==> Lookup(vm, tvar)[k].sourceVariant in sourceVariants
    requires forall s :: s in sourceVariants ==> sourceVariants[s].ident == s && sourceVariants[s].fields.WellFormed()
    requires k < |Lookup(vm, tvar)|
  {
    var m := Lookup(vm, tvar)[k];
    GenerateMatchArm(tvar, m, sourceVariants[m.sourceVariant])
  }

  /** Every recorded mapping has an arm: the match arm built from that
      mapping and its source variant, converting into the target variant
      it is recorded under. */
  lemma ImplConverts(vm: VariantsMapping, sourceVariants: map<string, Variant>)
    requires forall tvar, k :: 0 <= k < |Lookup(vm, tvar)| ==> Lookup(vm, tvar)[k].sourceVariant in sourceVariants
    requires forall s :: s in sourceVariants ==> sourceVariants[s].ident == s && sourceVariants[s].fields.WellFormed()
    ensures forall tvar, k :: 0 <= k < |Lookup(vm, tvar)| ==>
              GenerateMatchArm(tvar, Lookup(vm, tvar)[k], sourceVariants[Lookup(vm, tvar)[k].sourceVariant]) in GenerateFromImpl(vm, sourceVariants)
    ensures forall tvar, k :: 0 <= k < |Lookup(vm, tvar)| ==>
              Converts(GenerateFromImpl(vm, sourceVariants), Lookup(vm, tvar)[k].sourceVariant, tvar)
  {
    var arms := GenerateFromImpl(vm, sourceVariants);
    forall tvar, k | 0 <= k < |Lookup(vm, tvar)|
      ensures GenerateMatchArm(tvar, Lookup(vm, tvar)[k], sourceVariants[Lookup(vm, tvar)[k].sourceVariant]) in arms
    {
      assert tvar in vm;
      var m := Lookup(vm, tvar)[k];
      assert ArmAt(vm, sourceVariants, tvar, k) == GenerateMatchArm(tvar, m, sourceVariants[m.sourceVariant]);
      assert ArmAt(vm, sourceVariants, tvar, k) in arms;
    }
  }

  /** Every arm is the match arm built from some recorded mapping and its
      source variant, converting into the target variant the mapping is
      recorded under. */
  lemma ImplFromMappings(vm: VariantsMapping, sourceVariants: map<string, Variant>)
    requires forall tvar, k :: 0 <= k < |Lookup(vm, tvar)| ==> Lookup(vm, tvar)[k].sourceVariant in sourceVariants
    requires forall s :: s in sourceVariants ==> sourceVariants[s].ident == s && sourceVariants[s].fields.WellFormed()
    ensures forall a :: a in GenerateFromImpl(vm, sourceVariants) ==>
              exists tvar, k :: 0 <= k < |Lookup(vm, tvar)|
                && a == GenerateMatchArm(tvar, Lookup(vm, tvar)[k], sourceVariants[Lookup(vm, tvar)[k].sourceVariant])
  {
    forall a | a in GenerateFromImpl(vm, sourceVariants)
      ensures exists tvar, k :: 0 <= k < |Lookup(vm, tvar)|
                && a == GenerateMatchArm(tvar, Lookup(vm, tvar)[k], sourceVariants[Lookup(vm, tvar)[k].sourceVariant])
    {
      var tvar, k :| tvar in vm && 0 <= k < |Lookup(vm, tvar)| && a == ArmAt(vm, sourceVariants, tvar, k);
    }
  }

  /** When no source variant is recorded twice, no two arms convert the
      same source variant. */
  lemma ImplOnce(vm: VariantsMapping, sourceVariants: map<string, Variant>)
    requires forall tvar, k :: 0 <= k < |Lookup(vm, tvar)| ==> Lookup(vm, tvar)[k].sourceVariant in sourceVariants
    requires forall s :: s in sourceVariants ==> sourceVariants[s].ident == s && sourceVariants[s].fields.WellFormed()
    requires Once(vm)
    ensures forall a, b :: a in GenerateFromImpl(vm, sourceVariants) && b in GenerateFromImpl(vm, sourceVariants) && a.sourceVariant == b.sourceVariant ==> a == b
  {
    var arms := GenerateFromImpl(vm, sourceVariants);
    forall a, b | a in arms && b in arms && a.sourceVariant == b.sourceVariant ensures a == b {
      var x, k :| x in vm && 0 <= k < |Lookup(vm, x)| && a == ArmAt(vm, sourceVariants, x, k);
      var y, l :| y in vm && 0 <= l < |Lookup(vm, y)| && b == ArmAt(vm, sourceVariants, y, l);
      assert Lookup(vm, x)[k].sourceVariant == Lookup(vm, y)[l].sourceVariant;
    }
  }

  /** `generate`: one `From` impl per declared target enum, each given by
      its set of arms. */
  function Generate(g: Generator): (impls: map<string, set<Arm<string>>>)
    requires Emittable(g)
    ensures impls.Keys == g.targetEnums.Keys
    ensures forall t :: t in impls ==> forall a :: a in impls[t] ==> a.sourceVariant in g.sourceVariants
  {
    map t | t in g.targetEnums :: GenerateFromImpl(g.targetEnums[t], g.sourceVariants)
  }

  /** After a successful `try_from` on well-formed variants, emission
      cannot fail, and it produces one impl per declared target enum. */
  lemma TryFromEmittable(p: ParsedEnumInto)
    requires TryFrom(p).Ok?
    requires forall i :: 0 <= i < |p.variantsAnnotations| ==> p.variantsAnnotations[i].variant.fields.WellFormed()
    ensures Emittable(TryFrom(p).value)
    ensures Generate(TryFrom(p).value).Keys == set t | t in p.containerAnnotations
  {
    TryFromRecorded(p);
  }

  /** The source variants some arm converts. */
  function Converted(arms: set<Arm<string>>): set<string> {
    set a | a in arms :: a.sourceVariant
  }

  /** With distinct, well-formed source variants, the `match` of every
      generated impl is exhaustive and has no overlapping arms: the arms
      convert exactly the parsed source variants, one arm each. */
  lemma GeneratedMatchIsExhaustive(p: ParsedEnumInto)
    requires TryFrom(p).Ok?
    requires forall i :: 0 <= i < |p.variantsAnnotations| ==> p.variantsAnnotations[i].variant.fields.WellFormed()
    requires forall i, j :: 0 <= i < j < |p.variantsAnnotations| ==> p.variantsAnnotations[i].variant.ident != p.variantsAnnotations[j].variant.ident
    ensures Emittable(TryFrom(p).value)
    ensures forall t :: t in Generate(TryFrom(p).value) ==> Converted(Generate(TryFrom(p).value)[t]) == VariantNames(p.variantsAnnotations)
    ensures forall t, a, b ::
              t in Generate(TryFrom(p).value) && a in Generate(TryFrom(p).value)[t] && b in Generate(TryFrom(p).value)[t] && a.sourceVariant == b.sourceVariant
              ==> a == b
  {
    GeneratedArmsFromVariants(p);
    GeneratedArmsCover(p);
    GeneratedArmsDisjoint(p);
  }

  /** Every generated arm converts one of the parsed source variants. */
  lemma GeneratedArmsFromVariants(p: ParsedEnumInto)
    requires TryFrom(p).Ok?
    requires forall i :: 0 <= i < |p.variantsAnnotations| ==> p.variantsAnnotations[i].variant.fields.WellFormed()
    ensures Emittable(TryFrom(p).value)
    ensures forall t :: t in Generate(TryFrom(p).value) ==> Converted(Generate(TryFrom(p).value)[t]) <= VariantNames(p.variantsAnnotations)
  {
    TryFromRecorded(p);
    var g := TryFrom(p).value;
    var impls: map<string, set<Arm<string>>> := Generate(g);
    forall t, s | t in impls && s in Converted(impls[t]) ensures s in VariantNames(p.variantsAnnotations) {
      var a :| a in impls[t] && a.sourceVariant == s;
      assert s in g.sourceVariants;
      var i :| 0 <= i < |p.variantsAnnotations| && g.sourceVariants[s] == p.variantsAnnotations[i].variant;
    }
  }

  /** Every parsed source variant has an arm in every generated impl. */
  lemma GeneratedArmsCover(p: ParsedEnumInto)
    requires TryFrom(p).Ok?
    requires forall i :: 0 <= i < |p.variantsAnnotations| ==> p.variantsAnnotations[i].variant.fields.WellFormed()
    ensures Emittable(TryFrom(p).value)
    ensures forall t :: t in Generate(TryFrom(p).value) ==> VariantNames(p.variantsAnnotations) <= Converted(Generate(TryFrom(p).value)[t])
  {
    TryFromRecorded(p);
    TryFromListed(p);
    var g := TryFrom(p).value;
    var impls: map<string, set<Arm<string>>> := Generate(g);
    forall t, s | t in impls && s in VariantNames(p.variantsAnnotations) ensures s in Converted(impls[t]) {
      var i :| 0 <= i < |p.variantsAnnotations| && p.variantsAnnotations[i].variant.ident == s;
      var vm := g.targetEnums[t];
      var tvar, k :| 0 <= k < |Lookup(vm, tvar)| && Lookup(vm, tvar)[k].sourceVariant == s;
      assert impls[t] == GenerateFromImpl(vm, g.sourceVariants);
      ImplConverts(vm, g.sourceVariants);
      assert Converts(impls[t], s, tvar);
    }
  }

  /** With distinct source variants, no two arms of a generated impl
      convert the same source variant. */
  lemma GeneratedArmsDisjoint(p: ParsedEnumInto)
    requires TryFrom(p).Ok?
    requires forall i :: 0 <= i < |p.variantsAnnotations| ==> p.variantsAnnotations[i].variant.fields.WellFormed()
    requires forall i, j :: 0 <= i < j < |p.variantsAnnotations| ==> p.variantsAnnotations[i].variant.ident != p.variantsAnnotations[j].variant.ident
    ensures Emittable(TryFrom(p).value)
    ensures forall t, a, b ::
              t in Generate(TryFrom(p).value) && a in Generate(TryFrom(p).value)[t] && b in Generate(TryFrom(p).value)[t] && a.sourceVariant == b.sourceVariant
              ==> a == b
  {
    TryFromRecorded(p);
    TryFromOnce(p);
    var g := TryFrom(p).value;
    var impls: map<string, set<Arm<string>>> := Generate(g);
    forall t | t in impls ensures forall a, b :: a in impls[t] && b in impls[t] && a.sourceVariant == b.sourceVariant ==> a == b {
      assert impls[t] == GenerateFromImpl(g.targetEnums[t], g.sourceVariants);
      ImplOnce(g.targetEnums[t], g.sourceVariants);
    }
  }

  /** Every arm of the impl generated for the target enum `t` converts a
      parsed source variant whose annotations pair it with the arm's target
      variant, and is the match arm built from that variant's field table
      for (t, target variant); every field of a struct source is written
      to the field its annotations pair it with. Variant names are
      distinct, as the compiler guarantees. */
  lemma ArmFollowsAnnotations(p: ParsedEnumInto, t: string)
    requires TryFrom(p).Ok?
    requires forall i :: 0 <= i < |p.variantsAnnotations| ==> p.variantsAnnotations[i].variant.fields.WellFormed()
    requires forall i, j :: 0 <= i < j < |p.variantsAnnotations| ==> p.variantsAnnotations[i].variant.ident != p.variantsAnnotations[j].variant.ident
    requires t in TryFrom(p).value.targetEnums
    ensures Emittable(TryFrom(p).value)
    ensures forall a :: a in Generate(TryFrom(p).value)[t] ==>
              exists i :: 0 <= i < |p.variantsAnnotations|
                && a.sourceVariant == p.variantsAnnotations[i].variant.ident
                && PairsWith(p.variantsAnnotations[i].variant.ident, p.variantsAnnotations[i].annotations.variantAnnotations, t, a.targetVariant)
                && Unambiguous(p.variantsAnnotations[i].annotations.fieldsAnnotations, t, a.targetVariant)
                && a == GenerateMatchArm(a.targetVariant, MappingFor(p.variantsAnnotations[i], t, a.targetVariant), p.variantsAnnotations[i].variant)
                && (a.shape.StructArm? ==>
                      forall f :: 0 <= f < |a.shape.pairs| ==>
                        PairedField(p.variantsAnnotations[i].annotations.fieldsAnnotations, t, a.targetVariant, a.shape.pairs[f].source, a.shape.pairs[f].target))
  {
    TryFromEmittable(p);
    var g := TryFrom(p).value;
    forall a | a in Generate(g)[t]
      ensures exists i :: 0 <= i < |p.variantsAnnotations|
                && a.sourceVariant == p.variantsAnnotations[i].variant.ident
                && PairsWith(p.variantsAnnotations[i].variant.ident, p.variantsAnnotations[i].annotations.variantAnnotations, t, a.targetVariant)
                && Unambiguous(p.variantsAnnotations[i].annotations.fieldsAnnotations, t, a.targetVariant)
                && a == GenerateMatchArm(a.targetVariant, MappingFor(p.variantsAnnotations[i], t, a.targetVariant), p.variantsAnnotations[i].variant)
                && (a.shape.StructArm? ==>
                      forall f :: 0 <= f < |a.shape.pairs| ==>
                        PairedField(p.variantsAnnotations[i].annotations.fieldsAnnotations, t, a.targetVariant, a.shape.pairs[f].source, a.shape.pairs[f].target))
    {
      var vm := g.targetEnums[t];
      assert Generate(g)[t] == GenerateFromImpl(vm, g.sourceVariants);
      ImplFromMappings(vm, g.sourceVariants);
      var tvar, k :| 0 <= k < |Lookup(vm, tvar)|
                     && a == GenerateMatchArm(tvar, Lookup(vm, tvar)[k], g.sourceVariants[Lookup(vm, tvar)[k].sourceVariant]);
      var i := ArmVariant(p, t, tvar, k);
      PairedFields(p.variantsAnnotations[i].annotations.fieldsAnnotations, t, tvar, a);
    }
  }

  /** A struct arm built from the field table for (t, tvar) writes every
      field to the field the annotations pair it with. */
  lemma PairedFields(fa: map<string, seq<FieldAnnotation<string>>>, t: string, tvar: string, a: Arm<string>)
    requires Unambiguous(fa, t, tvar)
    requires a.shape.StructArm? ==>
               forall f :: 0 <= f < |a.shape.pairs| ==>
                 a.shape.pairs[f].target == Renamed(GetFieldsMapping(fa, t, tvar).value, a.shape.pairs[f].source)
    ensures a.shape.StructArm? ==>
              forall f :: 0 <= f < |a.shape.pairs| ==> PairedField(fa, t, tvar, a.shape.pairs[f].source, a.shape.pairs[f].target)
  {
    if a.shape.StructArm? {
      forall f | 0 <= f < |a.shape.pairs| ensures PairedField(fa, t, tvar, a.shape.pairs[f].source, a.shape.pairs[f].target) {
        RenamedFollowsAnnotations(fa, t, tvar, a.shape.pairs[f].source);
      }
    }
  }

  /** The parsed source variant whose mapping is recorded k-th under
      `tvar` in target enum `t`: its annotations pair it with `tvar`, and
      it is the variant the source variants table holds for the mapping. */
  lemma ArmVariant(p: ParsedEnumInto, t: string, tvar: string, k: nat) returns (i: nat)
    requires TryFrom(p).Ok?
    requires forall i, j :: 0 <= i < j < |p.variantsAnnotations| ==> p.variantsAnnotations[i].variant.ident != p.variantsAnnotations[j].variant.ident
    requires t in TryFrom(p).value.targetEnums && k < |Lookup(TryFrom(p).value.targetEnums[t], tvar)|
    ensures i < |p.variantsAnnotations|
    ensures PairsWith(p.variantsAnnotations[i].variant.ident, p.variantsAnnotations[i].annotations.variantAnnotations, t, tvar)
    ensures Unambiguous(p.variantsAnnotations[i].annotations.fieldsAnnotations, t, tvar)
    ensures Lookup(TryFrom(p).value.targetEnums[t], tvar)[k] == MappingFor(p.variantsAnnotations[i], t, tvar)
    ensures Lookup(TryFrom(p).value.targetEnums[t], tvar)[k].sourceVariant in TryFrom(p).value.sourceVariants
    ensures TryFrom(p).value.sourceVariants[Lookup(TryFrom(p).value.targetEnums[t], tvar)[k].sourceVariant] == p.variantsAnnotations[i].variant
  {
    TryFromRecorded(p);
    TryFromSound(p);
    var vs := p.variantsAnnotations;
    var g := TryFrom(p).value;
    var m := Lookup(g.targetEnums[t], tvar)[k];
    i :| 0 <= i < |vs| && PairsWith(vs[i].variant.ident, vs[i].annotations.variantAnnotations, t, tvar)
         && Unambiguous(vs[i].annotations.fieldsAnnotations, t, tvar) && m == MappingFor(vs[i], t, tvar);
    var i' :| 0 <= i' < |vs| && g.sourceVariants[m.sourceVariant] == vs[i'].variant;
    assert vs[i'].variant.ident == vs[i].variant.ident;
    assert i' == i;
  }

  /** Conversely, the impl generated for the target enum `t` holds, for
      every parsed source variant, the match arm built from its field
      table for the target variant its annotations pair it with. */
  lemma ArmsCoverAnnotations(p: ParsedEnumInto, t: string, i: nat, tvar: string)
    requires TryFrom(p).Ok?
    requires forall i :: 0 <= i < |p.variantsAnnotations| ==> p.variantsAnnotations[i].variant.fields.WellFormed()
    requires forall i, j :: 0 <= i < j < |p.variantsAnnotations| ==> p.variantsAnnotations[i].variant.ident != p.variantsAnnotations[j].variant.ident
    requires t in TryFrom(p).value.targetEnums && i < |p.variantsAnnotations|
    requires PairsWith(p.variantsAnnotations[i].variant.ident, p.variantsAnnotations[i].annotations.variantAnnotations, t, tvar)
    ensures Emittable(TryFrom(p).value)
    ensures Unambiguous(p.variantsAnnotations[i].annotations.fieldsAnnotations, t, tvar)
            && GenerateMatchArm(tvar, MappingFor(p.variantsAnnotations[i], t, tvar), p.variantsAnnotations[i].variant)
               in Generate(TryFrom(p).value)[t]
  {
    TryFromEmittable(p);
    TryFromCover(p);
    var vs := p.variantsAnnotations;
    var g := TryFrom(p).value;
    var vm := g.targetEnums[t];
    var m := MappingFor(vs[i], t, tvar);
    var k :| 0 <= k < |Lookup(vm, tvar)| && Lookup(vm, tvar)[k] == m;
    var i' := ArmVariant(p, t, tvar, k);
    assert vs[i'].variant.ident == m.sourceVariant == vs[i].variant.ident;
    assert i' == i;
    ImplConverts(vm, g.sourceVariants);
    assert Generate(g)[t] == GenerateFromImpl(vm, g.sourceVariants);
  }
}
